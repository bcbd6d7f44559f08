/** atoi, against the number its text spells. */
module Atoi {
  import opened Numerals
  import Words

  predicate Blank(c: char) {
    c == ' ' || c == '\t'
  }

  predicate Decimal(c: char) {
    '0' <= c <= '9'
  }

  function SkipBlanks(s: string): string {
    if s != [] && Blank(s[0]) then SkipBlanks(s[1..]) else s
  }

  function SkipSign(s: string): string {
    if s != [] && (s[0] == '-' || s[0] == '+') then s[1..] else s
  }

  predicate Negative(s: string) {
    s != [] && s[0] == '-'
  }

  /** The longest run of digits at the front. */
  function DigitRun(s: string): string {
    if s != [] && Decimal(s[0]) then [s[0]] + DigitRun(s[1..]) else []
  }

  /** An unsigned word read as a signed one. */
  function ToInt(u: int): int {
    var w := u % UINT_WRAP;
    if w < INT_MAX_PLUS_1 then w else w - UINT_WRAP
  }

  /** What the text spells: blanks, a sign, then digits, in 32-bit arithmetic. */
  function Spelled(s: string): int {
    var t := SkipBlanks(s);
    var n := Eval(DigitRun(SkipSign(t)), 10);
    ToInt(if Negative(t) then -(n as int) else n)
  }

  lemma RunStep(s: string, i: nat)
    requires i < |s| && Decimal(s[i])
    ensures DigitRun(s[i..]) == [s[i]] + DigitRun(s[i + 1..])
  {
    assert s[i..][1..] == s[i + 1..];
  }

  lemma BlankStep(s: string, i: nat)
    requires i < |s| && Blank(s[i])
    ensures SkipBlanks(s[i..]) == SkipBlanks(s[i + 1..])
  {
    assert s[i..][1..] == s[i + 1..];
  }

  /** Reducing early does not matter: the loop's wrapped value is the value of the digits so far. */
  lemma WrapStep(n: nat, d: nat)
    ensures (n % UINT_WRAP * 10 + d) % UINT_WRAP == (n * 10 + d) % UINT_WRAP
  {
    var q, r := n / UINT_WRAP, n % UINT_WRAP;
    var x := r * 10 + d;
    Words.DivModUnique(n * 10 + d, UINT_WRAP, q * 10 + x / UINT_WRAP, x % UINT_WRAP);
  }

  lemma NegateWrapped(n: nat)
    ensures (UINT_WRAP - n % UINT_WRAP) % UINT_WRAP == (-(n as int)) % UINT_WRAP
  {
    var q, r := n / UINT_WRAP, n % UINT_WRAP;
    var m: int := n;
    if r == 0 {
      Words.DivModUnique(-m, UINT_WRAP, -q, 0);
      Words.DivModUnique(UINT_WRAP, UINT_WRAP, 1, 0);
    } else {
      Words.DivModUnique(-m, UINT_WRAP, -q - 1, UINT_WRAP - r);
      Words.DivModUnique(UINT_WRAP - r, UINT_WRAP, 0, UINT_WRAP - r);
    }
  }

  /** The scanning loops, on a string that ends where its terminator is. */
  method Parse(s: string) returns (r: int)
    ensures r == Spelled(s)
  {
    var i := 0;
    assert s[0..] == s;
    while i < |s| && (s[i] == ' ' || s[i] == '\t')
      invariant i <= |s| && SkipBlanks(s[i..]) == SkipBlanks(s)
    {
      BlankStep(s, i);
      i := i + 1;
    }
    ghost var t := s[i..];
    assert SkipBlanks(s) == t;
    var neg := false;
    if i < |s| && s[i] == '-' {
      neg := true;
      i := i + 1;
    } else if i < |s| && s[i] == '+' {
      i := i + 1;
    }
    assert SkipSign(t) == s[i..] && neg == Negative(t);
    var val := DigitLoop(s, i);
    NegateWrapped(Eval(DigitRun(s[i..]), 10));
    r := ToInt(if neg then UINT_WRAP - val else val);
    WrapTwice(val, Eval(DigitRun(s[i..]), 10));
  }

  lemma WrapTwice(val: nat, n: nat)
    requires val == n % UINT_WRAP
    ensures val % UINT_WRAP == n % UINT_WRAP
  {
    Words.DivModUnique(val, UINT_WRAP, 0, val);
  }

  lemma RunGrows(s: string, i: nat, seen: string)
    requires i < |s| && Decimal(s[i])
    ensures (seen + [s[i]]) + DigitRun(s[i + 1..]) == seen + DigitRun(s[i..])
  {
    RunStep(s, i);
    assert (seen + [s[i]]) + DigitRun(s[i + 1..]) == seen + ([s[i]] + DigitRun(s[i + 1..]));
  }

  lemma ValueGrows(seen: string, c: char)
    ensures Eval(seen + [c], 10) % UINT_WRAP == (Eval(seen, 10) % UINT_WRAP * 10 + DigitValue(c)) % UINT_WRAP
  {
    EvalSnoc(seen, c, 10);
    WrapStep(Eval(seen, 10), DigitValue(c));
  }

  method DigitLoop(s: string, start: nat) returns (val: nat)
    requires start <= |s|
    ensures val == Eval(DigitRun(s[start..]), 10) % UINT_WRAP
  {
    val := 0;
    var i := start;
    ghost var seen: string := [];
    while i < |s| && Decimal(s[i])
      invariant start <= i <= |s| && seen + DigitRun(s[i..]) == DigitRun(s[start..])
      invariant val == Eval(seen, 10) % UINT_WRAP
    {
      RunGrows(s, i, seen);
      ValueGrows(seen, s[i]);
      val := (val * 10 + DigitValue(s[i])) % UINT_WRAP;
      seen := seen + [s[i]];
      i := i + 1;
    }
    assert DigitRun(s[i..]) == [];
    assert seen + [] == seen;
  }

  // ------------------------------------------------------------------------
  // Round trip
  // ------------------------------------------------------------------------

  /** What %d prints, without a field width. */
  function DecimalText(x: int): string {
    if x < 0 then "-" + Numeral(-x, 10) else Numeral(x, 10)
  }

  lemma {:induction false} RunOfDigits(s: string)
    requires forall i :: 0 <= i < |s| ==> Decimal(s[i])
    ensures DigitRun(s) == s
  {
    if s != [] {
      RunOfDigits(s[1..]);
      assert s == [s[0]] + s[1..];
    }
  }

  lemma PlainParts(digits: string)
    requires digits != [] && Decimal(digits[0])
    ensures SkipBlanks(digits) == digits && SkipSign(digits) == digits && !Negative(digits)
  {
  }

  lemma SignedParts(digits: string)
    ensures SkipBlanks("-" + digits) == "-" + digits && SkipSign("-" + digits) == digits && Negative("-" + digits)
  {
    assert ("-" + digits)[1..] == digits;
  }

  lemma SpelledDigits(digits: string)
    requires digits != [] && forall i :: 0 <= i < |digits| ==> Decimal(digits[i])
    ensures Spelled(digits) == ToInt(Eval(digits, 10))
    ensures Spelled("-" + digits) == ToInt(-(Eval(digits, 10) as int))
  {
    RunOfDigits(digits);
    PlainParts(digits);
    SpelledBy(digits, digits, digits);
    SignedParts(digits);
    SpelledBy("-" + digits, "-" + digits, digits);
  }

  lemma SpelledBy(s: string, t: string, digits: string)
    requires SkipBlanks(s) == t && DigitRun(SkipSign(t)) == digits
    ensures Spelled(s) == ToInt(if Negative(t) then -(Eval(digits, 10) as int) else Eval(digits, 10))
  {
  }

  lemma ToIntOfInt(x: int)
    requires 0 <= x + INT_MAX_PLUS_1 < UINT_WRAP
    ensures ToInt(x) == x
  {
  }

  /** atoi reads back every int that %d prints, the most negative one included. */
  lemma AtoiOfDecimal(x: int)
    requires 0 <= x + INT_MAX_PLUS_1 < UINT_WRAP
    ensures Spelled(DecimalText(x)) == x
  {
    var n: nat := if x < 0 then -x else x;
    NumeralShape(n, 10);
    NumeralEval(n, 10);
    SpelledDigits(Numeral(n, 10));
    ToIntOfInt(x);
  }
}
