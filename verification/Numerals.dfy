/** Numbers as text: the digit loop of __pf_printnum, and atoi. */
module Numerals {
  import Words

  /** Room for a 64-bit number in octal, a terminator, and one more. */
  const NUMBER_BUF_SIZE: nat := 64 / 3 + 2

  const INT_MAX_PLUS_1: nat := 0x8000_0000
  const UINT_WRAP: nat := 0x1_0000_0000
  const ULLONG_WRAP: nat := 0x1_0000_0000_0000_0000

  const NUL: char := '\0'

  function Digit(d: nat): char
    requires d < 16
  {
    "0123456789abcdef"[d]
  }

  /** The usual numeral of n in base b. */
  function Numeral(n: nat, b: nat): string
    requires 2 <= b <= 16
    decreases n
  {
    if n < b then [Digit(n)] else Numeral(n / b, b) + [Digit(n % b)]
  }

  function DigitValue(c: char): nat {
    if '0' <= c <= '9' then (c - '0') as nat else if 'a' <= c <= 'f' then (c - 'a') as nat + 10 else 0
  }

  /** The value of a string of digits. */
  function Eval(s: string, b: nat): nat {
    if s == [] then 0 else Eval(s[..|s| - 1], b) * b + DigitValue(s[|s| - 1])
  }

  lemma DigitRoundTrip(d: nat)
    requires d < 16
    ensures DigitValue(Digit(d)) == d && Digit(d) != NUL
    ensures d < 10 ==> '0' <= Digit(d) <= '9'
  {
  }

  lemma EvalSnoc(s: string, c: char, b: nat)
    ensures Eval(s + [c], b) == Eval(s, b) * b + DigitValue(c)
  {
    assert (s + [c])[..|s|] == s;
  }

  lemma Division(n: nat, b: nat)
    requires b >= 2
    ensures n == (n / b) * b + n % b && 0 <= n % b < b
    ensures n / b == 0 <==> n < b
    ensures n >= b ==> 0 < n / b < n
  {
    var q, r := n / b, n % b;
    assert n == q * b + r;
    if n >= b {
      assert q > 0;
      assert q * 2 <= q * b;
    } else {
      Words.DivModUnique(n, b, 0, n);
    }
  }

  /** A numeral evaluates back to its number. */
  lemma {:induction false} NumeralEval(n: nat, b: nat)
    requires 2 <= b <= 16
    ensures Eval(Numeral(n, b), b) == n
    decreases n
  {
    if n < b {
      DigitRoundTrip(n);
      EvalSnoc([], Digit(n), b);
      assert [] + [Digit(n)] == [Digit(n)];
    } else {
      Division(n, b);
      NumeralEval(n / b, b);
      DigitRoundTrip(n % b);
      EvalSnoc(Numeral(n / b, b), Digit(n % b), b);
    }
  }

  /** It is not empty, holds no terminator, and starts with a zero only for zero itself. */
  lemma {:induction false} NumeralShape(n: nat, b: nat)
    requires 2 <= b <= 16
    ensures Numeral(n, b) != [] && NUL !in Numeral(n, b)
    ensures Numeral(n, b)[0] == '0' <==> n == 0
    ensures b <= 10 ==> forall i :: 0 <= i < |Numeral(n, b)| ==> '0' <= Numeral(n, b)[i] <= '9'
    decreases n
  {
    if n < b {
      DigitRoundTrip(n);
    } else {
      Division(n, b);
      var q, r := n / b, n % b;
      NumeralShape(q, b);
      DigitRoundTrip(r);
    }
  }

  lemma {:induction false} NumeralLength(n: nat, b: nat, k: nat)
    requires 8 <= b <= 16 && k > 0 && n < Words.Pow(8, k)
    ensures |Numeral(n, b)| <= k
    decreases k
  {
    if n >= b {
      assert Words.Pow(8, k) == 8 * Words.Pow(8, k - 1);
      assert Words.Pow(8, 0) == 1;
      assert n / b < Words.Pow(8, k - 1) by {
        assert n == (n / b) * b + n % b;
        assert (n / b) * 8 <= (n / b) * b;
      }
      NumeralLength(n / b, b, k - 1);
    }
  }

  /** Every 64-bit number fits the buffer, terminator included, in each of the bases printf uses. */
  lemma NumeralFits(n: nat, b: nat)
    requires n < ULLONG_WRAP && 8 <= b <= 16
    ensures |Numeral(n, b)| + 1 <= NUMBER_BUF_SIZE
  {
    assert Words.Pow(8, 2) == 64;
    assert Words.Pow(8, 4) == 4096 by { Words.PowAdd(8, 2, 2); }
    assert Words.Pow(8, 8) == 0x100_0000 by { Words.PowAdd(8, 4, 4); }
    assert Words.Pow(8, 16) == 0x1_0000_0000_0000 by { Words.PowAdd(8, 8, 8); }
    assert Words.Pow(8, 20) == 0x1000_0000_0000_0000 by { Words.PowAdd(8, 16, 4); }
    assert Words.Pow(8, 22) == 0x4_0000_0000_0000_0000 by { Words.PowAdd(8, 20, 2); }
    NumeralLength(n, b, 22);
  }

  /** One digit comes off the right end. */
  lemma NumeralStep(n: nat, b: nat, tail: string)
    requires 2 <= b <= 16
    ensures n % b < 16 && Numeral(n, b) != []
    ensures var tail' := [Digit(n % b)] + tail;
            Numeral(n, b) + tail == if n / b == 0 then tail' else Numeral(n / b, b) + tail'
  {
    Division(n, b);
    if n < b {
      Words.DivModUnique(n, b, 0, n);
    } else {
      assert (Numeral(n / b, b) + [Digit(n % b)]) + tail == Numeral(n / b, b) + ([Digit(n % b)] + tail);
    }
  }

  /** The digit loop: it fills the buffer from the right and never runs off its left end. */
  method ConvertNumber(num: nat, base: nat) returns (text: string)
    requires num < ULLONG_WRAP && 8 <= base <= 16
    ensures text == Numeral(num, base)
  {
    var buf := new char[NUMBER_BUF_SIZE];
    NumeralFits(num, base);
    var x := NUMBER_BUF_SIZE - 1;
    buf[x] := NUL;
    var xnum: nat := num;
    while true
      invariant 0 <= x <= NUMBER_BUF_SIZE - 1
      invariant Numeral(num, base) == Numeral(xnum, base) + buf[x..NUMBER_BUF_SIZE - 1]
      decreases xnum
    {
      ghost var tail := buf[x..NUMBER_BUF_SIZE - 1];
      NumeralStep(xnum, base, tail);
      Division(xnum, base);
      x := x - 1;
      buf[x] := Digit(xnum % base);
      assert buf[x..NUMBER_BUF_SIZE - 1] == [Digit(xnum % base)] + tail;
      xnum := xnum / base;
      if xnum == 0 {
        break;
      }
    }
    text := buf[x..NUMBER_BUF_SIZE - 1];
  }
}
