/**
 * Fixed-width words and multi-digit numbers.
 *
 * The millicode works on `unsigned int` words of 2h bits that it splits into
 * two `digits' of h bits.  B is the digit base 2^h throughout, and a word is a
 * number below B * B; unsigned arithmetic wraps modulo B * B.
 */
module Words {

  function Min(x: int, y: int): int {
    if x <= y then x else y
  }

  function Abs(x: int): nat {
    if x < 0 then -x else x
  }

  function Pow(b: nat, e: nat): nat {
    if e == 0 then 1 else b * Pow(b, e - 1)
  }

  /** The number written by the digits s, most significant digit first. */
  function Val(s: seq<nat>, B: nat): nat {
    if s == [] then 0 else Val(s[..|s| - 1], B) * B + s[|s| - 1]
  }

  ghost predicate Digits(s: seq<nat>, B: nat) {
    forall i :: 0 <= i < |s| ==> s[i] < B
  }

  /** Unsigned word arithmetic: the C operators wrap, once for every word the value lies outside. */
  function Wrap(x: int, B: nat): (w: nat)
    requires B > 0
    ensures w < B * B
    decreases if x < 0 then B * B - x else x
  {
    if x < 0 then Wrap(x + B * B, B) else if x >= B * B then Wrap(x - B * B, B) else x
  }

  /** High and low half of a word (the HHALF and LHALF macros): how often B goes into it, and what is left. */
  function HHalf(x: nat, B: nat): nat
    requires B > 0
  {
    if x < B then 0 else HHalf(x - B, B) + 1
  }

  function LHalf(x: nat, B: nat): (d: nat)
    requires B > 0
    ensures d < B
  {
    if x < B then x else LHalf(x - B, B)
  }

  /** Wrapping is the remainder modulo the word size, in unsigned and in negative values alike. */
  lemma {:induction false} WrapIsRemainder(x: int, B: nat)
    requires B > 0
    ensures Wrap(x, B) == x % (B * B)
    decreases if x < 0 then B * B - x else x
  {
    var W := B * B;
    if x < 0 {
      WrapIsRemainder(x + W, B);
      SameRemainder(x + W, x, W, 1);
    } else if x >= W {
      WrapIsRemainder(x - W, B);
      SameRemainder(x - W, x, W, -1);
    } else {
      DivModUnique(x, W, 0, x);
    }
  }

  lemma SameRemainder(x: int, y: int, d: int, k: int)
    requires d > 0 && x == y + k * d
    ensures x % d == y % d
  {
    var q, r := y / d, y % d;
    assert x == (q + k) * d + r;
    DivModUnique(x, d, q + k, r);
  }

  /** The halves are quotient and remainder by B. */
  lemma {:induction false} HalvesAre(x: nat, B: nat)
    requires B > 0
    ensures HHalf(x, B) == x / B && LHalf(x, B) == x % B
  {
    if x < B {
      DivModUnique(x, B, 0, x);
    } else {
      HalvesAre(x - B, B);
      var q, r := (x - B) / B, (x - B) % B;
      assert x == (q + 1) * B + r;
      DivModUnique(x, B, q + 1, r);
    }
  }

  lemma HalvesSum(x: nat, B: nat)
    requires B > 0
    ensures x == HHalf(x, B) * B + LHalf(x, B)
  {
    HalvesAre(x, B);
  }

  lemma HalvesUnique(x: nat, B: nat, q: nat, r: nat)
    requires r < B && x == q * B + r
    ensures HHalf(x, B) == q && LHalf(x, B) == r
  {
    HalvesAre(x, B);
    DivModUnique(x, B, q, r);
  }

  lemma {:induction false} PowPositive(b: nat, e: nat)
    requires b > 0
    ensures Pow(b, e) > 0
  {
    if e > 0 {
      PowPositive(b, e - 1);
    }
  }

  lemma {:induction false} PowAdd(b: nat, e: nat, f: nat)
    ensures Pow(b, e + f) == Pow(b, e) * Pow(b, f)
  {
    if e > 0 {
      PowAdd(b, e - 1, f);
      Associative(b, Pow(b, e - 1), Pow(b, f));
    }
  }

  lemma Associative(x: int, y: int, z: int)
    ensures x * (y * z) == (x * y) * z
  {
  }

  lemma PowMonotone(b: nat, e: nat, f: nat)
    requires b > 0 && e <= f
    ensures Pow(b, e) <= Pow(b, f)
  {
    PowAdd(b, e, f - e);
    PowPositive(b, f - e);
    MulMonotone(1, Pow(b, f - e), Pow(b, e));
  }

  lemma MulMonotone(x: int, y: int, k: int)
    requires x <= y && k >= 0
    ensures x * k <= y * k
    ensures k * x <= k * y
  {
  }

  lemma MulStrict(x: int, y: int, k: int)
    requires x < y && k > 0
    ensures x * k < y * k
    ensures k * x < k * y
  {
  }

  /** Quotient and remainder are determined by their defining property. */
  lemma DivModUnique(x: int, d: int, q: int, r: int)
    requires d > 0 && 0 <= r < d && x == q * d + r
    ensures x / d == q && x % d == r
  {
    var q', r' := x / d, x % d;
    assert x == q' * d + r';
    assert (q - q') * d == r' - r by {
      assert (q - q') * d == q * d - q' * d;
    }
    if q > q' {
      MulMonotone(1, q - q', d);
    } else if q < q' {
      MulMonotone(q - q', -1, d);
    }
  }

  lemma {:induction false} ValBound(s: seq<nat>, B: nat)
    requires B > 0 && Digits(s, B)
    ensures Val(s, B) < Pow(B, |s|)
  {
    if s != [] {
      var t := s[..|s| - 1];
      ValBound(t, B);
      MulMonotone(Val(t, B) + 1, Pow(B, |t|), B);
      assert (Val(t, B) + 1) * B == Val(t, B) * B + B;
    }
  }

  lemma ShiftPlaces(x: int, y: int, p: int, B: int)
    ensures (x * p + y) * B == x * (B * p) + y * B
  {
    assert x * p * B == x * (B * p);
  }

  lemma {:induction false} ValConcat(s: seq<nat>, t: seq<nat>, B: nat)
    ensures Val(s + t, B) == Val(s, B) * Pow(B, |t|) + Val(t, B)
  {
    if t == [] {
      assert s + t == s;
    } else {
      var t' := t[..|t| - 1];
      assert (s + t)[..|s + t| - 1] == s + t';
      ValConcat(s, t', B);
      ShiftPlaces(Val(s, B), Val(t', B), Pow(B, |t'|), B);
    }
  }

  /** Prepending a digit gives it the weight of all places behind it. */
  lemma ValCons(d: nat, s: seq<nat>, B: nat)
    ensures Val([d] + s, B) == d * Pow(B, |s|) + Val(s, B)
  {
    ValConcat([d], s, B);
    assert [d][..0] == [];
    assert Val([d], B) == d;
  }

  lemma {:induction false} ValZeros(s: seq<nat>, B: nat)
    requires forall i :: 0 <= i < |s| ==> s[i] == 0
    ensures Val(s, B) == 0
  {
    if s != [] {
      ValZeros(s[..|s| - 1], B);
    }
  }
}
