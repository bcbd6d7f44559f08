/**
 * `__divdi3` and `__moddi3`: signed division by way of the unsigned one.
 * A signed `long long` of 4h bits is a number in [-M/2, M/2), M = 2^(4h); casts
 * to and from `unsigned long long` are taken modulo M.
 */
module SignedDivision {
  import opened Words
  import opened LongDivision

  datatype SignedResult = Trap | Value(value: int)

  ghost predicate InRange(a: int, M: nat) {
    0 - M <= 2 * a < M
  }

  function ToUnsigned(a: int, M: nat): (u: nat)
    requires M > 0
    ensures u < M
  {
    a % M
  }

  /** Unsigned negation wraps. */
  function Negate(u: nat, M: nat): (r: nat)
    requires M > 0
    ensures r < M
  {
    var x: int := u;
    -x % M
  }

  function ToSigned(u: nat, M: nat): int {
    if 2 * u < M then u else u - M
  }

  /**
   * Truncated division: the remainder is smaller than the divisor and is zero or
   * has the sign of the dividend.
   */
  ghost predicate Truncated(a: int, b: int, q: int, r: int) {
    && a == q * b + r
    && Abs(r) < Abs(b)
    && (r > 0 ==> a > 0) && (r < 0 ==> a < 0)
  }

  /** There is only one way to divide with truncation. */
  lemma TruncatedUnique(a: int, b: int, q: int, r: int, q': int, r': int)
    requires Truncated(a, b, q, r) && Truncated(a, b, q', r')
    ensures q == q' && r == r'
  {
    assert (q - q') * b == r' - r by {
      assert (q - q') * b == q * b - q' * b;
    }
    if q != q' {
      AtLeastOnce(q - q', b);
    }
  }

  lemma AtLeastOnce(k: int, b: int)
    requires k != 0
    ensures Abs(k * b) >= Abs(b)
  {
    if k > 0 {
      if b >= 0 { MulMonotone(1, k, b); } else { MulMonotone(1, k, -b); }
    } else {
      if b >= 0 { MulMonotone(k, -1, b); } else { MulMonotone(k, -1, -b); }
    }
  }

  lemma NegateWord(a: int, M: nat)
    requires M > 0 && InRange(a, M) && a < 0
    ensures Negate(ToUnsigned(a, M), M) == -a
  {
    DivModUnique(a, M, -1, M + a);
    DivModUnique(-(M + a), M, -1, -a);
  }

  lemma KeepWord(a: int, M: nat)
    requires M > 0 && InRange(a, M) && a >= 0
    ensures ToUnsigned(a, M) == a
  {
    DivModUnique(a, M, 0, a);
  }

  lemma NegateResult(x: nat, M: nat)
    requires M > 0 && 2 * x <= M && M % 2 == 0
    ensures ToSigned(Negate(x, M), M) == 0 - x
  {
    if x > 0 {
      DivModUnique(0 - x, M, -1, M - x);
    } else {
      DivModUnique(0, M, 0, 0);
    }
  }

  /** The operands' magnitudes, as the wrappers form them. */
  method Magnitude(a: int, M: nat) returns (ua: nat)
    requires M > 0 && InRange(a, M)
    ensures ua == Abs(a) && 2 * ua <= M
  {
    ua := ToUnsigned(a, M);
    if a < 0 {
      NegateWord(a, M);
      ua := Negate(ua, M);
    } else {
      KeepWord(a, M);
    }
  }

  /** Quotient and remainder of the magnitudes, with the signs put back. */
  lemma SignedFromMagnitudes(a: int, b: int)
    requires b != 0
    ensures var uq, ur := Abs(a) / Abs(b), Abs(a) % Abs(b);
            Truncated(a, b, if (a < 0) != (b < 0) then 0 - uq else uq, if a < 0 then 0 - ur else ur)
  {
    SignsBack(a, b, Abs(a) / Abs(b), Abs(a) % Abs(b));
  }

  lemma SignsBack(a: int, b: int, uq: int, ur: int)
    requires b != 0 && Abs(a) == uq * Abs(b) + ur && 0 <= ur < Abs(b)
    requires a == 0 ==> ur == 0
    ensures Truncated(a, b, if (a < 0) != (b < 0) then -uq else uq, if a < 0 then -ur else ur)
  {
    assert (-uq) * b == -(uq * b) && uq * (-b) == -(uq * b);
  }

  lemma QuotientSmaller(x: nat, y: nat)
    requires y > 0
    ensures x / y <= x
    ensures y > 1 && x > 0 ==> x / y < x
  {
    var q := x / y;
    assert x == q * y + x % y;
    MulMonotone(1, y, q);
    if y > 1 && x > 0 {
      if q > 0 {
        MulMonotone(2, y, q);
      }
    }
  }

  lemma TwiceProduct(x: int, p: int)
    ensures (2 * x) * p == 2 * (x * p)
  {
  }

  lemma EvenModulus(h: nat)
    requires h >= 1
    ensures var M := Pow(Pow(2, h), 4); M > 0 && M % 2 == 0
  {
    var B, x := Pow(2, h), Pow(2, h - 1);
    PowPositive(2, h);
    PowPositive(B, 4);
    var p := Pow(B, 3);
    assert B == 2 * x && Pow(B, 4) == B * p;
    TwiceProduct(x, p);
  }

  /**
   * __divdi3: the truncated quotient of any two representable numbers, except
   * that the one quotient which is not representable wraps to the most negative
   * number, as two's complement does.
   */
  method DivDi3(h: nat, a: int, b: int) returns (res: SignedResult)
    requires h >= 1 && InRange(a, Pow(Pow(2, h), 4)) && InRange(b, Pow(Pow(2, h), 4))
    ensures b == 0 ==> res == Trap
    ensures b != 0 ==> res.Value? && InRange(res.value, Pow(Pow(2, h), 4))
    ensures b != 0 && !(2 * a == 0 - Pow(Pow(2, h), 4) && b == -1) ==> Truncated(a, b, res.value, a - res.value * b)
    ensures 2 * a == 0 - Pow(Pow(2, h), 4) && b == -1 ==> res.value == a
  {
    var M := Pow(Pow(2, h), 4);
    EvenModulus(h);
    var ua := Magnitude(a, M);
    var ub := Magnitude(b, M);
    var d := QDivRem(h, ua, ub);
    if b == 0 {
      return Trap;
    }
    var uq := d.quot;
    SignedFromMagnitudes(a, b);
    QuotientSmaller(ua, ub);
    if (a < 0) != (b < 0) {
      NegateResult(uq, M);
      uq := Negate(uq, M);
    }
    return Value(ToSigned(uq, M));
  }

  /** __moddi3: the remainder of truncated division, for every pair of representable numbers. */
  method ModDi3(h: nat, a: int, b: int) returns (res: SignedResult)
    requires h >= 1 && InRange(a, Pow(Pow(2, h), 4)) && InRange(b, Pow(Pow(2, h), 4))
    ensures b == 0 ==> res == Trap
    ensures b != 0 ==> res.Value? && exists q :: Truncated(a, b, q, res.value)
  {
    var M := Pow(Pow(2, h), 4);
    EvenModulus(h);
    var ua := Magnitude(a, M);
    var ub := Magnitude(b, M);
    var d := QDivRem(h, ua, ub);
    if b == 0 {
      return Trap;
    }
    var ur := d.rem;
    SignedFromMagnitudes(a, b);
    if a < 0 {
      NegateResult(ur, M);
      ur := Negate(ur, M);
    }
    return Value(ToSigned(ur, M));
  }
}
