/**
 * Multiprecision division (Knuth, The Art of Computer Programming, volume 2,
 * section 4.3.1, Algorithm D), as `__qdivrem` runs it on digit arrays in place.
 */
module AlgorithmD {
  import opened Words

  // ------------------------------------------------------------------------
  // D3: the trial quotient digit
  // ------------------------------------------------------------------------

  lemma QuotientBound(x: nat, y: nat, q: nat)
    requires y > 0
    ensures q * y <= x ==> q <= x / y
    ensures q * y > x ==> q > x / y
  {
    var d := x / y;
    assert x == d * y + x % y;
    if q > d {
      MulMonotone(d + 1, q, y);
      assert (d + 1) * y == d * y + y;
    } else {
      MulMonotone(q, d, y);
    }
  }

  lemma DivLower(x: nat, y: nat)
    requires y > 0
    ensures x / y * y <= x
  {
  }

  lemma DivUpper(x: nat, y: nat)
    requires y > 0
    ensures x < (x / y + 1) * y
  {
    assert (x / y + 1) * y == x / y * y + y;
  }

  lemma WrapSmall(x: nat, B: nat)
    requires x < B * B
    ensures B > 0 && Wrap(x, B) == x
  {
  }

  /** Two digits multiply without leaving the word. */
  lemma ProductFits(x: nat, y: nat, B: nat)
    requires x < B && y < B
    ensures x * y < B * B && Wrap(x * y, B) == x * y
  {
    MulMonotone(x, B, y);
    MulStrict(y, B, B);
    WrapSmall(x * y, B);
  }

  /** COMBINE(a, b): two digits make one word. */
  lemma CombineFits(a: nat, b: nat, B: nat)
    requires a < B && b < B
    ensures Wrap(a * B, B) == a * B
    ensures a * B + b < B * B
  {
    MulMonotone(a + 1, B, B);
    assert (a + 1) * B == a * B + B;
    WrapSmall(a * B, B);
  }

  /** The test of D3 compares three leading digits against two. */
  lemma TrialTest(B: nat, u01: nat, u2: nat, v1: nat, v2: nat, qhat: nat, rhat: nat)
    requires u2 < B && qhat * v1 + rhat == u01
    ensures v2 * qhat > rhat * B + u2 <==> qhat * (v1 * B + v2) > u01 * B + u2
  {
    calc {
      qhat * (v1 * B + v2);
      qhat * v1 * B + v2 * qhat;
    }
    calc {
      u01 * B;
      qhat * v1 * B + rhat * B;
    }
  }

  lemma ScaledAbove(B: nat, u01: nat, u2: nat, v1: nat, v2: nat, k: nat)
    requires u2 < B && u01 < k * v1
    ensures u01 * B + u2 < k * (v1 * B + v2)
  {
    MulMonotone(u01 + 1, k * v1, B);
    calc {
      k * (v1 * B + v2);
      k * v1 * B + k * v2;
    >= { assert k * v2 >= 0; }
      k * v1 * B;
    >=
      (u01 + 1) * B;
      u01 * B + B;
    }
  }

  /** Dropping the last digit on both sides never makes the quotient smaller. */
  lemma TruncatedQuotient(B: nat, u01: nat, u2: nat, v1: nat, v2: nat)
    requires v1 > 0 && u2 < B
    ensures v1 * B + v2 > 0
    ensures (u01 * B + u2) / (v1 * B + v2) <= u01 / v1
  {
    MulMonotone(1, v1, B);
    DivUpper(u01, v1);
    ScaledAbove(B, u01, u2, v1, v2, u01 / v1 + 1);
    QuotientBound(u01 * B + u2, v1 * B + v2, u01 / v1 + 1);
  }

  lemma EstimateBelowBase(u0: nat, u1: nat, v1: nat, B: nat)
    requires u0 < v1 && u1 < B
    ensures (u0 * B + u1) / v1 < B
  {
    MulMonotone(u0 + 1, v1, B);
    assert (u0 + 1) * B == u0 * B + B;
    QuotientBound(u0 * B + u1, v1, B);
    assert B * v1 == v1 * B;
  }

  /** g is the quotient U3 / V2, capped at B - 1. */
  ghost predicate CappedQuotient(B: nat, U3: int, V2: int, g: nat) {
    && g < B
    && g * V2 <= U3
    && (g < B - 1 ==> U3 < (g + 1) * V2)
  }

  lemma CappedQuotientIs(B: nat, U3: int, V2: int, g: nat)
    requires U3 >= 0 && V2 > 0 && CappedQuotient(B, U3, V2, g)
    ensures g == Min(B - 1, U3 / V2)
  {
    QuotientBound(U3, V2, g);
    QuotientBound(U3, V2, g + 1);
  }

  lemma CappedQuotientExists(B: nat, U3: int, V2: int) returns (g: nat)
    requires U3 >= 0 && V2 > 0 && B > 0
    ensures CappedQuotient(B, U3, V2, g) && g <= U3 / V2
  {
    g := Min(B - 1, U3 / V2);
    DivLower(U3, V2);
    DivUpper(U3, V2);
    MulMonotone(g, U3 / V2, V2);
  }

  /** When the test holds, or the estimate is B, one less is still not too small. */
  lemma TrialCorrect(B: nat, u01: nat, u2: nat, v1: nat, v2: nat, qhat: nat, rhat: nat, g: nat)
    requires u2 < B
    requires CappedQuotient(B, u01 * B + u2, v1 * B + v2, g) && g <= qhat <= B
    requires qhat * v1 + rhat == u01
    requires qhat < B ==> v2 * qhat > rhat * B + u2
    ensures g < qhat && (qhat - 1) * v1 + (rhat + v1) == u01
  {
    assert (qhat - 1) * v1 == qhat * v1 - v1;
    if qhat < B {
      TrialTest(B, u01, u2, v1, v2, qhat, rhat);
    }
  }

  /** Once the test fails, or the remainder has outgrown a digit, the estimate is not too big. */
  lemma TrialDone(B: nat, u01: nat, u2: nat, v1: nat, v2: nat, qhat: nat, rhat: nat, g: nat)
    requires u2 < B && v2 < B
    requires CappedQuotient(B, u01 * B + u2, v1 * B + v2, g) && g <= qhat < B
    requires qhat * v1 + rhat == u01
    requires rhat >= B || v2 * qhat <= rhat * B + u2
    ensures qhat == g
  {
    if rhat >= B {
      MulMonotone(B, rhat, B);
      ProductFits(v2, qhat, B);
    }
    TrialTest(B, u01, u2, v1, v2, qhat, rhat);
    if g < qhat {
      MulMonotone(g + 1, qhat, v1 * B + v2);
    }
  }

  /** The test of D3, in words that do not wrap. */
  method TrialTooBig(B: nat, u2: nat, v2: nat, qhat: nat, rhat: nat) returns (big: bool)
    requires u2 < B && v2 < B && qhat < B && rhat < B
    ensures big <==> v2 * qhat > rhat * B + u2
  {
    ProductFits(v2, qhat, B);
    CombineFits(rhat, u2, B);
    return Wrap(v2 * qhat, B) > Wrap(rhat * B, B) + u2;
  }

  /** The correction loop of D3, from any estimate that is not too small. */
  method CorrectTrial(B: nat, ghost u01: nat, u2: nat, v1: nat, v2: nat, q0: nat, r0: nat, ghost g: nat)
    returns (qhat: nat)
    requires u2 < B && v2 < B && v1 > 0
    requires CappedQuotient(B, u01 * B + u2, v1 * B + v2, g) && g <= q0 <= B && q0 * v1 + r0 == u01
    requires q0 < B ==> r0 < B
    ensures qhat == g
  {
    qhat := q0;
    var rhat: nat := r0;
    while true
      invariant qhat * v1 + rhat == u01 && g <= qhat <= B
      invariant qhat < B ==> rhat < B
      decreases qhat
    {
      if qhat < B {
        var big := TrialTooBig(B, u2, v2, qhat, rhat);
        if !big {
          break;
        }
      }
      TrialCorrect(B, u01, u2, v1, v2, qhat, rhat, g);
      qhat, rhat := qhat - 1, rhat + v1;
      if rhat >= B {
        break;
      }
    }
    TrialDone(B, u01, u2, v1, v2, qhat, rhat, g);
  }

  /** The two-by-one digit estimate D3 starts from. */
  method TwoByOne(B: nat, u0: nat, u1: nat, v1: nat) returns (qhat: nat, rhat: nat)
    requires u0 < v1 < B && u1 < B
    ensures qhat * v1 + rhat == u0 * B + u1
    ensures qhat < B && rhat < v1
    ensures qhat == (u0 * B + u1) / v1
  {
    CombineFits(u0, u1, B);
    EstimateBelowBase(u0, u1, v1, B);
    var nn := Wrap(u0 * B, B) + u1;
    qhat, rhat := nn / v1, nn % v1;
  }

  /**
   * D3.  The loop that starts from the two-by-one digit estimate and corrects
   * it computes the three-by-two digit quotient, capped at B - 1.
   */
  method TrialDigit(B: nat, u0: nat, u1: nat, u2: nat, v1: nat, v2: nat) returns (qhat: nat)
    requires 0 < v1 && u0 <= v1 < B && u1 < B && u2 < B && v2 < B
    ensures CappedQuotient(B, (u0 * B + u1) * B + u2, v1 * B + v2, qhat)
  {
    qhat := TrialFrom(B, u0 * B + u1, u0, u1, u2, v1, v2);
  }

  method TrialFrom(B: nat, ghost u01: nat, u0: nat, u1: nat, u2: nat, v1: nat, v2: nat) returns (qhat: nat)
    requires 0 < v1 && u0 <= v1 < B && u1 < B && u2 < B && v2 < B && u01 == u0 * B + u1
    ensures CappedQuotient(B, u01 * B + u2, v1 * B + v2, qhat)
  {
    ghost var g := TrialGoal(B, u01, u2, v1, v2);
    var q0, r0 := FirstTrial(B, u0, u1, v1, g);
    qhat := CorrectTrial(B, u01, u2, v1, v2, q0, r0, g);
  }

  /** The digit D3 looks for, and why the two-by-one digit quotient is not below it. */
  lemma TrialGoal(B: nat, u01: nat, u2: nat, v1: nat, v2: nat) returns (g: nat)
    requires v1 > 0 && u2 < B
    ensures CappedQuotient(B, u01 * B + u2, v1 * B + v2, g) && g <= u01 / v1
  {
    TruncatedQuotient(B, u01, u2, v1, v2);
    g := CappedQuotientExists(B, u01 * B + u2, v1 * B + v2);
  }

  /** Where the loop starts: from the two-by-one digit quotient, or from B when that would not be a digit. */
  method FirstTrial(B: nat, u0: nat, u1: nat, v1: nat, ghost g: nat) returns (qhat: nat, rhat: nat)
    requires 0 < v1 && u0 <= v1 < B && u1 < B && g < B && g <= (u0 * B + u1) / v1
    ensures g <= qhat <= B && qhat * v1 + rhat == u0 * B + u1 && rhat < B
  {
    if u0 == v1 {
      return B, u1;  // the loop body is entered without the test
    }
    qhat, rhat := TwoByOne(B, u0, u1, v1);
  }

  /**
   * Theorems A and B of Knuth's section 4.3.1 in one statement: when the two
   * leading divisor digits V2 reach B (the normalised divisor's exceed B * B / 2),
   * the capped three-by-two estimate is the true quotient digit or exactly one more.
   * U = U3 * P + ul and V = V2 * P + vl split dividend and divisor after their
   * leading three and two digits.
   */
  lemma TrialDigitBounds(B: nat, P: nat, U3: nat, ul: nat, V2: nat, vl: nat)
    requires B > 0 && P > 0 && ul < P && vl < P && V2 >= B
    requires U3 * P + ul < (V2 * P + vl) * B
    ensures V2 * P + vl > 0
    ensures var q, qhat := (U3 * P + ul) / (V2 * P + vl), Min(B - 1, U3 / V2);
            q <= qhat <= q + 1
  {
    MulMonotone(1, V2, P);
    TrialNotTooSmall(B, P, U3, ul, V2, vl);
    TrialNotTooBig(B, P, U3, ul, V2, vl);
  }

  /** k * V <= U leaves k * V2 <= U3. */
  lemma LeadingProduct(P: nat, U3: nat, ul: nat, V2: nat, vl: nat, k: nat)
    requires ul < P && k * (V2 * P + vl) <= U3 * P + ul
    ensures k * V2 <= U3
  {
    calc {
      k * (V2 * P + vl);
      (k * V2) * P + k * vl;
    >= { assert k * vl >= 0; }
      (k * V2) * P;
    }
    if k * V2 > U3 {
      MulMonotone(U3 + 1, k * V2, P);
    }
  }

  lemma TrialNotTooSmall(B: nat, P: nat, U3: nat, ul: nat, V2: nat, vl: nat)
    requires B > 0 && P > 0 && ul < P && vl < P && V2 >= B
    requires U3 * P + ul < (V2 * P + vl) * B
    requires V2 * P + vl > 0
    ensures (U3 * P + ul) / (V2 * P + vl) <= Min(B - 1, U3 / V2)
  {
    var U, V := U3 * P + ul, V2 * P + vl;
    assert V * B == B * V;
    QuotientBound(U, V, B);
    DivLower(U, V);
    LeadingProduct(P, U3, ul, V2, vl, U / V);
    QuotientBound(U3, V2, U / V);
  }

  /** k * V > U although (k + 1) * V2 <= U3 is possible only for a k above V2. */
  lemma LeadingExcess(P: nat, U3: nat, ul: nat, V2: nat, vl: nat, k: nat)
    requires vl < P && k * (V2 * P + vl) > U3 * P + ul && (k + 1) * V2 <= U3
    ensures k > V2
  {
    MulMonotone((k + 1) * V2, U3, P);
    MulMonotone(vl, P, k);
    calc {
      (k * V2) * P + V2 * P;
      (k + 1) * V2 * P;
    <=
      U3 * P;
    <
      k * (V2 * P + vl);
      (k * V2) * P + k * vl;
    <=
      (k * V2) * P + k * P;
    }
    if k <= V2 {
      MulMonotone(k, V2, P);
    }
  }

  lemma TrialNotTooBig(B: nat, P: nat, U3: nat, ul: nat, V2: nat, vl: nat)
    requires P > 0 && ul < P && vl < P && V2 >= B > 0 && V2 * P + vl > 0
    ensures Min(B - 1, U3 / V2) <= (U3 * P + ul) / (V2 * P + vl) + 1
  {
    var U, V := U3 * P + ul, V2 * P + vl;
    DivUpper(U, V);
    DivLower(U3, V2);
    if U / V + 2 <= U3 / V2 {
      DigitExcess(P, U3, ul, V2, vl, U / V + 1, U3 / V2);
    }
  }

  lemma DigitExcess(P: nat, U3: nat, ul: nat, V2: nat, vl: nat, k: nat, c: nat)
    requires vl < P && k * (V2 * P + vl) > U3 * P + ul && k + 1 <= c && c * V2 <= U3
    ensures k > V2
  {
    MulMonotone(k + 1, c, V2);
    LeadingExcess(P, U3, ul, V2, vl, k);
  }

  // ------------------------------------------------------------------------
  // D4 and D6: multiply-and-subtract, add back
  // ------------------------------------------------------------------------

  lemma SquareAbove(B: nat)
    requires B >= 2
    ensures 2 * B <= B * B
  {
    MulMonotone(2, B, B);
  }

  /** A negative intermediate wraps to the word whose halves encode digit and borrow. */
  lemma NegativeBorrow(B: nat, x: int, e: int, d: nat)
    requires B >= 2 && d < B && x == d - e * B && 0 < e < B
    ensures HHalf(Wrap(x, B), B) == B - e && LHalf(Wrap(x, B), B) == d
  {
    assert B * B + x == (B - e) * B + d by {
      assert (B - e) * B == B * B - e * B;
    }
    MulMonotone(1, e, B);
    MulMonotone(0, B - e, B);
    NegativeWrap(B, x);
    HalvesUnique(B * B + x, B, B - e, d);
  }

  lemma NegativeWrap(B: nat, x: int)
    requires -(B * B) <= x < 0
    ensures B > 0 && Wrap(x, B) == B * B + x
  {
    DivModUnique(x, B * B, -1, B * B + x);
  }

  lemma BorrowRange(B: nat, e: int, d: nat)
    requires d < B && -((B - 1) * B) <= d - e * B < 0
    ensures 0 < e < B
  {
    if e >= B {
      MulMonotone(B, e, B);
    }
  }

  lemma BorrowDigit(B: nat, x: int, e: int, d: nat)
    requires B >= 2 && d < B && x == d - e * B && -((B - 1) * B) <= x < 0
    ensures var w := Wrap(x, B);
            LHalf(w, B) - (B - HHalf(w, B)) % B * B == x
  {
    BorrowRange(B, e, d);
    NegativeBorrow(B, x, e, d);
    DivModUnique(e, B, 0, e);
  }

  /** One digit of D4: the wrapped word splits into the digit and the borrow. */
  lemma BorrowStep(B: nat, x: int)
    requires B >= 2 && -((B - 1) * B) <= x < B
    ensures var w := Wrap(x, B);
            LHalf(w, B) - (B - HHalf(w, B)) % B * B == x
  {
    SquareAbove(B);
    if x >= 0 {
      WrapSmall(x, B);
      HalvesUnique(x, B, 0, x);
      DivModUnique(B, B, 1, 0);
    } else {
      BorrowDigit(B, x, -(x / B), x % B);
    }
  }

  lemma SubRange(B: nat, a: nat, b: nat, qhat: nat, t: nat)
    requires a < B && b < B && qhat < B && t < B
    ensures -((B - 1) * B) <= a - b * qhat - t < B
  {
    MulMonotone(b, B - 1, qhat);
    MulMonotone(qhat, B - 1, B - 1);
    assert (B - 1) * (B - 1) + (B - 1) == (B - 1) * B;
  }

  lemma SubPlaces(B: nat, p: nat, a: nat, b: nat, qhat: nat, t: nat, d: nat, t': nat)
    requires d - t' * B == a - b * qhat - t
    ensures d * p + t * p == a * p - qhat * (b * p) + t' * (B * p)
  {
    calc {
      d * p + t * p;
      (d + t) * p;
      (a - b * qhat + t' * B) * p;
      a * p - b * qhat * p + t' * B * p;
      a * p - qhat * (b * p) + t' * (B * p);
    }
  }

  /**
   * A pass over the digits of two numbers, least significant first: at each place f
   * makes a digit, and what is carried on, of the two digits and what came in.
   */
  function Ripple(f: (nat, nat, nat) -> (nat, nat), a: seq<nat>, v: seq<nat>): (r: (seq<nat>, nat))
    requires |a| == |v|
    ensures |r.0| == |a|
  {
    if a == [] then ([], 0)
    else
      var low := Ripple(f, a[1..], v[1..]);
      var (d, t) := f(a[0], v[0], low.1);
      ([d] + low.0, t)
  }

  lemma RippleStep(f: (nat, nat, nat) -> (nat, nat), a: seq<nat>, v: seq<nat>, i: nat, now: seq<nat>, t: nat)
    requires 0 < i <= |v| && |a| == |now| == |v| + 1
    requires now[..i + 1] == a[..i + 1] && (now[i + 1..], t) == Ripple(f, a[i + 1..], v[i..])
    ensures now[i] == a[i]
    ensures var (d, t') := f(now[i], v[i - 1], t);
            var now' := now[i := d];
            && now'[..i] == a[..i]
            && (now'[i..], t') == Ripple(f, a[i..], v[i - 1..])
  {
    assert now[i] == now[..i + 1][i] == a[..i + 1][i];
    assert a[i..][1..] == a[i + 1..] && v[i - 1..][1..] == v[i..];
    var (d, t') := f(now[i], v[i - 1], t);
    var now' := now[i := d];
    assert now'[i..] == [d] + now[i + 1..];
    assert now'[..i] == now[..i + 1][..i] && a[..i] == a[..i + 1][..i];
  }

  /** Such a pass in place, over u[ub+1..ub+n]: the loops of D4 and of D6. */
  method RippleInPlace(f: (nat, nat, nat) -> (nat, nat), u: array<nat>, ub: nat, v: array<nat>, vb: nat, n: nat)
    returns (t: nat)
    requires u != v && ub + n < u.Length && vb + n <= v.Length
    modifies u
    ensures forall k :: 0 <= k <= ub || ub + n < k < u.Length ==> u[k] == old(u[k])
    ensures (u[ub..ub + n + 1][1..], t) == Ripple(f, old(u[ub..ub + n + 1])[1..], v[vb..vb + n])
  {
    ghost var a, vs := u[ub..ub + n + 1], v[vb..vb + n];
    ghost var now := a;
    t := 0;
    var i := n;
    while i > 0
      invariant 0 <= i <= n
      invariant forall k :: 0 <= k < ub || ub + n < k < u.Length ==> u[k] == old(u[k])
      invariant |now| == n + 1 && forall k :: 0 <= k <= n ==> u[ub + k] == now[k]
      invariant now[..i + 1] == a[..i + 1]
      invariant (now[i + 1..], t) == Ripple(f, a[i + 1..], vs[i..])
      decreases i
    {
      RippleStep(f, a, vs, i, now, t);
      var (d, t') := f(u[ub + i], v[vb + i - 1], t);
      u[ub + i] := d;
      now := now[i := d];
      t := t';
      i := i - 1;
    }
    RippleEnd(a, vs, now);
    assert u[ub..ub + n + 1] == now;
  }

  lemma RippleEnd(a: seq<nat>, v: seq<nat>, now: seq<nat>)
    requires |a| == |now| == |v| + 1
    ensures a[0 + 1..] == a[1..] && now[0 + 1..] == now[1..] && v[0..] == v
    ensures now[..1] == a[..1] ==> now[0] == a[0]
  {
    assert now[..1] == a[..1] ==> now[..1][0] == a[..1][0];
  }

  /** One place of D4: the digit it leaves, and the borrow into the next place. */
  function SubtractPlace(B: nat, qhat: nat, a: nat, b: nat, t: nat): (nat, nat) {
    if B == 0 then (0, 0)
    else
      var w := Wrap(a - b * qhat - t, B);
      (LHalf(w, B), (B - HHalf(w, B)) % B)
  }

  function Subtracting(B: nat, qhat: nat): (nat, nat, nat) -> (nat, nat) {
    (a, b, t) => SubtractPlace(B, qhat, a, b, t)
  }

  /** What the D4 loop does to the digits below the top one, with the borrow that comes out at the end. */
  function Borrowing(B: nat, a: seq<nat>, v: seq<nat>, qhat: nat): (r: (seq<nat>, nat))
    requires |a| == |v|
    ensures |r.0| == |a|
  {
    Ripple(Subtracting(B, qhat), a, v)
  }

  lemma BorrowingUnfold(B: nat, a: seq<nat>, v: seq<nat>, qhat: nat)
    requires |a| == |v| > 0
    ensures var low := Borrowing(B, a[1..], v[1..], qhat);
            var p := SubtractPlace(B, qhat, a[0], v[0], low.1);
            Borrowing(B, a, v, qhat) == ([p.0] + low.0, p.1)
  {
  }

  /** The digits and the borrow together are the exact difference. */
  lemma {:induction false} BorrowingValue(B: nat, a: seq<nat>, v: seq<nat>, qhat: nat)
    requires B >= 2 && |a| == |v| && Digits(a, B) && Digits(v, B) && qhat < B
    ensures var r := Borrowing(B, a, v, qhat);
            && r.1 < B && Digits(r.0, B)
            && Val(r.0, B) + qhat * Val(v, B) == Val(a, B) + r.1 * Pow(B, |a|)
  {
    if a != [] {
      BorrowingValue(B, a[1..], v[1..], qhat);
      BorrowingUnfold(B, a, v, qhat);
      var low := Borrowing(B, a[1..], v[1..], qhat);
      SubRange(B, a[0], v[0], qhat, low.1);
      BorrowStep(B, a[0] - v[0] * qhat - low.1);
      var r := Borrowing(B, a, v, qhat);
      SubExtend(B, low.0, a[1..], v[1..], qhat, low.1, a[0], v[0], r.0[0], r.1);
      assert [a[0]] + a[1..] == a && [v[0]] + v[1..] == v;
      assert r.0 == [r.0[0]] + low.0;
    }
  }

  lemma SubExtend(B: nat, new_: seq<nat>, old_: seq<nat>, v: seq<nat>, qhat: nat, t: nat,
                  a: nat, b: nat, d: nat, t': nat)
    requires |new_| == |old_| == |v|
    requires Val(new_, B) + qhat * Val(v, B) == Val(old_, B) + t * Pow(B, |old_|)
    requires d - t' * B == a - b * qhat - t
    ensures Val([d] + new_, B) + qhat * Val([b] + v, B) == Val([a] + old_, B) + t' * Pow(B, |old_| + 1)
  {
    ValCons(d, new_, B);
    ValCons(a, old_, B);
    ValCons(b, v, B);
    SubSum(B, Pow(B, |old_|), Pow(B, |old_| + 1), a, b, qhat, t, d, t', Val(new_, B), Val(old_, B), Val(v, B),
           Val([d] + new_, B), Val([a] + old_, B), Val([b] + v, B));
  }

  lemma SubSum(B: nat, p: nat, p': nat, a: nat, b: nat, qhat: nat, t: nat, d: nat, t': nat,
               x: int, y: int, z: int, x': int, y': int, z': int)
    requires p' == B * p && x + qhat * z == y + t * p
    requires d - t' * B == a - b * qhat - t
    requires x' == d * p + x && y' == a * p + y && z' == b * p + z
    ensures x' + qhat * z' == y' + t' * p'
  {
    SubPlaces(B, p, a, b, qhat, t, d, t');
    assert qhat * (b * p + z) == qhat * (b * p) + qhat * z;
  }

  /** The top digit absorbs the last borrow; the high half of the word tells whether it was too small. */
  lemma SubTop(B: nat, top: nat, borrow: nat)
    requires B >= 2 && top < B && borrow < B
    ensures var w := Wrap(top - borrow, B);
            if top >= borrow then HHalf(w, B) == 0 && LHalf(w, B) == top - borrow
            else HHalf(w, B) != 0 && LHalf(w, B) == B + top - borrow
  {
    SquareAbove(B);
    if top >= borrow {
      WrapSmall(top - borrow, B);
      HalvesUnique(top - borrow, B, 0, top - borrow);
    } else {
      NegativeBorrow(B, top - borrow, 1, B + top - borrow);
    }
  }

  /** That digit d in place, the number n is the difference of u and qv, up to one wrap when it is negative. */
  lemma SubFinish(B: nat, p: nat, top: nat, borrow: nat, d: nat, h: nat, lowNew: int, lowOld: int, qv: int, u: int,
                  n: int)
    requires top < B && 0 <= lowNew < p && lowNew + qv == lowOld + borrow * p
    requires u == top * p + lowOld && n == d * p + lowNew
    requires if top >= borrow then h == 0 && d == top - borrow else h != 0 && d == B + top - borrow
    ensures h != 0 <==> u < qv
    ensures n + qv == u + if u < qv then B * p else 0
  {
    if top >= borrow {
      MulMonotone(borrow, top, p);
      assert d * p == top * p - borrow * p;
    } else {
      MulMonotone(top + 1, borrow, p);
      assert d * p == B * p + top * p - borrow * p;
    }
  }

  /** D4 as a function of the digits u[j..j+n] and v[1..n]: the new digits and the word left in t. */
  function MulSubDigits(B: nat, a: seq<nat>, v: seq<nat>, qhat: nat): (r: (seq<nat>, nat))
    requires B > 0 && |a| == |v| + 1
    ensures |r.0| == |a|
  {
    var low := Borrowing(B, a[1..], v, qhat);
    var w := Wrap(a[0] - low.1, B);
    ([LHalf(w, B)] + low.0, w)
  }

  /**
   * D4 computes the exact difference modulo B^(n+1), and the high half of the
   * word it leaves is nonzero exactly when that difference is negative.
   */
  lemma MulSubValue(B: nat, a: seq<nat>, v: seq<nat>, qhat: nat)
    requires B >= 2 && |a| == |v| + 1 && Digits(a, B) && Digits(v, B) && qhat < B
    ensures var r := MulSubDigits(B, a, v, qhat);
            var U, QV := Val(a, B), qhat * Val(v, B);
            && Digits(r.0, B)
            && (HHalf(r.1, B) != 0 <==> U < QV)
            && Val(r.0, B) + QV == U + (if U < QV then Pow(B, |a|) else 0)
  {
    BorrowingValue(B, a[1..], v, qhat);
    var low := Borrowing(B, a[1..], v, qhat);
    var r := MulSubDigits(B, a, v, qhat);
    ValBound(low.0, B);
    SubTop(B, a[0], low.1);
    assert [a[0]] + a[1..] == a;
    ValCons(a[0], a[1..], B);
    assert r.0 == [r.0[0]] + low.0;
    ValCons(r.0[0], low.0, B);
    SubFinish(B, Pow(B, |v|), a[0], low.1, r.0[0], HHalf(r.1, B), Val(low.0, B), Val(a[1..], B), qhat * Val(v, B),
              Val(a, B), Val(r.0, B));
  }

  lemma MulSubFrom(B: nat, a: seq<nat>, v: seq<nat>, qhat: nat, low: seq<nat>, t: nat)
    requires B > 0 && |a| == |v| + 1 && (low, t) == Ripple(Subtracting(B, qhat), a[1..], v)
    ensures MulSubDigits(B, a, v, qhat) == ([LHalf(Wrap(a[0] - t, B), B)] + low, Wrap(a[0] - t, B))
  {
  }

  /** D4: multiply and subtract, in place on u[ub..ub+n]. */
  method MulSub(B: nat, u: array<nat>, ub: nat, v: array<nat>, vb: nat, n: nat, qhat: nat) returns (t: nat)
    requires B > 0 && u != v && ub + n < u.Length && vb + n <= v.Length
    modifies u
    ensures forall k :: 0 <= k < ub || ub + n < k < u.Length ==> u[k] == old(u[k])
    ensures (u[ub..ub + n + 1], t) == MulSubDigits(B, old(u[ub..ub + n + 1]), v[vb..vb + n], qhat)
  {
    ghost var a := u[ub..ub + n + 1];
    t := RippleInPlace(Subtracting(B, qhat), u, ub, v, vb, n);
    ghost var mid := u[ub..ub + n + 1];
    MulSubFrom(B, a, v[vb..vb + n], qhat, mid[1..], t);
    assert u[ub] == a[0];
    t := Wrap(u[ub] - t, B);
    u[ub] := LHalf(t, B);
    assert u[ub..ub + n + 1] == [u[ub]] + mid[1..];
  }

  lemma CarryStep(B: nat, x: nat)
    requires B >= 2 && x < 2 * B
    ensures var w := Wrap(x, B);
            LHalf(w, B) + HHalf(w, B) * B == x && HHalf(w, B) <= 1
  {
    SquareAbove(B);
    WrapSmall(x, B);
    if x / B > 1 {
      MulMonotone(2, x / B, B);
    }
  }

  lemma AddPlaces(B: nat, p: nat, p': nat, a: nat, b: nat, t: nat, d: nat, t': nat)
    requires p' == B * p && d + t' * B == a + b + t
    ensures d * p + t' * p' == a * p + b * p + t * p
  {
    calc {
      d * p + t' * (B * p);
      (d + t' * B) * p;
      (a + b + t) * p;
      a * p + b * p + t * p;
    }
  }

  /** One place of D6: the digit it leaves, and the carry into the next place. */
  function AddPlace(B: nat, a: nat, b: nat, t: nat): (nat, nat) {
    if B == 0 then (0, 0)
    else
      var w := Wrap(t + (a + b), B);
      (LHalf(w, B), HHalf(w, B))
  }

  function Adding(B: nat): (nat, nat, nat) -> (nat, nat) {
    (a, b, t) => AddPlace(B, a, b, t)
  }

  /** What the D6 loop does, as a function of the digits, with the carry that comes out. */
  function Carrying(B: nat, a: seq<nat>, v: seq<nat>): (r: (seq<nat>, nat))
    requires |a| == |v|
    ensures |r.0| == |a|
  {
    Ripple(Adding(B), a, v)
  }

  lemma CarryingUnfold(B: nat, a: seq<nat>, v: seq<nat>)
    requires |a| == |v| > 0
    ensures var low := Carrying(B, a[1..], v[1..]);
            var p := AddPlace(B, a[0], v[0], low.1);
            Carrying(B, a, v) == ([p.0] + low.0, p.1)
  {
  }

  lemma {:induction false} CarryingValue(B: nat, a: seq<nat>, v: seq<nat>)
    requires B >= 2 && |a| == |v| && Digits(a, B) && Digits(v, B)
    ensures var r := Carrying(B, a, v);
            && r.1 <= 1 && Digits(r.0, B)
            && Val(r.0, B) + r.1 * Pow(B, |a|) == Val(a, B) + Val(v, B)
  {
    if a != [] {
      CarryingValue(B, a[1..], v[1..]);
      CarryingUnfold(B, a, v);
      var low, r := Carrying(B, a[1..], v[1..]), Carrying(B, a, v);
      CarryStep(B, low.1 + (a[0] + v[0]));
      AddPlaces(B, Pow(B, |low.0|), Pow(B, |a|), a[0], v[0], low.1, r.0[0], r.1);
      assert [a[0]] + a[1..] == a && [v[0]] + v[1..] == v;
      ValCons(a[0], a[1..], B);
      ValCons(v[0], v[1..], B);
      ValCons(r.0[0], low.0, B);
    }
  }

  /** D6 as a function of the digits u[j..j+n] and v[1..n]. */
  function AddBackDigits(B: nat, a: seq<nat>, v: seq<nat>): (r: seq<nat>)
    requires B > 0 && |a| == |v| + 1
    ensures |r| == |a|
  {
    var low := Carrying(B, a[1..], v);
    [LHalf(Wrap(a[0] + low.1, B), B)] + low.0
  }

  /** D6 computes the exact sum up to the carry it drops, a multiple of B^(n+1). */
  lemma AddBackValue(B: nat, a: seq<nat>, v: seq<nat>) returns (carry: nat)
    requires B >= 2 && |a| == |v| + 1 && Digits(a, B) && Digits(v, B)
    ensures var s := AddBackDigits(B, a, v);
            Digits(s, B) && Val(s, B) + carry * Pow(B, |a|) == Val(a, B) + Val(v, B)
  {
    CarryingValue(B, a[1..], v);
    var low := Carrying(B, a[1..], v);
    var s, w := AddBackDigits(B, a, v), Wrap(a[0] + low.1, B);
    carry := HHalf(w, B);
    AddFinish(B, Pow(B, |v|), a[0], low.1, Val(low.0, B), Val(a[1..], B), Val(v, B));
    assert [a[0]] + a[1..] == a;
    ValCons(a[0], a[1..], B);
    assert s == [LHalf(w, B)] + low.0;
    ValCons(LHalf(w, B), low.0, B);
  }

  lemma AddFinish(B: nat, p: nat, top: nat, carry: nat, lowNew: int, lowOld: int, z: int)
    requires B >= 2 && top < B && carry <= 1
    requires lowNew + carry * p == lowOld + z
    ensures var w := Wrap(top + carry, B);
            LHalf(w, B) * p + lowNew + HHalf(w, B) * (B * p) == top * p + lowOld + z
  {
    CarryStep(B, top + carry);
    var w := Wrap(top + carry, B);
    AddPlaces(B, p, B * p, top, 0, carry, LHalf(w, B), HHalf(w, B));
  }

  /** D6: add back, in place on u[ub..ub+n]. */
  method AddBack(B: nat, u: array<nat>, ub: nat, v: array<nat>, vb: nat, n: nat)
    requires B > 0 && u != v && ub + n < u.Length && vb + n <= v.Length
    modifies u
    ensures forall k :: 0 <= k < ub || ub + n < k < u.Length ==> u[k] == old(u[k])
    ensures u[ub..ub + n + 1] == AddBackDigits(B, old(u[ub..ub + n + 1]), v[vb..vb + n])
  {
    var t := RippleInPlace(Adding(B), u, ub, v, vb, n);
    ghost var mid := u[ub..ub + n + 1];
    u[ub] := LHalf(Wrap(u[ub] + t, B), B);
    assert u[ub..ub + n + 1] == [u[ub]] + mid[1..];
  }

  // ------------------------------------------------------------------------
  // One quotient digit, and the loop over all of them
  // ------------------------------------------------------------------------

  /** A divisor of n >= 2 digits whose leading digit is at least B/2. */
  ghost predicate Normalised(B: nat, v: seq<nat>) {
    |v| >= 2 && Digits(v, B) && 2 * v[0] >= B
  }

  function Lead2(B: nat, s: seq<nat>): nat
    requires |s| >= 2
  {
    s[0] * B + s[1]
  }

  function Lead3(B: nat, s: seq<nat>): nat
    requires |s| >= 3
  {
    Lead2(B, s) * B + s[2]
  }

  lemma SplitLead2(B: nat, s: seq<nat>)
    requires B > 0 && |s| >= 2 && Digits(s, B)
    ensures Val(s, B) == Lead2(B, s) * Pow(B, |s| - 2) + Val(s[2..], B)
    ensures Val(s[2..], B) < Pow(B, |s| - 2)
  {
    assert s == s[..2] + s[2..];
    ValConcat(s[..2], s[2..], B);
    assert s[..2][..1] == s[..1] && s[..1][..0] == [];
    assert Val(s[..1], B) == s[0];
    ValBound(s[2..], B);
  }

  lemma SplitLead3(B: nat, s: seq<nat>)
    requires B > 0 && |s| >= 3 && Digits(s, B)
    ensures Val(s, B) == Lead3(B, s) * Pow(B, |s| - 3) + Val(s[3..], B)
    ensures Val(s[3..], B) < Pow(B, |s| - 3)
  {
    assert s == s[..3] + s[3..];
    ValConcat(s[..3], s[3..], B);
    SplitLead2(B, s[..3]);
    assert s[..3][2..] == [s[2]];
    ValCons(s[2], [], B);
    assert [s[2]] == [s[2]] + [];
    assert Pow(B, 1) == B * Pow(B, 0);
    ValBound(s[3..], B);
  }

  lemma LeadingDigit(B: nat, a: seq<nat>, v: seq<nat>)
    requires B > 0 && |a| == |v| + 1 && |v| >= 1 && Digits(a, B) && Digits(v, B)
    requires Val(a, B) < Val(v, B) * B
    ensures a[0] <= v[0]
  {
    assert [a[0]] + a[1..] == a && [v[0]] + v[1..] == v;
    ValCons(a[0], a[1..], B);
    ValCons(v[0], v[1..], B);
    ValBound(v[1..], B);
    LeadingCompareValues(B, Pow(B, |v| - 1), Pow(B, |v|), Val(a, B), Val(v, B),
                         a[0], v[0], Val(a[1..], B), Val(v[1..], B));
  }

  lemma LeadingCompareValues(B: nat, p: nat, p': nat, A: nat, V: nat, a: nat, v: nat, x: nat, y: nat)
    requires p' == B * p && A == a * p' + x && V == v * p + y && y < p && A < V * B
    ensures a <= v
  {
    LeadingCompare(B, p, a, v, x, y);
  }

  lemma LeadingCompare(B: nat, p: nat, a: nat, v: nat, x: nat, y: nat)
    requires y < p && a * (B * p) + x < (v * p + y) * B
    ensures a <= v
  {
    assert (v * p + y) * B == v * (B * p) + y * B;
    assert (v + 1) * (B * p) == v * (B * p) + B * p;
    if a > v {
      MulMonotone(v + 1, a, B * p);
      MulMonotone(y, p, B);
    }
  }

  /** The trial digit of D3 for the digits a = u[j..j+n] and the normalised v is right or one too big. */
  lemma TrialIsClose(B: nat, a: seq<nat>, v: seq<nat>, qhat: nat)
    requires B >= 2 && Normalised(B, v) && |a| == |v| + 1 && Digits(a, B)
    requires Val(a, B) < Val(v, B) * B
    requires CappedQuotient(B, Lead3(B, a), Lead2(B, v), qhat)
    ensures Val(v, B) > 0 && Val(a, B) / Val(v, B) <= qhat <= Val(a, B) / Val(v, B) + 1
  {
    LeadingDigit(B, a, v);
    SplitLead3(B, a);
    SplitLead2(B, v);
    PowPositive(B, |v| - 2);
    MulMonotone(1, v[0], B);
    CappedQuotientIs(B, Lead3(B, a), Lead2(B, v), qhat);
    TrialDigitBounds(B, Pow(B, |v| - 2), Lead3(B, a), Val(a[3..], B), Lead2(B, v), Val(v[2..], B));
  }

  /** D5: a borrow says that the digit was one too big; without one it was right. */
  lemma BorrowMeansOneTooBig(U: nat, V: nat, qhat: nat)
    requires V > 0 && U / V <= qhat <= U / V + 1
    ensures U < qhat * V <==> qhat == U / V + 1
    ensures qhat == U / V ==> U == qhat * V + U % V
    ensures qhat == U / V + 1 ==> U + V == qhat * V + U % V
  {
    assert U == U / V * V + U % V;
    assert (U / V + 1) * V == U / V * V + V;
  }

  /** After the one add-back, the carry it drops cancels the borrow. */
  lemma CarryCancelsBorrow(P: nat, W: nat, V: nat, R: nat, S: nat, carry: nat)
    requires R < V < P && S < P && W + V == R + P && S + carry * P == W + V
    ensures S == R
  {
    if carry == 0 {
    } else if carry > 1 {
      MulMonotone(2, carry, P);
    }
  }

  /**
   * One turn of the do-loop: D3 to D6 on u[ub..ub+n].  It returns the quotient
   * digit and leaves the remainder in place.
   */
  method QuotientDigit(B: nat, u: array<nat>, ub: nat, v: array<nat>, vb: nat, n: nat) returns (qhat: nat)
    requires B >= 2 && u != v && n >= 2 && ub + n < u.Length && vb + n <= v.Length
    requires Digits(u[ub..ub + n + 1], B) && Normalised(B, v[vb..vb + n])
    requires Val(u[ub..ub + n + 1], B) < Val(v[vb..vb + n], B) * B
    modifies u
    ensures forall k :: 0 <= k < ub || ub + n < k < u.Length ==> u[k] == old(u[k])
    ensures Val(v[vb..vb + n], B) > 0
    ensures qhat < B && qhat == old(Val(u[ub..ub + n + 1], B)) / Val(v[vb..vb + n], B)
    ensures Digits(u[ub..ub + n + 1], B)
    ensures Val(u[ub..ub + n + 1], B) == old(Val(u[ub..ub + n + 1], B)) % Val(v[vb..vb + n], B)
  {
    ghost var a, vs := u[ub..ub + n + 1], v[vb..vb + n];
    ghost var U, V := Val(a, B), Val(vs, B);
    LeadingDigit(B, a, vs);
    assert a[0] == u[ub] && a[1] == u[ub + 1] && a[2] == u[ub + 2];
    assert vs[0] == v[vb] && vs[1] == v[vb + 1];
    qhat := TrialDigit(B, u[ub], u[ub + 1], u[ub + 2], v[vb], v[vb + 1]);
    TrialIsClose(B, a, vs, qhat);
    BorrowMeansOneTooBig(U, V, qhat);
    MulSubValue(B, a, vs, qhat);
    var t := MulSub(B, u, ub, v, vb, n, qhat);
    if HHalf(t, B) != 0 {
      qhat := qhat - 1;
      ghost var b := u[ub..ub + n + 1];
      ghost var carry := AddBackValue(B, b, vs);
      AddBack(B, u, ub, v, vb, n);
      ghost var s := u[ub..ub + n + 1];
      ValBound(s, B);
      ValBelowNextPower(B, vs);
      CarryCancelsBorrow(Pow(B, n + 1), Val(b, B), V, U % V, Val(s, B), carry);
    }
  }

  lemma ValBelowNextPower(B: nat, v: seq<nat>)
    requires B >= 1 && Digits(v, B)
    ensures Val(v, B) < Pow(B, |v| + 1)
  {
    ValBound(v, B);
    PowMonotone(B, |v|, |v| + 1);
  }

  lemma ValSnoc(s: seq<nat>, d: nat, B: nat)
    ensures Val(s + [d], B) == Val(s, B) * B + d
  {
    assert (s + [d])[..|s|] == s;
  }

  /** The next partial dividend R * B + d stays below V * B. */
  lemma NextDividend(B: nat, R: nat, V: nat, d: nat)
    requires R < V && d < B
    ensures R * B + d < V * B
  {
    MulMonotone(R + 1, V, B);
    assert (R + 1) * B == R * B + B;
  }

  /** Long division, one more place: the quotient gains a digit, the remainder is replaced. */
  lemma NextPlace(B: nat, A: nat, Q: nat, V: nat, R: nat, d: nat)
    requires V > 0 && A == Q * V + R
    ensures A * B + d == (Q * B + (R * B + d) / V) * V + (R * B + d) % V
  {
    var U := R * B + d;
    assert U == U / V * V + U % V;
    assert (Q * B + U / V) * V == Q * V * B + U / V * V by {
      assert Q * B * V == Q * V * B;
    }
    assert A * B == Q * V * B + R * B;
  }

  /** A remainder below the n-digit divisor leaves the digit above it zero. */
  lemma RemainderFits(B: nat, s: seq<nat>, v: seq<nat>)
    requires B > 0 && |s| == |v| + 1 && Digits(s, B) && Digits(v, B) && Val(s, B) < Val(v, B)
    ensures s[0] == 0 && Val(s[1..], B) == Val(s, B)
  {
    ValBound(v, B);
    assert s == [s[0]] + s[1..];
    ValCons(s[0], s[1..], B);
    TopIsZero(s[0], Pow(B, |v|), Val(s[1..], B));
  }

  lemma TopIsZero(d: nat, P: nat, x: nat)
    requires d * P + x < P
    ensures d == 0
  {
    if d > 0 {
      MulMonotone(1, d, P);
    }
  }

  /**
   * Long division of a by v after j quotient digits qs: us are the digits of the
   * dividend's array, where zeros and the current remainder have replaced the
   * leading j + n digits.
   */
  ghost predicate Divided(B: nat, a: seq<nat>, us: seq<nat>, qs: seq<nat>, v: seq<nat>, j: nat) {
    && |us| == |a| && j + |v| <= |a| && |qs| == j
    && Digits(us, B) && Digits(qs, B)
    && (forall k :: 0 <= k < j ==> us[k] == 0)
    && us[j + |v|..] == a[j + |v|..]
    && Val(us[j..j + |v|], B) < Val(v, B)
    && Val(a[..j + |v|], B) == Val(qs, B) * Val(v, B) + Val(us[j..j + |v|], B)
  }

  /** The window the next digit is computed from satisfies the demands of D3. */
  lemma WindowReady(B: nat, a: seq<nat>, us: seq<nat>, qs: seq<nat>, v: seq<nat>, j: nat)
    requires Divided(B, a, us, qs, v, j) && j + |v| < |a|
    ensures Digits(us[j..j + |v| + 1], B)
    ensures Val(us[j..j + |v| + 1], B) == Val(us[j..j + |v|], B) * B + a[j + |v|]
    ensures Val(us[j..j + |v| + 1], B) < Val(v, B) * B
  {
    var d := us[j + |v|];
    assert d == us[j + |v|..][0] == a[j + |v|];
    assert us[j..j + |v| + 1] == us[j..j + |v|] + [d];
    ValSnoc(us[j..j + |v|], d, B);
    NextDividend(B, Val(us[j..j + |v|], B), Val(v, B), d);
  }

  lemma WindowDivided(B: nat, a: seq<nat>, us: seq<nat>, us': seq<nat>, qs: seq<nat>, v: seq<nat>, j: nat, qhat: nat)
    requires B > 0 && Digits(v, B) && Divided(B, a, us, qs, v, j) && j + |v| < |a| == |us'|
    requires forall p :: 0 <= p < j || j + |v| < p < |us| ==> us'[p] == us[p]
    requires var U, s := Val(us[j..j + |v| + 1], B), us'[j..j + |v| + 1];
             && qhat < B && qhat == U / Val(v, B)
             && Digits(s, B) && Val(s, B) == U % Val(v, B)
    ensures Divided(B, a, us', qs + [qhat], v, j + 1)
  {
    var s := us'[j..j + |v| + 1];
    WindowReady(B, a, us, qs, v, j);
    RemainderFits(B, s, v);
    assert us'[j + 1..j + 1 + |v|] == s[1..];
    assert us'[j + 1 + |v|..] == us[j + 1 + |v|..] == us[j + |v|..][1..] == a[j + |v|..][1..] == a[j + 1 + |v|..];
    assert us'[j] == s[0];
    assert forall p :: 0 <= p < |us'| ==> us'[p] == if j <= p <= j + |v| then s[p - j] else us[p];
    assert a[..j + 1 + |v|] == a[..j + |v|] + [a[j + |v|]];
    ValSnoc(a[..j + |v|], a[j + |v|], B);
    ValSnoc(qs, qhat, B);
    NextPlace(B, Val(a[..j + |v|], B), Val(qs, B), Val(v, B), Val(us[j..j + |v|], B), a[j + |v|]);
  }

  /**
   * The do-loop of `__qdivrem`: the digits u[ub..ub+m+n], divided by the
   * normalised v[vb..vb+n), give the quotient digits q[qb..qb+m]; the remainder
   * replaces the dividend.
   */
  method ProgramD(B: nat, u: array<nat>, ub: nat, v: array<nat>, vb: nat, q: array<nat>, qb: nat, m: nat, n: nat)
    requires B >= 2 && u != v && u != q && v != q && n >= 2
    requires ub + m + n < u.Length && vb + n <= v.Length && qb + m < q.Length
    requires Digits(u[ub..ub + m + n + 1], B) && Normalised(B, v[vb..vb + n])
    requires Val(u[ub..ub + n], B) < Val(v[vb..vb + n], B)
    modifies u, q
    ensures forall k :: 0 <= k < ub || ub + m + n < k < u.Length ==> u[k] == old(u[k])
    ensures forall k :: 0 <= k < qb || qb + m < k < q.Length ==> q[k] == old(q[k])
    ensures Divided(B, old(u[ub..ub + m + n + 1]), u[ub..ub + m + n + 1], q[qb..qb + m + 1], v[vb..vb + n], m + 1)
  {
    ghost var a, vs, qs: seq<nat> := u[ub..ub + m + n + 1], v[vb..vb + n], [];
    assert u[ub..ub + n] == a[..n];
    DividedStart(B, a, vs);
    var j := 0;
    while j <= m
      invariant 0 <= j <= m + 1 && |qs| == j
      invariant forall k :: 0 <= k < ub || ub + m + n < k < u.Length ==> u[k] == old(u[k])
      invariant forall k :: 0 <= k < qb || qb + m < k < q.Length ==> q[k] == old(q[k])
      invariant q[qb..qb + j] == qs
      invariant Divided(B, a, u[ub..ub + m + n + 1], qs, vs, j)
      decreases m + 1 - j
    {
      var qhat := DivideWindow(B, u, ub, v, vb, m, n, j, a, qs);
      q[qb + j] := qhat;
      assert q[qb..qb + j] == qs;
      assert q[qb..qb + j + 1] == q[qb..qb + j] + [q[qb + j]];
      qs := qs + [qhat];
      j := j + 1;
    }
  }

  lemma DividedStart(B: nat, a: seq<nat>, v: seq<nat>)
    requires Digits(a, B) && |v| <= |a| && Val(a[..|v|], B) < Val(v, B)
    ensures Divided(B, a, a, [], v, 0)
  {
    assert a[0..0 + |v|] == a[..0 + |v|];
  }

  lemma SliceOfSlice(s: seq<nat>, x: nat, y: nat, i: nat, k: nat)
    requires x <= y <= |s| && i <= k <= y - x
    ensures s[x..y][i..k] == s[x + i..x + k]
  {
    var l, r := s[x..y][i..k], s[x + i..x + k];
    assert |l| == |r|;
    assert forall p :: 0 <= p < |l| ==> l[p] == r[p];
  }

  lemma WindowReadyAt(B: nat, a: seq<nat>, all: seq<nat>, ub: nat, m: nat, qs: seq<nat>, v: seq<nat>, j: nat)
    requires j <= m && ub + m + |v| < |all| && |a| == m + |v| + 1
    requires Divided(B, a, all[ub..ub + m + |v| + 1], qs, v, j)
    ensures Digits(all[ub + j..ub + j + |v| + 1], B)
    ensures Val(all[ub + j..ub + j + |v| + 1], B) < Val(v, B) * B
  {
    WindowReady(B, a, all[ub..ub + m + |v| + 1], qs, v, j);
    SliceOfSlice(all, ub, ub + m + |v| + 1, j, j + |v| + 1);
  }

  /** The window of the array before and after, and what the step leaves alone. */
  lemma WindowSlices(all: seq<nat>, all': seq<nat>, x: nat, y: nat, j: nat, k: nat)
    requires x <= y <= |all| == |all'| && j <= k <= y - x
    requires forall p :: 0 <= p < x + j || x + k <= p < |all| ==> all'[p] == all[p]
    ensures all[x..y][j..k] == all[x + j..x + k] && all'[x..y][j..k] == all'[x + j..x + k]
    ensures forall p :: 0 <= p < j || k <= p < y - x ==> all'[x..y][p] == all[x..y][p]
  {
    SliceOfSlice(all, x, y, j, k);
    SliceOfSlice(all', x, y, j, k);
  }

  /** The body of the do-loop, seen from the digits of the whole dividend. */
  method DivideWindow(B: nat, u: array<nat>, ub: nat, v: array<nat>, vb: nat, m: nat, n: nat, j: nat,
                      ghost a: seq<nat>, ghost qs: seq<nat>) returns (qhat: nat)
    requires B >= 2 && u != v && n >= 2 && j <= m
    requires ub + m + n < u.Length && vb + n <= v.Length && |a| == m + n + 1
    requires Normalised(B, v[vb..vb + n])
    requires Divided(B, a, u[ub..ub + m + n + 1], qs, v[vb..vb + n], j)
    modifies u
    ensures forall k :: 0 <= k < ub || ub + m + n < k < u.Length ==> u[k] == old(u[k])
    ensures Divided(B, a, u[ub..ub + m + n + 1], qs + [qhat], v[vb..vb + n], j + 1)
  {
    ghost var all, vs := u[..], v[vb..vb + n];
    WindowReadyAt(B, a, all, ub, m, qs, vs, j);
    qhat := QuotientDigit(B, u, ub + j, v, vb, n);
    ghost var us, us' := all[ub..ub + m + n + 1], u[ub..ub + m + n + 1];
    WindowSlices(all, u[..], ub, ub + m + n + 1, j, j + n + 1);
    WindowDivided(B, a, us, us', qs, vs, j, qhat);
  }
}
