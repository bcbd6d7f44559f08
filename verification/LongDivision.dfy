/**
 * The outside of `__qdivrem`: splitting words into digits, the one-digit divisor,
 * normalisation by shifting, and putting the result together.  The digit width h
 * is a parameter, as in the header; h = 16 gives 64-bit division.
 */
module LongDivision {
  import opened Words
  import opened AlgorithmD

  // ------------------------------------------------------------------------
  // Shifting a digit string left and right by d bits, S = 2^d, T = 2^(h-d)
  // ------------------------------------------------------------------------

  /** Digit k of the string after a left shift: its own low bits and the next digit's high bits. */
  function ShlAt(B: nat, S: nat, T: nat, p: seq<nat>, k: nat): nat
    requires B > 0 && T > 0 && k < |p|
  {
    LHalf(Wrap(p[k] * S, B), B) + (if k + 1 < |p| then HHalf(p[k + 1], T) else 0)
  }

  /** Splitting a digit at the shift: high part e moves on, low part f stays. */
  lemma SplitDigit(B: nat, S: nat, T: nat, x: nat)
    requires S > 0 && T > 0 && S * T == B && x < B
    ensures HHalf(x, T) < S
    ensures LHalf(Wrap(x * S, B), B) == LHalf(x, T) * S
    ensures x * S == HHalf(x, T) * B + LHalf(x, T) * S
    ensures LHalf(x, T) * S <= B - S
  {
    var e, f := HHalf(x, T), LHalf(x, T);
    HalvesSum(x, T);
    if e >= S {
      MulMonotone(S, e, T);
    }
    MulMonotone(f + 1, T, S);
    SplitProduct(B, S, T, e, f, x);
    MulMonotone(e + 1, S, B);
    MulMonotone(S, B, B) by {
      MulMonotone(1, T, S);
    }
    WrapSmall(x * S, B);
    HalvesUnique(x * S, B, e, f * S);
  }

  lemma SplitProduct(B: nat, S: nat, T: nat, e: nat, f: nat, x: nat)
    requires S * T == B && x == e * T + f
    ensures x * S == e * B + f * S
    ensures (f + 1) * S == f * S + S && (e + 1) * B == e * B + B
  {
    calc {
      x * S;
      e * T * S + f * S;
      e * (S * T) + f * S;
    }
  }

  function ShlDigits(B: nat, S: nat, T: nat, p: seq<nat>): (r: seq<nat>)
    requires B > 0 && T > 0
    ensures |r| == |p|
  {
    seq(|p|, k requires 0 <= k < |p| => ShlAt(B, S, T, p, k))
  }

  /** What falls out on the left. */
  function ShlOut(T: nat, p: seq<nat>): nat
    requires T > 0
  {
    if p == [] then 0 else HHalf(p[0], T)
  }

  lemma ShlDigitsCons(B: nat, S: nat, T: nat, p: seq<nat>)
    requires B > 0 && T > 0 && p != []
    ensures ShlDigits(B, S, T, p) == [ShlAt(B, S, T, p, 0)] + ShlDigits(B, S, T, p[1..])
    ensures ShlAt(B, S, T, p, 0) == LHalf(Wrap(p[0] * S, B), B) + ShlOut(T, p[1..])
  {
    assert forall k :: 0 < k < |p| ==> ShlAt(B, S, T, p, k) == ShlAt(B, S, T, p[1..], k - 1);
  }

  lemma ShlPlaces(B: nat, P: nat, P': nat, S: nat, x: nat, e: nat, g: nat, out: nat,
                  rest: nat, restNew: nat, all: nat, allNew: nat)
    requires P' == B * P && x * S == e * B + g && restNew + out * P == rest * S
    requires all == x * P + rest && allNew == (g + out) * P + restNew
    ensures allNew + e * P' == all * S
  {
    calc {
      (x * P + rest) * S;
      x * S * P + rest * S;
      (e * B + g) * P + restNew + out * P;
      (g + out) * P + restNew + e * (B * P);
    }
  }

  lemma ShlStep(B: nat, S: nat, x: nat, e: nat, g: nat, out: nat, ps: seq<nat>, rs: seq<nat>)
    requires |ps| == |rs| && x * S == e * B + g && Val(rs, B) + out * Pow(B, |ps|) == Val(ps, B) * S
    ensures Val([g + out] + rs, B) + e * Pow(B, |ps| + 1) == Val([x] + ps, B) * S
  {
    ValCons(x, ps, B);
    ValCons(g + out, rs, B);
    ShlPlaces(B, Pow(B, |ps|), Pow(B, |ps| + 1), S, x, e, g, out, Val(ps, B), Val(rs, B),
              Val([x] + ps, B), Val([g + out] + rs, B));
  }

  lemma ShlDigitRange(B: nat, S: nat, T: nat, p: seq<nat>)
    requires S > 0 && T > 0 && S * T == B && B > 0 && Digits(p, B)
    ensures Digits(ShlDigits(B, S, T, p), B)
  {
    forall k | 0 <= k < |p|
      ensures ShlAt(B, S, T, p, k) < B
    {
      SplitDigit(B, S, T, p[k]);
      if k + 1 < |p| {
        SplitDigit(B, S, T, p[k + 1]);
      }
    }
  }

  /** Shifting left multiplies by 2^d, counting what falls out. */
  lemma {:induction false} ShlValue(B: nat, S: nat, T: nat, p: seq<nat>)
    requires S > 0 && T > 0 && S * T == B && B > 0 && Digits(p, B)
    ensures Val(ShlDigits(B, S, T, p), B) + ShlOut(T, p) * Pow(B, |p|) == Val(p, B) * S
  {
    if p != [] {
      ShlValue(B, S, T, p[1..]);
      ShlDigitsCons(B, S, T, p);
      SplitDigit(B, S, T, p[0]);
      ShlStep(B, S, p[0], HHalf(p[0], T), LHalf(Wrap(p[0] * S, B), B), ShlOut(T, p[1..]), p[1..],
              ShlDigits(B, S, T, p[1..]));
      assert p == [p[0]] + p[1..];
    }
  }

  /** shl(p, len, sh): shift p[off..off+len] left in place; it writes len + 1 digits. */
  method Shl(B: nat, p: array<nat>, off: nat, len: nat, S: nat, T: nat)
    requires B > 0 && T > 0 && off + len < p.Length
    modifies p
    ensures forall k :: 0 <= k < off || off + len < k < p.Length ==> p[k] == old(p[k])
    ensures p[off..off + len + 1] == ShlDigits(B, S, T, old(p[off..off + len + 1]))
  {
    ghost var s := p[off..off + len + 1];
    var i := 0;
    while i < len
      invariant 0 <= i <= len
      invariant forall k :: 0 <= k < off || off + i <= k < p.Length ==> p[k] == old(p[k])
      invariant forall k :: 0 <= k < i ==> p[off + k] == ShlAt(B, S, T, s, k)
    {
      p[off + i] := LHalf(Wrap(p[off + i] * S, B), B) + HHalf(p[off + i + 1], T);
      i := i + 1;
    }
    p[off + i] := LHalf(Wrap(p[off + i] * S, B), B);
    assert p[off..off + len + 1] == ShlDigits(B, S, T, s);
  }

  /** Digit k >= 1 of the string after a right shift: its own high bits and the previous digit's low bits. */
  function ShrAt(B: nat, S: nat, T: nat, p: seq<nat>, k: nat): nat
    requires B > 0 && S > 0 && 1 <= k < |p|
  {
    HHalf(p[k], S) + LHalf(Wrap(p[k - 1] * T, B), B)
  }

  function ShrDigits(B: nat, S: nat, T: nat, p: seq<nat>): (r: seq<nat>)
    requires B > 0 && S > 0 && p != []
    ensures |r| == |p| - 1
  {
    seq(|p| - 1, k requires 0 <= k < |p| - 1 => ShrAt(B, S, T, p, k + 1))
  }

  lemma ShrPlaces(B: nat, S: nat, T: nat, W: nat, V: nat, f: nat, x: nat, e: nat, g: nat)
    requires S * T == B && S * W + f == V && x == e * S + g
    ensures S * (W * B + (e + f * T)) + g == V * B + x
  {
    calc {
      S * (W * B + (e + f * T));
      S * W * B + S * e + f * (S * T);
      (S * W + f) * B + e * S;
    }
  }

  lemma ShrStep(B: nat, S: nat, T: nat, ws: seq<nat>, vs: seq<nat>, f: nat, x: nat, d: nat)
    requires S > 0 && S * T == B && d == HHalf(x, S) + f * T
    requires S * Val(ws, B) + f == Val(vs, B)
    ensures S * Val(ws + [d], B) + LHalf(x, S) == Val(vs + [x], B)
  {
    var e, g := HHalf(x, S), LHalf(x, S);
    HalvesSum(x, S);
    ValSnoc(ws, d, B);
    ValSnoc(vs, x, B);
    ShrPlaces(B, S, T, Val(ws, B), Val(vs, B), f, x, e, g);
  }

  lemma ShrDigitRange(B: nat, S: nat, T: nat, p: seq<nat>)
    requires S > 0 && T > 0 && S * T == B && B > 0 && Digits(p, B) && p != []
    ensures Digits(ShrDigits(B, S, T, p), B)
  {
    assert T * S == B;
    forall k | 1 <= k < |p|
      ensures ShrAt(B, S, T, p, k) < B
    {
      SplitDigit(B, T, S, p[k]);
      SplitDigit(B, T, S, p[k - 1]);
    }
  }

  lemma ShrAtIs(B: nat, S: nat, T: nat, p: seq<nat>, k: nat)
    requires S > 0 && T > 0 && S * T == B && B > 0 && Digits(p, B) && 1 <= k < |p|
    ensures ShrAt(B, S, T, p, k) == HHalf(p[k], S) + LHalf(p[k - 1], S) * T
  {
    assert T * S == B;
    SplitDigit(B, T, S, p[k - 1]);
  }

  lemma ShrDigitsSnoc(B: nat, S: nat, T: nat, p: seq<nat>)
    requires B > 0 && S > 0 && |p| > 1
    ensures ShrDigits(B, S, T, p) == ShrDigits(B, S, T, p[..|p| - 1]) + [ShrAt(B, S, T, p, |p| - 1)]
  {
  }

  /** Shifting right divides by 2^d when nothing enters from the left. */
  lemma {:induction false} ShrValue(B: nat, S: nat, T: nat, p: seq<nat>)
    requires S > 0 && T > 0 && S * T == B && B > 0 && Digits(p, B) && p != [] && p[0] == 0
    ensures S * Val(ShrDigits(B, S, T, p), B) + LHalf(p[|p| - 1], S) == Val(p[1..], B)
  {
    var n := |p| - 1;
    if n > 0 {
      ShrValue(B, S, T, p[..n]);
      ShrDigitsSnoc(B, S, T, p);
      ShrAtIs(B, S, T, p, n);
      ShrStep(B, S, T, ShrDigits(B, S, T, p[..n]), p[..n][1..], LHalf(p[n - 1], S), p[n], ShrAt(B, S, T, p, n));
      assert p[1..] == p[..n][1..] + [p[n]];
    }
  }

  /** The loop that un-normalises the remainder in place on u[lo..lo+n]. */
  method Shr(B: nat, u: array<nat>, lo: nat, n: nat, S: nat, T: nat)
    requires B > 0 && S > 0 && lo + n < u.Length
    modifies u
    ensures forall k :: 0 <= k < lo || lo + n < k < u.Length ==> u[k] == old(u[k])
    ensures u[lo] == 0 && u[lo + 1..lo + n + 1] == ShrDigits(B, S, T, old(u[lo..lo + n + 1]))
  {
    ghost var s := u[lo..lo + n + 1];
    var i := lo + n;
    while i > lo
      invariant lo <= i <= lo + n
      invariant forall k :: 0 <= k <= i || lo + n < k < u.Length ==> u[k] == old(u[k])
      invariant forall k :: i < k <= lo + n ==> u[k] == ShrAt(B, S, T, s, k - lo)
    {
      u[i] := HHalf(u[i], S) + LHalf(Wrap(u[i - 1] * T, B), B);
      i := i - 1;
    }
    u[i] := 0;
    assert u[lo + 1..lo + n + 1] == ShrDigits(B, S, T, s);
  }

  // ------------------------------------------------------------------------
  // Words to digits and back
  // ------------------------------------------------------------------------

  lemma PowFour(B: nat)
    ensures Pow(B, 1) == B && Pow(B, 2) == B * B && Pow(B, 4) == (B * B) * (B * B)
  {
    assert Pow(B, 1) == B * Pow(B, 0);
    assert Pow(B, 2) == B * Pow(B, 1);
    PowAdd(B, 2, 2);
  }

  lemma ValTwo(a: nat, b: nat, B: nat)
    ensures Val([a, b], B) == a * B + b
  {
    ValSnoc([], a, B);
    ValSnoc([a], b, B);
    assert [] + [a] == [a] && [a] + [b] == [a, b];
  }

  /** Four digits are two words, high word first. */
  lemma ValFour(a: nat, b: nat, c: nat, d: nat, B: nat)
    ensures Val([a, b, c, d], B) == (a * B + b) * (B * B) + (c * B + d)
  {
    assert [a, b, c, d] == [a, b] + [c, d];
    ValConcat([a, b], [c, d], B);
    ValTwo(a, b, B);
    ValTwo(c, d, B);
    PowFour(B);
  }

  lemma QuotientFits(x: nat, M: nat)
    requires M > 0 && x < M * M
    ensures HHalf(x, M) < M
  {
    HalvesAre(x, M);
    QuotientBound(x, M, M);
  }

  /** A word splits into its two digits. */
  lemma WordDigits(w: nat, B: nat)
    requires B > 0 && w < B * B
    ensures HHalf(w, B) < B && HHalf(w, B) * B + LHalf(w, B) == w
  {
    QuotientFits(w, B);
    HalvesSum(w, B);
  }

  /** The four digits of x, through the two words of the union. */
  function DigitsOf(B: nat, x: nat): (s: seq<nat>)
    requires B * B > 0
    ensures |s| == 4
  {
    var hi, lo := HHalf(x, B * B), LHalf(x, B * B);
    [HHalf(hi, B), LHalf(hi, B), HHalf(lo, B), LHalf(lo, B)]
  }

  lemma DigitsOfValue(B: nat, x: nat)
    requires B > 0 && x < Pow(B, 4)
    ensures B * B > 0
    ensures Digits(DigitsOf(B, x), B) && Val(DigitsOf(B, x), B) == x
  {
    PowFour(B);
    MulMonotone(1, B, B);
    var M := B * B;
    var hi, lo := HHalf(x, M), LHalf(x, M);
    QuotientFits(x, M);
    WordDigits(hi, B);
    WordDigits(lo, B);
    HalvesSum(x, M);
    ValFour(HHalf(hi, B), LHalf(hi, B), HHalf(lo, B), LHalf(lo, B), B);
  }

  /** The COMBINE macro. */
  function Combine(B: nat, a: nat, b: nat): nat
    requires B > 0
  {
    Wrap(a * B, B) + b
  }

  function Join(hi: nat, lo: nat, M: nat): nat {
    hi * M + lo
  }

  /** COMBINE four digits into the two words of the union. */
  function FromDigits(B: nat, a: nat, b: nat, c: nat, d: nat): nat
    requires B > 0
  {
    Join(Combine(B, a, b), Combine(B, c, d), B * B)
  }

  lemma FromDigitsValue(B: nat, s: seq<nat>)
    requires |s| == 4 && Digits(s, B)
    ensures B > 0 && FromDigits(B, s[0], s[1], s[2], s[3]) == Val(s, B)
  {
    assert s == [s[0], s[1], s[2], s[3]];
    ValFour(s[0], s[1], s[2], s[3], B);
    CombineFits(s[0], s[1], B);
    CombineFits(s[2], s[3], B);
  }

  method LoadDigits(B: nat, x: nat, a: array<nat>)
    requires B > 0 && x < Pow(B, 4) && a.Length == 5
    modifies a
    ensures a[0] == old(a[0])
    ensures Digits(a[1..5], B) && Val(a[1..5], B) == x
  {
    DigitsOfValue(B, x);
    var s := DigitsOf(B, x);
    a[1], a[2], a[3], a[4] := s[0], s[1], s[2], s[3];
    assert a[1..5] == s;
  }

  method StoreDigits(B: nat, a: array<nat>) returns (x: nat)
    requires B > 0 && a.Length == 5 && Digits(a[1..5], B)
    ensures x == Val(a[1..5], B)
  {
    FromDigitsValue(B, a[1..5]);
    x := FromDigits(B, a[1], a[2], a[3], a[4]);
  }

  // ------------------------------------------------------------------------
  // The one-digit divisor (exercise 16)
  // ------------------------------------------------------------------------

  /** q and r are quotient and remainder of A by V. */
  ghost predicate IsDivision(A: nat, V: nat, q: nat, r: nat) {
    A == q * V + r && r < V
  }

  /** The digits qs are the quotient of the digits us by t, and r is the remainder. */
  ghost predicate Quotes(B: nat, us: seq<nat>, qs: seq<nat>, t: nat, r: nat) {
    |us| == |qs| && Digits(qs, B) && r < t && Val(us, B) == Val(qs, B) * t + r
  }

  /** One unrolled step: the next quotient digit (r * B + d) / t and the new remainder. */
  method ShortStep(B: nat, r: nat, d: nat, t: nat, ghost us: seq<nat>, ghost qs: seq<nat>) returns (q: nat, r': nat)
    requires t < B && d < B && Quotes(B, us, qs, t, r)
    ensures Quotes(B, us + [d], qs + [q], t, r')
  {
    CombineFits(r, d, B);
    EstimateBelowBase(r, d, t, B);
    var rbj := Wrap(r * B, B) + d;
    q, r' := HHalf(rbj, t), LHalf(rbj, t);
    HalvesAre(rbj, t);
    NextPlace(B, Val(us, B), Val(qs, B), t, r, d);
    ValSnoc(us, d, B);
    ValSnoc(qs, q, B);
  }

  method ShortDivide(B: nat, u: array<nat>, t: nat) returns (q: nat, r: nat)
    requires 0 < t < B && u.Length == 5 && Digits(u[1..5], B)
    ensures IsDivision(Val(u[1..5], B), t, q, r)
  {
    ghost var all := u[1..5];
    assert all[0] == u[1] && all[1] == u[2] && all[2] == u[3] && all[3] == u[4];
    var q1, q2, q3, q4;
    ghost var us: seq<nat>, qs: seq<nat> := [], [];
    q1, r := ShortStep(B, 0, u[1], t, us, qs);
    us, qs := us + [u[1]], qs + [q1];
    q2, r := ShortStep(B, r, u[2], t, us, qs);
    us, qs := us + [u[2]], qs + [q2];
    q3, r := ShortStep(B, r, u[3], t, us, qs);
    us, qs := us + [u[3]], qs + [q3];
    q4, r := ShortStep(B, r, u[4], t, us, qs);
    us, qs := us + [u[4]], qs + [q4];
    assert us == all;
    FromDigitsValue(B, qs);
    q := FromDigits(B, q1, q2, q3, q4);
  }

  // ------------------------------------------------------------------------
  // D1: normalisation
  // ------------------------------------------------------------------------

  lemma PowSplit(h: nat, d: nat)
    requires d <= h
    ensures Pow(2, d) > 0 && Pow(2, h - d) > 0 && Pow(2, d) * Pow(2, h - d) == Pow(2, h)
  {
    PowPositive(2, d);
    PowPositive(2, h - d);
    PowAdd(2, d, h - d);
  }

  /** x << d in a word wide enough. */
  ghost function ShiftLeft(x: nat, d: nat): nat {
    if d == 0 then x else 2 * ShiftLeft(x, d - 1)
  }

  lemma {:induction false} ShiftLeftIs(x: nat, d: nat)
    ensures ShiftLeft(x, d) == x * Pow(2, d)
  {
    if d > 0 {
      ShiftLeftIs(x, d - 1);
      Doubled(x, Pow(2, d - 1));
    }
  }

  lemma Doubled(x: int, p: int)
    ensures x * (2 * p) == 2 * (x * p)
  {
  }

  lemma {:induction false} ShiftAtLeast(x: nat, d: nat)
    requires x > 0
    ensures ShiftLeft(x, d) >= Pow(2, d)
  {
    if d > 0 {
      ShiftAtLeast(x, d - 1);
    }
  }

  /** Shifted by d, the leading divisor digit is a digit still, and at least B/2. */
  ghost predicate DivisorShift(h: nat, d: nat, v1: nat) {
    ShiftLeft(v1, d) < Pow(2, h) <= 2 * ShiftLeft(v1, d)
  }

  /** The loop that counts how far the leading divisor digit must be shifted. */
  method CountShift(h: nat, v1: nat) returns (d: nat)
    requires h >= 1 && 0 < v1 < Pow(2, h)
    ensures d < h && DivisorShift(h, d, v1)
  {
    var B := Pow(2, h);
    assert B == 2 * Pow(2, h - 1);
    d := 0;
    var t := v1;
    while t < B / 2
      invariant t == ShiftLeft(v1, d) && 0 < t < B
      invariant d < h
      decreases B - t
    {
      ShiftAtLeast(v1, d + 1);
      t := t * 2;
      d := d + 1;
    }
  }

  /** The leading digits of a dividend below B^(m+n), shifted by d < h bits, stay below the shifted divisor. */
  lemma LeadingBelow(B: nat, S: nat, w: seq<nat>, x: seq<nat>, V: nat, A: nat, k: nat)
    requires B > 0 && S > 0 && A * S == Val(w + x, B) && A < Pow(B, k + |x|) && V >= Pow(B, k)
    ensures Val(w, B) < V * S
  {
    ValConcat(w, x, B);
    PowAdd(B, k, |x|);
    PowPositive(B, |x|);
    if Val(w, B) >= V * S {
      LeadingAbove(Pow(B, k), Pow(B, |x|), S, Val(w, B), V, A);
    }
  }

  lemma LeadingAbove(P: nat, Q: nat, S: nat, w: nat, V: nat, A: nat)
    requires Q > 0 && S > 0 && w >= V * S && V >= P && A < P * Q
    ensures w * Q > A * S
  {
    MulMonotone(V * S, w, Q);
    MulMonotone(P, V, S * Q);
    MulStrict(A, P * Q, S);
    assert V * S * Q == V * (S * Q);
    assert P * Q * S == P * (S * Q);
  }

  /** Shifting by d bits scales a digit string by 2^d when its leading digit has room. */
  lemma ShlExact(h: nat, d: nat, p: seq<nat>)
    requires 0 < d < h && p != [] && Digits(p, Pow(2, h)) && ShiftLeft(p[0], d) < Pow(2, h)
    ensures var B, S, T := Pow(2, h), Pow(2, d), Pow(2, h - d);
            && T > 0 && B > 0
            && Digits(ShlDigits(B, S, T, p), B)
            && Val(ShlDigits(B, S, T, p), B) == ShiftLeft(Val(p, B), d)
            && ShlDigits(B, S, T, p)[0] >= ShiftLeft(p[0], d)
  {
    ShiftLeftIs(p[0], d);
    ShiftLeftIs(Val(p, Pow(2, h)), d);
    ShlScales(h, d, p);
  }

  lemma ShlScales(h: nat, d: nat, p: seq<nat>)
    requires 0 < d < h && p != [] && Digits(p, Pow(2, h)) && p[0] * Pow(2, d) < Pow(2, h)
    ensures var B, S, T := Pow(2, h), Pow(2, d), Pow(2, h - d);
            && T > 0 && B > 0
            && Digits(ShlDigits(B, S, T, p), B)
            && Val(ShlDigits(B, S, T, p), B) == Val(p, B) * S
            && ShlDigits(B, S, T, p)[0] >= p[0] * S
  {
    PowSplit(h, d);
    var B, S, T := Pow(2, h), Pow(2, d), Pow(2, h - d);
    PowPositive(2, h);
    ShlValue(B, S, T, p);
    ShlDigitRange(B, S, T, p);
    SplitDigit(B, S, T, p[0]);
    if HHalf(p[0], T) > 0 {
      MulMonotone(1, HHalf(p[0], T), B);
    }
  }

  /** D1: bring the leading divisor digit to at least B/2 by scaling dividend and divisor by 2^d. */
  method Normalise(h: nat, u: array<nat>, ub: nat, v: array<nat>, vb: nat, m: nat, n: nat) returns (d: nat)
    requires h >= 1 && u != v && n >= 2 && ub + m + n < u.Length && vb + n <= v.Length
    requires Digits(u[ub..ub + m + n + 1], Pow(2, h)) && u[ub] == 0
    requires Digits(v[vb..vb + n], Pow(2, h)) && v[vb] > 0
    modifies u, v
    ensures d < h
    ensures forall k :: 0 <= k < ub || ub + m + n < k < u.Length ==> u[k] == old(u[k])
    ensures Digits(u[ub..ub + m + n + 1], Pow(2, h))
    ensures Val(u[ub..ub + m + n + 1], Pow(2, h)) == ShiftLeft(old(Val(u[ub..ub + m + n + 1], Pow(2, h))), d)
    ensures Normalised(Pow(2, h), v[vb..vb + n])
    ensures Val(v[vb..vb + n], Pow(2, h)) == ShiftLeft(old(Val(v[vb..vb + n], Pow(2, h))), d)
  {
    assert v[vb] == v[vb..vb + n][0];
    d := CountShift(h, v[vb]);
    if d > 0 {
      PowSplit(h, d);
      PowPositive(2, h);
      ShiftDividend(h, d, u, ub, m + n);
      ShiftDivisor(h, d, v, vb, n);
    }
  }

  /** The shl of the dividend: its leading digit is zero, so nothing is lost. */
  method ShiftDividend(h: nat, d: nat, u: array<nat>, ub: nat, len: nat)
    requires 0 < d < h && ub + len < u.Length && Digits(u[ub..ub + len + 1], Pow(2, h)) && u[ub] == 0
    modifies u
    ensures forall k :: 0 <= k < ub || ub + len < k < u.Length ==> u[k] == old(u[k])
    ensures Digits(u[ub..ub + len + 1], Pow(2, h))
    ensures Val(u[ub..ub + len + 1], Pow(2, h)) == ShiftLeft(old(Val(u[ub..ub + len + 1], Pow(2, h))), d)
  {
    PowSplit(h, d);
    PowPositive(2, h);
    ghost var a := u[ub..ub + len + 1];
    assert a[0] == 0;
    ShiftLeftIs(0, d);
    ShlExact(h, d, a);
    Shl(Pow(2, h), u, ub, len, Pow(2, d), Pow(2, h - d));
  }

  /** The shl of the divisor, whose leading digit then reaches B/2. */
  method ShiftDivisor(h: nat, d: nat, v: array<nat>, vb: nat, n: nat)
    requires 0 < d < h && n >= 2 && vb + n <= v.Length && Digits(v[vb..vb + n], Pow(2, h))
    requires DivisorShift(h, d, v[vb])
    modifies v
    ensures Normalised(Pow(2, h), v[vb..vb + n])
    ensures Val(v[vb..vb + n], Pow(2, h)) == ShiftLeft(old(Val(v[vb..vb + n], Pow(2, h))), d)
  {
    PowSplit(h, d);
    PowPositive(2, h);
    ghost var b := v[vb..vb + n];
    assert b[0] == v[vb];
    ShlExact(h, d, b);
    Shl(Pow(2, h), v, vb, n - 1, Pow(2, d), Pow(2, h - d));
    assert v[vb..vb + n] == ShlDigits(Pow(2, h), Pow(2, d), Pow(2, h - d), b);
  }

  // ------------------------------------------------------------------------
  // The whole of __qdivrem
  // ------------------------------------------------------------------------

  /** Division scaled by S on both sides: the quotient is unchanged, the remainder scaled. */
  lemma ScaledDivision(A: nat, V: nat, S: nat, Q: nat, R: nat) returns (r: nat)
    requires S > 0 && A * S == Q * (V * S) + R && R < V * S
    ensures IsDivision(A, V, Q, r) && R == r * S
  {
    var d := A - Q * V;
    assert R == d * S by {
      assert (A - Q * V) * S == A * S - Q * V * S;
      assert Q * (V * S) == Q * V * S;
    }
    if d < 0 {
      MulMonotone(d, -1, S);
    }
    if d >= V {
      MulMonotone(V, d, S);
    }
    r := d;
  }

  lemma ShiftedDivision(A: nat, V: nat, d: nat, Q: nat, R: nat) returns (r: nat)
    requires ShiftLeft(A, d) == Q * ShiftLeft(V, d) + R && R < ShiftLeft(V, d)
    ensures IsDivision(A, V, Q, r) && R == ShiftLeft(r, d)
  {
    ShiftLeftIs(A, d);
    ShiftLeftIs(V, d);
    PowPositive(2, d);
    r := ScaledDivision(A, V, Pow(2, d), Q, R);
    ShiftLeftIs(r, d);
  }

  datatype DivResult = DivideByZero | Quotient(quot: nat, rem: nat)

  lemma NonzeroLead(B: nat, s: seq<nat>)
    requires B > 0 && s != [] && s[0] > 0
    ensures Val(s, B) >= Pow(B, |s| - 1)
  {
    assert s == [s[0]] + s[1..];
    ValCons(s[0], s[1..], B);
    MulMonotone(1, s[0], Pow(B, |s| - 1));
  }

  lemma ZeroLead(B: nat, s: seq<nat>)
    requires B > 0 && s != [] && s[0] == 0 && Digits(s, B)
    ensures Val(s, B) == Val(s[1..], B) < Pow(B, |s| - 1)
  {
    assert s == [s[0]] + s[1..];
    ValCons(s[0], s[1..], B);
    ValBound(s[1..], B);
  }

  /** The leading digits of the shifted dividend are below the shifted divisor. */
  lemma ShiftedBelow(B: nat, d: nat, w: seq<nat>, x: seq<nat>, V: nat, A: nat, k: nat)
    requires B > 0 && ShiftLeft(A, d) == Val(w + x, B) && A < Pow(B, k + |x|) && V >= Pow(B, k)
    ensures Val(w, B) < ShiftLeft(V, d)
  {
    ShiftLeftIs(A, d);
    ShiftLeftIs(V, d);
    PowPositive(2, d);
    LeadingBelow(B, Pow(2, d), w, x, V, A, k);
  }

  lemma LeadingBounds(B: nat, a: seq<nat>, b: seq<nat>, n: nat)
    requires B > 0 && b != [] && |a| == |b| + n && a[0] == 0 && Digits(a, B) && b[0] > 0
    ensures Val(a, B) < Pow(B, |b| - 1 + n) && Val(b, B) >= Pow(B, |b| - 1)
  {
    ZeroLead(B, a);
    NonzeroLead(B, b);
  }

  /** Shifting the remainder back: nothing is lost, since it is a multiple of 2^d. */
  lemma ShrExact(h: nat, d: nat, p: seq<nat>, r: nat)
    requires 0 < d < h && p != [] && Digits(p, Pow(2, h)) && p[0] == 0 && Val(p[1..], Pow(2, h)) == ShiftLeft(r, d)
    ensures var B, S, T := Pow(2, h), Pow(2, d), Pow(2, h - d);
            && S > 0 && B > 0
            && Digits(ShrDigits(B, S, T, p), B)
            && Val(ShrDigits(B, S, T, p), B) == r
  {
    PowSplit(h, d);
    PowPositive(2, h);
    var B, S, T := Pow(2, h), Pow(2, d), Pow(2, h - d);
    ShrValue(B, S, T, p);
    ShrDigitRange(B, S, T, p);
    ShiftLeftIs(r, d);
    SameMultiple(r, Val(ShrDigits(B, S, T, p), B), S, LHalf(p[|p| - 1], S));
  }

  lemma SameMultiple(r: nat, x: nat, S: nat, low: nat)
    requires low < S && S * x + low == r * S
    ensures x == r
  {
    if x < r {
      MulMonotone(x + 1, r, S);
    } else if x > r {
      MulMonotone(r + 1, x, S);
    }
  }

  /** D8: shift the remainder r * 2^d in u[lo+1..lo+n] back, in place. */
  method Unnormalise(h: nat, d: nat, u: array<nat>, lo: nat, n: nat, ghost r: nat)
    requires d < h && lo + n < u.Length && u[lo] == 0
    requires Digits(u[lo..lo + n + 1], Pow(2, h))
    requires Val(u[lo + 1..lo + n + 1], Pow(2, h)) == ShiftLeft(r, d)
    modifies u
    ensures forall k :: 0 <= k < lo || lo + n < k < u.Length ==> u[k] == old(u[k])
    ensures u[lo] == 0 && Digits(u[lo + 1..lo + n + 1], Pow(2, h))
    ensures Val(u[lo + 1..lo + n + 1], Pow(2, h)) == r
  {
    ghost var p := u[lo..lo + n + 1];
    assert u[lo + 1..lo + n + 1] == p[1..];
    if d > 0 {
      PowSplit(h, d);
      PowPositive(2, h);
      ShrExact(h, d, p, r);
      Shr(Pow(2, h), u, lo, n, Pow(2, d), Pow(2, h - d));
    }
  }

  /**
   * D1 to D8 on the digits u[ub..ub+m+n] (leading digit zero) and v[vb..vb+n):
   * quotient digits in q[qb..qb+m], remainder digits in the low end of u.
   */
  method LongDivide(h: nat, u: array<nat>, ub: nat, v: array<nat>, vb: nat, q: array<nat>, qb: nat, m: nat, n: nat)
    requires h >= 1 && u != v && u != q && v != q && n >= 2
    requires ub + m + n < u.Length && vb + n <= v.Length && qb + m < q.Length
    requires Digits(u[ub..ub + m + n + 1], Pow(2, h)) && u[ub] == 0
    requires Digits(v[vb..vb + n], Pow(2, h)) && v[vb] > 0
    modifies u, v, q
    ensures forall k :: 0 <= k < ub || ub + m + n < k < u.Length ==> u[k] == old(u[k])
    ensures forall k :: 0 <= k < qb || qb + m < k < q.Length ==> q[k] == old(q[k])
    ensures forall k :: ub <= k <= ub + m ==> u[k] == 0
    ensures Digits(q[qb..qb + m + 1], Pow(2, h)) && Digits(u[ub + m + 1..ub + m + n + 1], Pow(2, h))
    ensures var A, V := old(Val(u[ub..ub + m + n + 1], Pow(2, h))), old(Val(v[vb..vb + n], Pow(2, h)));
            IsDivision(A, V, Val(q[qb..qb + m + 1], Pow(2, h)), Val(u[ub + m + 1..ub + m + n + 1], Pow(2, h)))
  {
    var B := Pow(2, h);
    ghost var a, b := u[ub..ub + m + n + 1], v[vb..vb + n];
    var d := Prepare(h, u, ub, v, vb, m, n);
    ghost var us := u[ub..ub + m + n + 1];
    ProgramD(B, u, ub, v, vb, q, qb, m, n);
    FinishLongDivide(h, d, u, ub, m, n, a, b, us, v[vb..vb + n], q[qb..qb + m + 1]);
  }

  /** D1, and why the quotient loop may start: the leading digits of the scaled dividend are below the divisor. */
  method Prepare(h: nat, u: array<nat>, ub: nat, v: array<nat>, vb: nat, m: nat, n: nat) returns (d: nat)
    requires h >= 1 && u != v && n >= 2 && ub + m + n < u.Length && vb + n <= v.Length
    requires Digits(u[ub..ub + m + n + 1], Pow(2, h)) && u[ub] == 0
    requires Digits(v[vb..vb + n], Pow(2, h)) && v[vb] > 0
    modifies u, v
    ensures d < h && Pow(2, h) >= 2 && old(Val(v[vb..vb + n], Pow(2, h))) > 0
    ensures forall k :: 0 <= k < ub || ub + m + n < k < u.Length ==> u[k] == old(u[k])
    ensures Digits(u[ub..ub + m + n + 1], Pow(2, h)) && Normalised(Pow(2, h), v[vb..vb + n])
    ensures Val(u[ub..ub + m + n + 1], Pow(2, h)) == ShiftLeft(old(Val(u[ub..ub + m + n + 1], Pow(2, h))), d)
    ensures Val(v[vb..vb + n], Pow(2, h)) == ShiftLeft(old(Val(v[vb..vb + n], Pow(2, h))), d)
    ensures Val(u[ub..ub + n], Pow(2, h)) < Val(v[vb..vb + n], Pow(2, h))
  {
    var B := Pow(2, h);
    ghost var a, b := u[ub..ub + m + n + 1], v[vb..vb + n];
    PowPositive(2, h - 1);
    NonzeroLead(B, b);
    PowPositive(B, n - 1);
    d := Normalise(h, u, ub, v, vb, m, n);
    ghost var us := u[ub..ub + m + n + 1];
    assert us == us[..n] + us[n..] && u[ub..ub + n] == us[..n];
    LeadingBounds(B, a, b, m + 1);
    ShiftedBelow(B, d, us[..n], us[n..], Val(b, B), Val(a, B), n - 1);
  }

  /** After the quotient loop: read the quotient off and restore the remainder's scale. */
  method FinishLongDivide(h: nat, d: nat, u: array<nat>, ub: nat, m: nat, n: nat,
                          ghost a: seq<nat>, ghost b: seq<nat>, ghost us: seq<nat>, ghost vs: seq<nat>,
                          ghost qs: seq<nat>)
    requires d < h && n >= 1 && ub + m + n < u.Length && |a| == |us| == m + n + 1 && |b| == |vs| == n
    requires Val(b, Pow(2, h)) > 0
    requires Val(us, Pow(2, h)) == ShiftLeft(Val(a, Pow(2, h)), d)
    requires Val(vs, Pow(2, h)) == ShiftLeft(Val(b, Pow(2, h)), d)
    requires Divided(Pow(2, h), us, u[ub..ub + m + n + 1], qs, vs, m + 1)
    modifies u
    ensures forall k :: 0 <= k < ub || ub + m + n < k < u.Length ==> u[k] == old(u[k])
    ensures forall k :: ub <= k <= ub + m ==> u[k] == 0
    ensures Digits(u[ub + m + 1..ub + m + n + 1], Pow(2, h))
    ensures IsDivision(Val(a, Pow(2, h)), Val(b, Pow(2, h)), Val(qs, Pow(2, h)),
                       Val(u[ub + m + 1..ub + m + n + 1], Pow(2, h)))
  {
    ghost var B := Pow(2, h);
    ghost var w := u[ub..ub + m + n + 1];
    assert us[..m + 1 + n] == us;
    ghost var r := ShiftedDivision(Val(a, B), Val(b, B), d, Val(qs, B), Val(w[m + 1..m + 1 + n], B));
    assert forall k :: ub <= k <= ub + m ==> u[k] == w[k - ub];
    assert u[ub + m + 1..ub + m + n + 1] == w[m + 1..m + 1 + n];
    assert Digits(u[ub + m..ub + m + n + 1], B) by {
      assert u[ub + m..ub + m + n + 1] == w[m..];
    }
    Unnormalise(h, d, u, ub + m, n, r);
  }

  /** Leading zeros do not count. */
  lemma LeadingZeros(s: seq<nat>, k: nat, B: nat)
    requires k <= |s| && forall i :: 0 <= i < k ==> s[i] == 0
    ensures Val(s, B) == Val(s[k..], B)
  {
    assert s == s[..k] + s[k..];
    ValConcat(s[..k], s[k..], B);
    ValZeros(s[..k], B);
  }

  /** A four-digit number with k leading zeros is below B^(4-k). */
  lemma FourDigitBound(s: seq<nat>, k: nat, B: nat)
    requires B > 0 && k <= |s| && Digits(s, B) && forall i :: 0 <= i < k ==> s[i] == 0
    ensures Val(s, B) < Pow(B, |s| - k)
  {
    LeadingZeros(s, k, B);
    ValBound(s[k..], B);
  }

  /** If the dividend is at least the divisor, it has at least as many significant digits. */
  lemma EnoughDigits(us: seq<nat>, vs: seq<nat>, k: nat, n: nat, B: nat)
    requires B > 0 && |us| == |vs| && k <= |us| && 1 <= n <= |vs| && Digits(us, B) && Digits(vs, B)
    requires forall i :: 0 <= i < k ==> us[i] == 0
    requires forall i :: 0 <= i < |vs| - n ==> vs[i] == 0
    requires vs[|vs| - n] > 0 && Val(us, B) >= Val(vs, B)
    ensures k + n <= |us|
  {
    FourDigitBound(us, k, B);
    SignificantDigits(vs, n, B);
    PowCompare(B, |us| - k, n - 1, Val(us, B), Val(vs, B));
  }

  lemma SignificantDigits(vs: seq<nat>, n: nat, B: nat)
    requires B > 0 && 1 <= n <= |vs| && vs[|vs| - n] > 0
    requires forall i :: 0 <= i < |vs| - n ==> vs[i] == 0
    ensures Val(vs, B) >= Pow(B, n - 1)
  {
    var t := vs[|vs| - n..];
    LeadingZeros(vs, |vs| - n, B);
    NonzeroLead(B, t);
  }

  lemma PowCompare(B: nat, x: nat, y: nat, A: nat, V: nat)
    requires B > 0 && A < Pow(B, x) && Pow(B, y) <= V <= A
    ensures x > y
  {
    if x <= y {
      PowMonotone(B, x, y);
    }
  }

  /** The loop that finds the dividend's leading digit; m + 1 is the number of quotient digits. */
  method StripDividend(B: nat, u: array<nat>, n: nat, ghost vs: seq<nat>) returns (m: nat, ub: nat)
    requires B > 0 && u.Length == 5 && u[0] == 0 && |vs| == 4 && 1 <= n <= 4
    requires Digits(u[1..5], B) && Digits(vs, B)
    requires forall i :: 0 <= i < 4 - n ==> vs[i] == 0
    requires vs[4 - n] > 0 && Val(u[1..5], B) >= Val(vs, B)
    ensures ub + m + n == 4
    ensures forall i :: 0 <= i <= ub ==> u[i] == 0
  {
    m, ub := 4 - n, 0;
    while u[ub + 1] == 0
      invariant ub + m + n == 4
      invariant forall i :: 0 <= i <= ub ==> u[i] == 0
      decreases m
    {
      assert forall i :: 0 <= i < ub + 1 ==> u[1..5][i] == u[i + 1];
      EnoughDigits(u[1..5], vs, ub + 1, n, B);
      ub := ub + 1;
      m := m - 1;
    }
  }

  /** Both operands in digits, divisor of at least two digits: strip, clear the leading quotient digits, divide. */
  method DivideDigits(h: nat, u: array<nat>, v: array<nat>, n: nat) returns (quot: nat, rem: nat)
    requires h >= 1 && u.Length == 5 && v.Length == 5 && u != v && u[0] == 0 && 2 <= n <= 4
    requires Digits(u[1..5], Pow(2, h)) && Digits(v[1..5], Pow(2, h))
    requires forall i :: 1 <= i <= 4 - n ==> v[i] == 0
    requires v[5 - n] > 0 && Val(u[1..5], Pow(2, h)) >= Val(v[1..5], Pow(2, h))
    modifies u, v
    ensures IsDivision(old(Val(u[1..5], Pow(2, h))), old(Val(v[1..5], Pow(2, h))), quot, rem)
  {
    var B := Pow(2, h);
    PowPositive(2, h);
    ghost var s, t := u[..], v[..];
    assert u[..5] == s && v[..5] == t;
    var m, ub := StripDividend(B, u, n, t[1..]);
    StrippedFacts(B, s, t, ub, n);
    assert u[..5] == s && v[..5] == t;
    quot, rem := DivideStripped(h, u, ub, v, m, n);
  }

  lemma StrippedFacts(B: nat, s: seq<nat>, t: seq<nat>, ub: nat, n: nat)
    requires B > 0 && |s| == |t| == 5 && ub <= 4 && 1 <= n <= 4 && Digits(s[1..], B) && Digits(t[1..], B)
    requires forall i :: 0 <= i <= ub ==> s[i] == 0
    requires forall i :: 1 <= i <= 4 - n ==> t[i] == 0
    ensures Digits(s[ub..], B) && Val(s[ub..], B) == Val(s[1..], B)
    ensures Digits(t[5 - n..], B) && Val(t[5 - n..], B) == Val(t[1..], B)
  {
    SameValue(B, s, ub);
    LeadingZeros(t[1..], 4 - n, B);
    assert t[1..][4 - n..] == t[5 - n..];
    assert forall i :: 1 <= i < 5 ==> s[i] == s[1..][i - 1] && t[i] == t[1..][i - 1];
  }

  /** The same once the leading digits are known: dividend u[ub..4] with u[ub] zero, divisor v[5-n..4]. */
  method DivideStripped(h: nat, u: array<nat>, ub: nat, v: array<nat>, m: nat, n: nat) returns (quot: nat, rem: nat)
    requires h >= 1 && u.Length == 5 && v.Length == 5 && u != v && 2 <= n && ub + m + n == 4
    requires forall i :: 0 <= i <= ub ==> u[i] == 0
    requires Digits(u[ub..5], Pow(2, h)) && Digits(v[5 - n..5], Pow(2, h)) && v[5 - n] > 0
    modifies u, v
    ensures IsDivision(old(Val(u[ub..5], Pow(2, h))), old(Val(v[5 - n..5], Pow(2, h))), quot, rem)
  {
    var B := Pow(2, h);
    PowPositive(2, h);
    var q := ZeroDigits(4 - m);
    LongDivide(h, u, ub, v, 5 - n, q, 4 - m, m, n);
    quot := JoinResult(B, q, 4 - m);
    rem := JoinResult(B, u, ub + m + 1);
  }

  lemma SameValue(B: nat, s: seq<nat>, k: nat)
    requires 1 <= |s| && k <= |s| && s[0] == 0 && forall i :: 0 <= i < k ==> s[i] == 0
    ensures Val(s[1..], B) == Val(s[k..], B)
  {
    LeadingZeros(s, 1, B);
    LeadingZeros(s, k, B);
  }

  /** The quotient array, with its first k digits cleared. */
  method ZeroDigits(k: nat) returns (q: array<nat>)
    requires k <= 5
    ensures fresh(q) && q.Length == 5 && forall i :: 0 <= i < k ==> q[i] == 0
  {
    q := new nat[5];
    var i := k;
    while i > 0
      invariant 0 <= i <= k
      invariant forall j :: i <= j < k ==> q[j] == 0
    {
      i := i - 1;
      q[i] := 0;
    }
  }

  /** The result digits are the low ones; the array is zero above them. */
  method JoinResult(B: nat, a: array<nat>, k: nat) returns (x: nat)
    requires B > 0 && a.Length == 5 && 1 <= k <= 5 && Digits(a[k..5], B)
    requires forall i :: 1 <= i < k ==> a[i] == 0
    ensures x == Val(a[k..5], B)
  {
    ghost var s := a[1..5];
    assert forall i :: 0 <= i < 4 ==> s[i] == a[i + 1];
    assert forall i :: k - 1 <= i < 4 ==> s[i] == a[k..5][i + 1 - k];
    x := StoreDigits(B, a);
    LeadingZeros(s, k - 1, B);
    assert s[k - 1..] == a[k..5];
  }

  lemma LastDigit(B: nat, b: seq<nat>)
    requires |b| == 4 && b[0] == 0 && b[1] == 0 && b[2] == 0
    ensures Val(b, B) == b[3]
  {
    LeadingZeros(b, 3, B);
    assert b[3..] == [] + [b[3]];
    ValSnoc([], b[3], B);
  }

  /**
   * __qdivrem(u, v, &r) for words of 2h bits: for every dividend and divisor of
   * four h-bit digits, the quotient and the remainder, or the division trap.
   */
  method QDivRem(h: nat, ull: nat, vll: nat) returns (res: DivResult)
    requires h >= 1 && ull < Pow(Pow(2, h), 4) && vll < Pow(Pow(2, h), 4)
    ensures vll == 0 ==> res == DivideByZero
    ensures vll > 0 ==> res == Quotient(ull / vll, ull % vll)
  {
    if vll == 0 {
      return DivideByZero;
    }
    if ull < vll {
      DivModUnique(ull, vll, 0, ull);
      return Quotient(0, ull);
    }
    var B := Pow(2, h);
    PowPositive(2, h);
    var u, v := new nat[5], new nat[5];
    u[0] := 0;
    LoadDigits(B, ull, u);
    LoadDigits(B, vll, v);
    var n := CountDivisor(B, v);
    if n == 1 {
      var q, r := ShortDivide(B, u, v[4]);
      DivModUnique(ull, vll, q, r);
      return Quotient(q, r);
    }
    var quot, rem := DivideDigits(h, u, v, n);
    DivModUnique(ull, vll, quot, rem);
    return Quotient(quot, rem);
  }

  /** The loop that counts the divisor's digits; with one digit left it stops and that digit is the divisor. */
  method CountDivisor(B: nat, v: array<nat>) returns (n: nat)
    requires B > 0 && v.Length == 5 && Digits(v[1..5], B) && Val(v[1..5], B) > 0
    ensures 1 <= n <= 4
    ensures forall i :: 1 <= i <= 4 - n ==> v[i] == 0
    ensures v[5 - n] > 0
    ensures n == 1 ==> 0 < v[4] < B && Val(v[1..5], B) == v[4]
  {
    ghost var b := v[1..5];
    assert forall i :: 1 <= i <= 4 ==> v[i] == b[i - 1];
    n := 4;
    while v[5 - n] == 0
      invariant 2 <= n <= 4
      invariant forall i :: 1 <= i <= 4 - n ==> v[i] == 0
      decreases n
    {
      n := n - 1;
      if n == 1 {
        LastDigit(B, b);
        break;
      }
    }
  }
}
