/**
 * `__lmulq` and `__muldi3`: full products from half-width ones by the
 * three-multiplication method (Knuth, volume 2, section 4.3.3).  Words are
 * numbers below W = B * B and all unsigned arithmetic wraps modulo W; a
 * double word hi * W + lo is computed modulo W * W.
 */
module MulDi3 {
  import opened Words
  import opened AlgorithmD
  import opened LongDivision
  import opened SignedDivision

  /** LHUP: the low half moved to the upper half of the word. */
  function LHup(x: nat, B: nat): (w: nat)
    requires B > 0
    ensures w < B * B
  {
    Wrap(x * B, B)
  }

  /** x and y agree modulo m. */
  ghost predicate Congruent(x: int, y: int, m: int) {
    exists k :: Multiple(k, m) == x - y
  }

  function Multiple(k: int, m: int): int {
    k * m
  }

  lemma CongruentBy(x: int, y: int, m: int, k: int)
    requires x - y == k * m
    ensures Congruent(x, y, m)
  {
    assert Multiple(k, m) == x - y;
  }

  lemma CongruentSum(x: int, y: int, x': int, y': int, m: int)
    requires Congruent(x, y, m) && Congruent(x', y', m)
    ensures Congruent(x + x', y + y', m)
    ensures Congruent(x - x', y - y', m)
  {
    var k :| Multiple(k, m) == x - y;
    var k' :| Multiple(k', m) == x' - y';
    assert (k + k') * m == k * m + k' * m && (k - k') * m == k * m - k' * m;
    CongruentBy(x + x', y + y', m, k + k');
    CongruentBy(x - x', y - y', m, k - k');
  }

  lemma CongruentTransitive(x: int, y: int, z: int, m: int)
    requires Congruent(x, y, m) && Congruent(y, z, m)
    ensures Congruent(x, z, m)
  {
    CongruentSum(x, y, y, z, m);
    var k :| Multiple(k, m) == (x + y) - (y + z);
    CongruentBy(x, z, m, k);
  }

  lemma CongruentScale(x: int, y: int, c: int, m: int)
    requires Congruent(x, y, m)
    ensures Congruent(c * x, c * y, m) && Congruent(c * x, c * y, c * m)
  {
    var k :| Multiple(k, m) == x - y;
    assert c * x - c * y == (c * k) * m && c * x - c * y == k * (c * m) by {
      assert c * (x - y) == c * (k * m);
    }
    CongruentBy(c * x, c * y, m, c * k);
    CongruentBy(c * x, c * y, c * m, k);
  }

  lemma CongruentWord(x: int, m: int)
    requires m > 0
    ensures Congruent(x % m, x, m)
  {
    assert x % m - x == (-(x / m)) * m;
    CongruentBy(x % m, x, m, -(x / m));
  }

  /** Congruent numbers below the modulus are equal. */
  lemma CongruentEqual(x: int, y: int, m: int)
    requires Congruent(x, y, m) && 0 <= x < m && 0 <= y < m
    ensures x == y
  {
    var k :| Multiple(k, m) == x - y;
    if k > 0 {
      MulMonotone(1, k, m);
    } else if k < 0 {
      MulMonotone(k, -1, m);
    }
  }

  // ------------------------------------------------------------------------
  // Double words with manual carries
  // ------------------------------------------------------------------------

  /** The carry test of the code: the wrapped sum is below an operand exactly on overflow. */
  lemma CarryTest(l: nat, c: nat, B: nat)
    requires B > 0 && l < B * B && c < B * B
    ensures var W, s := B * B, Wrap(l + c, B);
            && (s < l <==> l + c >= W) && (s < c <==> l + c >= W)
            && s + (if s < l then W else 0) == l + c
  {
  }

  /** The borrow test of the code. */
  lemma BorrowTest(l: nat, c: nat, B: nat)
    requires B > 0 && l < B * B && c < B * B
    ensures var W, s := B * B, Wrap(l - c, B);
            s - (if s > l then W else 0) == l - c
  {
  }

  /** A double word whose high word wrapped is congruent modulo W * W. */
  lemma HighWraps(x: int, l: int, B: nat)
    requires B > 0
    ensures Congruent(Wrap(x, B) * (B * B) + l, x * (B * B) + l, (B * B) * (B * B))
  {
    WrapIsRemainder(x, B);
    HighReduces(x, l, B * B);
  }

  lemma HighReduces(x: int, l: int, W: int)
    requires W > 0
    ensures Congruent(x % W * W + l, x * W + l, W * W)
  {
    ReducedBy(x, x / W, x % W, l, W);
  }

  lemma ReducedBy(x: int, q: int, r: int, l: int, W: int)
    requires x == q * W + r
    ensures Congruent(r * W + l, x * W + l, W * W)
  {
    Times(q, r, W);
    assert (-q) * (W * W) == -(q * (W * W));
    CongruentBy(r * W + l, x * W + l, W * W, -q);
  }

  lemma Times(a: int, b: int, W: int)
    ensures (a * W + b) * W == a * (W * W) + b * W
  {
  }

  /** l << N splits into HHALF(l) and LHUP(l). */
  lemma ShiftedSplit(x: nat, B: nat)
    requires B > 0 && x < B * B
    ensures x * B == HHalf(x, B) * (B * B) + LHup(x, B)
  {
    var a, b := HHalf(x, B), LHalf(x, B);
    HalvesSum(x, B);
    Times(a, b, B);
    MulStrict(b, B, B);
    LowPart(x * B, B, a, b * B);
  }

  /** A word plus a multiple of W wraps to the word. */
  lemma LowPart(x: nat, B: nat, a: nat, w: nat)
    requires B > 0 && x == a * (B * B) + w && w < B * B
    ensures Wrap(x, B) == w
  {
    WrapIsRemainder(x, B);
    DivModUnique(x, B * B, a, w);
  }

  /** prod += x << N. */
  method AddShifted(B: nat, h: nat, l: nat, x: nat) returns (h': nat, l': nat)
    requires B > 0 && l < B * B && x < B * B
    ensures h' < B * B && l' < B * B
    ensures Congruent(h' * (B * B) + l', (h * (B * B) + l) + x * B, (B * B) * (B * B))
  {
    ShiftedSplit(x, B);
    CarryTest(l, LHup(x, B), B);
    l' := Wrap(l + LHup(x, B), B);
    ghost var sum: int := h + HHalf(x, B) + (if l' < l then 1 else 0);
    h' := Wrap(h + (HHalf(x, B) + if l' < l then 1 else 0), B);
    HighWraps(sum, l', B);
    PairSum(B * B, h, HHalf(x, B), if l' < l then 1 else 0, l, LHup(x, B), l');
  }

  lemma PairSum(W: nat, h: int, a: int, carry: int, l: int, c: int, s: int)
    requires s + carry * W == l + c
    ensures (h + a + carry) * W + s == (h * W + l) + (a * W + c)
  {
  }

  /** prod -= x << N. */
  method SubShifted(B: nat, h: nat, l: nat, x: nat) returns (h': nat, l': nat)
    requires B > 0 && l < B * B && x < B * B
    ensures h' < B * B && l' < B * B
    ensures Congruent(h' * (B * B) + l', (h * (B * B) + l) - x * B, (B * B) * (B * B))
  {
    ShiftedSplit(x, B);
    BorrowTest(l, LHup(x, B), B);
    l' := Wrap(l - LHup(x, B), B);
    ghost var diff: int := h - (HHalf(x, B) + (if l' > l then 1 else 0));
    h' := Wrap(h - (HHalf(x, B) + if l' > l then 1 else 0), B);
    HighWraps(diff, l', B);
    PairDifference(B * B, h, HHalf(x, B), if l' > l then 1 else 0, l, LHup(x, B), l');
  }

  lemma PairDifference(W: nat, h: int, a: int, borrow: int, l: int, c: int, s: int)
    requires s - borrow * W == l - c
    ensures (h - (a + borrow)) * W + s == (h * W + l) - (a * W + c)
  {
  }

  /** prod += low. */
  method AddLow(B: nat, h: nat, l: nat, low: nat) returns (h': nat, l': nat)
    requires B > 0 && h < B * B && l < B * B && low < B * B
    ensures h' < B * B && l' < B * B
    ensures Congruent(h' * (B * B) + l', (h * (B * B) + l) + low, (B * B) * (B * B))
  {
    CarryTest(l, low, B);
    l' := Wrap(l + low, B);
    h' := h;
    if l' < low {
      h' := Wrap(h' + 1, B);
    }
    ghost var sum: int := h + (if l' < low then 1 else 0);
    HighWraps(sum, l', B);
    PairSum(B * B, h, 0, if l' < low then 1 else 0, l, low, l');
  }

  /** prod = (high << 2N) + (high << N). */
  method StartProduct(B: nat, high: nat) returns (h: nat, l: nat)
    requires B > 0 && high < B * B
    ensures h < B * B && l < B * B
    ensures Congruent(h * (B * B) + l, high * (B * B) + high * B, (B * B) * (B * B))
  {
    ShiftedSplit(high, B);
    ghost var sum: int := high + HHalf(high, B);
    h, l := Wrap(high + HHalf(high, B), B), LHup(high, B);
    HighWraps(sum, l, B);
    PairSum(B * B, high, HHalf(high, B), 0, 0, l, l);
  }

  // ------------------------------------------------------------------------
  // Two words to a double word: __lmulq
  // ------------------------------------------------------------------------

  /** The three-product identity of section 4.3.3. */
  lemma ThreeProducts(B: nat, u1: int, u0: int, v1: int, v0: int)
    ensures (u1 * B + u0) * (v1 * B + v0)
         == u1 * v1 * (B * B) + u1 * v1 * B + (u1 - u0) * (v0 - v1) * B + u0 * v0 * B + u0 * v0
  {
    var hh, ll, x, y := u1 * v1, u0 * v0, u1 * v0, u0 * v1;
    assert (u1 - u0) * (v0 - v1) == x - hh - ll + y;
    assert (x - hh - ll + y) * B == x * B - hh * B - ll * B + y * B;
    calc {
      (u1 * B + u0) * (v1 * B + v0);
      (u1 * B) * (v1 * B) + u1 * B * v0 + u0 * (v1 * B) + u0 * v0;
      hh * (B * B) + x * B + y * B + ll;
    }
  }

  /** |x - y| and whether it was negated, as the code computes them. */
  method Difference(x: nat, y: nat) returns (d: nat, neg: bool)
    ensures (if neg then 0 - d else d) == x - y && (d <= x || d <= y)
  {
    if x >= y {
      d, neg := x - y, false;
    } else {
      d, neg := y - x, true;
    }
  }

  lemma SignedProduct(x: int, y: int, d: nat, e: nat, n: bool, m: bool)
    requires x == (if n then 0 - d else d) && y == (if m then 0 - e else e)
    ensures x * y == if n != m then 0 - d * e else d * e
  {
  }

  lemma ProductBelow(u: nat, v: nat, W: nat)
    requires u < W && v < W
    ensures u * v < W * W
  {
    MulMonotone(u, W, v);
    MulStrict(v, W, W);
  }

  /** The three half-width products; neg says that the middle one is negative. */
  method HalfProducts(B: nat, u1: nat, u0: nat, v1: nat, v0: nat) returns (high: nat, mid: nat, neg: bool, low: nat)
    requires u1 < B && u0 < B && v1 < B && v0 < B
    ensures high < B * B && mid < B * B && low < B * B
    ensures high == u1 * v1 && low == u0 * v0
    ensures (u1 - u0) * (v0 - v1) == if neg then 0 - mid else mid
  {
    ProductFits(u0, v0, B);
    low := Wrap(u0 * v0, B);
    var udiff, n1 := Difference(u1, u0);
    var vdiff, n2 := Difference(v0, v1);
    neg := n1 != n2;
    ProductFits(udiff, vdiff, B);
    mid := Wrap(udiff * vdiff, B);
    SignedProduct(u1 - u0, v0 - v1, udiff, vdiff, n1, n2);
    ProductFits(u1, v1, B);
    high := Wrap(u1 * v1, B);
  }

  /** __lmulq: the exact product of any two words, although every intermediate wraps. */
  method LMulQ(B: nat, u: nat, v: nat) returns (hi: nat, lo: nat)
    requires B > 0 && u < B * B && v < B * B
    ensures hi < B * B && lo < B * B && hi * (B * B) + lo == u * v
  {
    WordDigits(u, B);
    WordDigits(v, B);
    var u1, u0, v1, v0 := HHalf(u, B), LHalf(u, B), HHalf(v, B), LHalf(v, B);
    var high, mid, neg, low := HalfProducts(B, u1, u0, v1, v0);
    if u1 == 0 && v1 == 0 {
      return 0, low;
    }
    hi, lo := CollectProducts(B, high, mid, neg, low);
    ProductBelow(u, v, B * B);
    CombineFitsDouble(hi, lo, B * B);
    ExactProduct(B, u1, u0, v1, v0, high, mid, neg, low, hi, lo);
  }

  lemma CombineFitsDouble(hi: nat, lo: nat, W: nat)
    requires hi < W && lo < W
    ensures hi * W + lo < W * W
  {
    MulMonotone(hi + 1, W, W);
    assert (hi + 1) * W == hi * W + W;
  }

  /** Add the three products up, each at its place. */
  method CollectProducts(B: nat, high: nat, mid: nat, neg: bool, low: nat) returns (hi: nat, lo: nat)
    requires B > 0 && high < B * B && mid < B * B && low < B * B
    ensures hi < B * B && lo < B * B
    ensures Congruent(hi * (B * B) + lo,
                      high * (B * B) + high * B + (if neg then 0 - mid * B else mid * B) + low * B + low,
                      (B * B) * (B * B))
  {
    ghost var M := (B * B) * (B * B);
    ghost var p0 := high * (B * B) + high * B;
    ghost var p1 := p0 + (if neg then 0 - mid * B else mid * B);
    hi, lo := StartProduct(B, high);
    ghost var d0 := hi * (B * B) + lo;
    if neg {
      hi, lo := SubShifted(B, hi, lo, mid);
    } else {
      hi, lo := AddShifted(B, hi, lo, mid);
    }
    ghost var d1 := hi * (B * B) + lo;
    Advance(d0, p0, d1, p1 - p0, M);
    hi, lo := AddShifted(B, hi, lo, low);
    ghost var d2 := hi * (B * B) + lo;
    Advance(d1, p1, d2, low * B, M);
    hi, lo := AddLow(B, hi, lo, low);
    Advance(d2, p1 + low * B, hi * (B * B) + lo, low, M);
  }

  /** One more term: if d is congruent to p and d' to d + t, then d' is congruent to p + t. */
  lemma Advance(d: int, p: int, d': int, t: int, M: int)
    requires Congruent(d, p, M) && Congruent(d', d + t, M)
    ensures Congruent(d', p + t, M)
  {
    CongruentBy(t, t, M, 0);
    CongruentSum(d, p, t, t, M);
    CongruentTransitive(d', d + t, p + t, M);
  }

  lemma ExactProduct(B: nat, u1: nat, u0: nat, v1: nat, v0: nat, high: nat, mid: nat, neg: bool, low: nat, hi: nat,
                     lo: nat)
    requires B > 0 && high == u1 * v1 && low == u0 * v0
    requires (u1 - u0) * (v0 - v1) == if neg then 0 - mid else mid
    requires Congruent(hi * (B * B) + lo,
                       high * (B * B) + high * B + (if neg then 0 - mid * B else mid * B) + low * B + low,
                       (B * B) * (B * B))
    requires hi * (B * B) + lo < (B * B) * (B * B)
    requires (u1 * B + u0) * (v1 * B + v0) < (B * B) * (B * B)
    ensures hi * (B * B) + lo == (u1 * B + u0) * (v1 * B + v0)
  {
    ThreeProducts(B, u1, u0, v1, v0);
    MiddleTerm(mid, neg, B);
    CongruentEqual(hi * (B * B) + lo, (u1 * B + u0) * (v1 * B + v0), (B * B) * (B * B));
  }

  lemma MiddleTerm(mid: int, neg: bool, B: int)
    ensures (if neg then 0 - mid else mid) * B == if neg then 0 - mid * B else mid * B
  {
  }

  // ------------------------------------------------------------------------
  // Signed double words: __muldi3
  // ------------------------------------------------------------------------

  /** Modulo W * W, the upper product drops out of the three-product identity. */
  lemma ThreeProductsModulo(W: nat, u1: int, u0: int, v1: int, v0: int)
    ensures Congruent((u1 * v1 + (u1 - u0) * (v0 - v1) + u0 * v0) * W + u0 * v0,
                      (u1 * W + u0) * (v1 * W + v0), W * W)
  {
    ThreeProducts(W, u1, u0, v1, v0);
    DropHigh(W, u1 * v1, (u1 - u0) * (v0 - v1), u0 * v0, (u1 * W + u0) * (v1 * W + v0));
  }

  lemma DropHigh(W: nat, hh: int, m: int, ll: int, p: int)
    requires p == hh * (W * W) + hh * W + m * W + ll * W + ll
    ensures Congruent((hh + m + ll) * W + ll, p, W * W)
  {
    assert (hh + m + ll) * W == hh * W + m * W + ll * W;
    assert (-hh) * (W * W) == -(hh * (W * W));
    CongruentBy((hh + m + ll) * W + ll, p, W * W, -hh);
  }

  /** The product of two unsigned double words, modulo W * W. */
  method MulDouble(B: nat, u1: nat, u0: nat, v1: nat, v0: nat) returns (ph: nat, pl: nat)
    requires B > 0 && u1 < B * B && u0 < B * B && v1 < B * B && v0 < B * B
    ensures ph < B * B && pl < B * B
    ensures Congruent(ph * (B * B) + pl, (u1 * (B * B) + u0) * (v1 * (B * B) + v0), (B * B) * (B * B))
  {
    ghost var W := B * B;
    var lh, ll := LMulQ(B, u0, v0);
    if u1 == 0 && v1 == 0 {
      ph, pl := lh, ll;
      CongruentBy(u0 * v0, u0 * v0, W * W, 0);
    } else {
      pl := ll;
      ph := CrossProducts(B, u1, u0, v1, v0, lh, ll);
    }
  }

  /** The high word, from the low product and the two wrapped cross products. */
  method CrossProducts(B: nat, u1: nat, u0: nat, v1: nat, v0: nat, lh: nat, ll: nat) returns (ph: nat)
    requires B > 0 && lh * (B * B) + ll == u0 * v0
    ensures ph < B * B
    ensures Congruent(ph * (B * B) + ll, (u1 * (B * B) + u0) * (v1 * (B * B) + v0), (B * B) * (B * B))
  {
    var udiff, n1 := Difference(u1, u0);
    var vdiff, n2 := Difference(v0, v1);
    var mid, high := Wrap(udiff * vdiff, B), Wrap(u1 * v1, B);
    ph := AssembleHigh(B, high, mid, n1 != n2, ll, lh);
    AssembledHigh(B, high, mid, n1 != n2, ll, lh);
    WrapIsRemainder(udiff * vdiff, B);
    WrapIsRemainder(u1 * v1, B);
    HighWord(B * B, u1, u0, v1, v0, udiff, vdiff, n1, n2, high, mid, lh, ll, ph);
  }

  /** prod.ui[H]: all terms wrap. */
  function AssembleHigh(B: nat, high: nat, mid: nat, neg: bool, ll: nat, lh: nat): (ph: nat)
    requires B > 0
    ensures ph < B * B
  {
    Wrap(high + (if neg then Wrap(0 - mid, B) else mid) + ll + lh, B)
  }

  lemma AssembledHigh(B: nat, high: nat, mid: nat, neg: bool, ll: nat, lh: nat)
    requires B > 0
    ensures AssembleHigh(B, high, mid, neg, ll, lh) ==
            (high + (if neg then (0 - mid) % (B * B) else mid) + ll + lh) % (B * B)
  {
    WrapIsRemainder(0 - mid, B);
    WrapIsRemainder(high + (if neg then Wrap(0 - mid, B) else mid) + ll + lh, B);
  }

  lemma HighWord(W: nat, u1: nat, u0: nat, v1: nat, v0: nat, udiff: nat, vdiff: nat, n1: bool, n2: bool,
                 high: nat, mid: nat, lh: nat, ll: nat, ph: nat)
    requires W > 0 && lh * W + ll == u0 * v0
    requires (if n1 then 0 - udiff else udiff) == u1 - u0 && (if n2 then 0 - vdiff else vdiff) == v0 - v1
    requires high == (u1 * v1) % W && mid == (udiff * vdiff) % W
    requires ph == (high + (if n1 != n2 then (0 - mid) % W else mid) + ll + lh) % W
    ensures Congruent(ph * W + ll, (u1 * W + u0) * (v1 * W + v0), W * W)
  {
    SignedProduct(u1 - u0, v0 - v1, udiff, vdiff, n1, n2);
    CongruentWord(u1 * v1, W);
    MiddleWord(udiff * vdiff, mid, n1 != n2, W);
    HighWordModulo(W, u1 * v1, (u1 - u0) * (v0 - v1), u0 * v0, high,
                   if n1 != n2 then (0 - mid) % W else mid, lh, ll, ph);
    ThreeProductsModulo(W, u1, u0, v1, v0);
    CongruentTransitive(ph * W + ll, (u1 * v1 + (u1 - u0) * (v0 - v1) + u0 * v0) * W + u0 * v0,
                        (u1 * W + u0) * (v1 * W + v0), W * W);
  }

  /** high, mm and low's low word are enough: everything else is a multiple of W * W. */
  lemma HighWordModulo(W: int, hv: int, m: int, low: int, high: int, mm: int, lh: int, ll: int, ph: int)
    requires W > 0 && Congruent(high, hv, W) && Congruent(mm, m, W)
    requires lh * W + ll == low && ph == (high + mm + ll + lh) % W
    ensures Congruent(ph * W + ll, (hv + m + low) * W + low, W * W)
  {
    HighSum(W, hv, m, low, high, mm, lh, ll);
    HighWordFrom(W, high + mm + ll, hv + m + low, lh, ll, low, ph);
  }

  lemma HighSum(W: int, hv: int, m: int, low: int, high: int, mm: int, lh: int, ll: int)
    requires Congruent(high, hv, W) && Congruent(mm, m, W) && lh * W + ll == low
    ensures Congruent(high + mm + ll, hv + m + low, W)
  {
    CongruentSum(high, hv, mm, m, W);
    assert (-lh) * W == -(lh * W);
    CongruentBy(ll, low, W, -lh);
    CongruentSum(high + mm, hv + m, ll, low, W);
  }

  lemma HighWordFrom(W: int, x: int, e: int, lh: int, ll: int, low: int, ph: int)
    requires W > 0 && Congruent(x, e, W) && lh * W + ll == low && ph == (x + lh) % W
    ensures Congruent(ph * W + ll, e * W + low, W * W)
  {
    HighReduces(x + lh, ll, W);
    ScaledHigh(W, x, e, lh, ll, low);
    CongruentTransitive(ph * W + ll, (x + lh) * W + ll, e * W + low, W * W);
  }

  lemma MiddleWord(x: int, mid: int, neg: bool, W: int)
    requires W > 0 && mid == x % W
    ensures Congruent(if neg then (0 - mid) % W else mid, if neg then 0 - x else x, W)
  {
    CongruentWord(x, W);
    if neg {
      CongruentWord(0 - mid, W);
      CongruentBy(0, 0, W, 0);
      CongruentSum(0, 0, mid, x, W);
      CongruentTransitive((0 - mid) % W, 0 - mid, 0 - x, W);
    }
  }

  /** (x + lh) * W + ll is congruent to e * W + low when x is congruent to e and low = lh * W + ll. */
  lemma ScaledHigh(W: int, x: int, e: int, lh: int, ll: int, low: int)
    requires Congruent(x, e, W) && lh * W + ll == low
    ensures Congruent((x + lh) * W + ll, e * W + low, W * W)
  {
    CongruentScale(x, e, W, W);
    var k :| Multiple(k, W * W) == W * x - W * e;
    assert (x + lh) * W + ll - (e * W + low) == k * (W * W);
    CongruentBy((x + lh) * W + ll, e * W + low, W * W, k);
  }

  /**
   * __muldi3: for every two representable numbers, the product modulo 2^(4h) in
   * two's complement, the most negative number included.
   */
  method MulDi3(B: nat, a: int, b: int) returns (r: int)
    requires B > 0 && InRange(a, (B * B) * (B * B)) && InRange(b, (B * B) * (B * B))
    ensures InRange(r, (B * B) * (B * B))
    ensures Congruent(r, a * b, (B * B) * (B * B))
  {
    ghost var W := B * B;
    PositiveSquare(B);
    PositiveSquare(W);
    var M := (B * B) * (B * B);
    var u := Magnitude(a, M);
    var v := Magnitude(b, M);
    WordDigits(u, W);
    WordDigits(v, W);
    var ph, pl := MulDouble(B, HHalf(u, B * B), LHalf(u, B * B), HHalf(v, B * B), LHalf(v, B * B));
    CombineFitsDouble(ph, pl, W);
    var prod := Join(ph, pl, B * B);
    ghost var p := prod;
    if (a < 0) != (b < 0) {
      prod := Negate(prod, M);
    }
    r := ToSigned(prod, M);
    SignedResultCongruent(a, b, M, p, prod, r);
  }

  lemma PositiveSquare(x: nat)
    requires x > 0
    ensures x * x > 0
  {
    MulMonotone(1, x, x);
  }

  lemma SignedResultCongruent(a: int, b: int, M: nat, p: nat, prod: nat, r: int)
    requires M > 0 && Congruent(p, Abs(a) * Abs(b), M)
    requires prod == if (a < 0) != (b < 0) then Negate(p, M) else p
    requires r == ToSigned(prod, M)
    ensures Congruent(r, a * b, M)
  {
    CongruentBy(r, prod, M, if 2 * prod < M then 0 else -1);
    SignedProduct(a, b, Abs(a), Abs(b), a < 0, b < 0);
    if (a < 0) != (b < 0) {
      var x: int := p;
      CongruentWord(-x, M);
      CongruentBy(0, 0, M, 0);
      CongruentSum(0, 0, p, Abs(a) * Abs(b), M);
      CongruentTransitive(prod, -x, a * b, M);
    }
    CongruentTransitive(r, prod, a * b, M);
  }
}
