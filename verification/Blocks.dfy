/** Size classes of the subpage allocator and the block positions on a page. */
module Blocks {
  import opened Chains
  import Words

  const PAGE_SIZE: nat := 4096
  const NSIZES: nat := 8
  const LARGEST_SUBPAGE_SIZE: nat := 2048

  /** sizes[b]: 16, 32, 64 and so on up to 2048. */
  function Size(b: nat): (s: nat)
    ensures s >= 16
  {
    if b == 0 then 16 else 2 * Size(b - 1)
  }

  /** How many blocks of type b a page holds. */
  function Count(b: nat): nat {
    if b == 0 then 256 else Count(b - 1) / 2
  }

  lemma SizeTable()
    ensures Size(0) == 16 && Size(1) == 32 && Size(2) == 64 && Size(3) == 128
    ensures Size(4) == 256 && Size(5) == 512 && Size(6) == 1024 && Size(7) == 2048
    ensures Count(0) == 256 && Count(1) == 128 && Count(2) == 64 && Count(3) == 32
    ensures Count(4) == 16 && Count(5) == 8 && Count(6) == 4 && Count(7) == 2
  {
    assert Size(2) == 64 && Count(2) == 64;
    assert Size(4) == 256 && Count(4) == 16;
    assert Size(6) == 1024 && Count(6) == 4;
  }

  lemma SizeFacts(b: nat)
    requires b < NSIZES
    ensures 16 <= Size(b) <= LARGEST_SUBPAGE_SIZE && PAGE_SIZE % Size(b) == 0
    ensures Count(b) >= 2 && Count(b) * Size(b) == PAGE_SIZE && Count(b) == PAGE_SIZE / Size(b)
  {
    SizeTable();
  }

  predicate OnPage(p: nat, a: nat) {
    p <= a < p + PAGE_SIZE
  }

  /** The address of the k-th block of type b on the given page. */
  function BlockAt(page: nat, b: nat, k: nat): nat {
    page + Times(Size(b), k)
  }

  function Times(s: nat, k: nat): nat {
    if k == 0 then 0 else Times(s, k - 1) + s
  }

  /** a is the address of a block of type b on the given page. */
  ghost predicate Slot(page: nat, b: nat, a: nat) {
    OnPage(page, a) && exists k: nat :: k < Count(b) && a == BlockAt(page, b, k)
  }

  /** b is the class for a request: the smallest that holds it. */
  ghost predicate Fits(sz: nat, b: nat) {
    b < NSIZES && sz <= Size(b) && forall c: nat :: c < b ==> Size(c) < sz
  }

  lemma FitsUnique(sz: nat, b: nat)
    requires Fits(sz, b)
    ensures forall c: nat :: Fits(sz, c) ==> c == b
  {
    forall c: nat | Fits(sz, c) ensures c == b {
      assert c < b ==> Size(c) < sz;
    }
  }

  /** blocktype: the smallest class that holds the request; the panic is None. */
  method BlockType(clientsz: nat) returns (b: Option<nat>)
    ensures b == None <==> clientsz > LARGEST_SUBPAGE_SIZE
    ensures b != None ==> Fits(clientsz, b.value)
  {
    SizeTable();
    var i := 0;
    while i < NSIZES
      invariant i <= NSIZES
      invariant forall c: nat :: c < i ==> Size(c) < clientsz
    {
      if clientsz <= Size(i) {
        SizeFacts(i);
        return Some(i);
      }
      i := i + 1;
    }
    assert Size(7) < clientsz;
    return None;
  }

  // ------------------------------------------------------------------------
  // Positions
  // ------------------------------------------------------------------------

  lemma {:induction false} TimesIsProduct(s: nat, k: nat)
    ensures Times(s, k) == k * s
  {
    if k > 0 {
      TimesIsProduct(s, k - 1);
      assert k * s == (k - 1) * s + s;
    }
  }

  lemma {:induction false} TimesMonotone(s: nat, i: nat, j: nat)
    requires i < j
    ensures Times(s, i) + s <= Times(s, j)
  {
    if i + 1 < j {
      TimesMonotone(s, i, j - 1);
    }
  }

  lemma SlotsApart(page: nat, b: nat, a: nat, a': nat)
    requires Slot(page, b, a) && Slot(page, b, a') && a < a'
    ensures a + Size(b) <= a'
  {
    var k: nat :| k < Count(b) && a == BlockAt(page, b, k);
    var k': nat :| k' < Count(b) && a' == BlockAt(page, b, k');
    if k < k' {
      TimesMonotone(Size(b), k, k');
    } else if k' < k {
      TimesMonotone(Size(b), k', k);
    }
  }

  lemma BlockFits(page: nat, b: nat, k: nat)
    requires b < NSIZES && k < Count(b)
    ensures page <= BlockAt(page, b, k) && BlockAt(page, b, k) + Size(b) <= page + PAGE_SIZE
    ensures Slot(page, b, BlockAt(page, b, k))
  {
    SizeFacts(b);
    TimesMonotone(Size(b), k, Count(b));
    TimesIsProduct(Size(b), Count(b));
  }

  lemma SlotFits(page: nat, b: nat, a: nat)
    requires b < NSIZES && Slot(page, b, a)
    ensures a + Size(b) <= page + PAGE_SIZE
  {
    var k: nat :| k < Count(b) && a == BlockAt(page, b, k);
    BlockFits(page, b, k);
  }

  /** The test subpage_kfree makes on an address. */
  lemma SlotTest(page: nat, b: nat, a: nat)
    requires b < NSIZES && page <= a < page + PAGE_SIZE
    ensures Slot(page, b, a) <==> (a - page) % Size(b) == 0
  {
    SizeFacts(b);
    if Slot(page, b, a) {
      var k: nat :| k < Count(b) && a == BlockAt(page, b, k);
      MultipleOf(a - page, Size(b), k);
    }
    if (a - page) % Size(b) == 0 {
      var k := WholeQuotient(a - page, Size(b));
      BlockOf(page, b, a, k);
    }
  }

  lemma WholeQuotient(x: nat, s: nat) returns (k: nat)
    requires s > 0 && x % s == 0
    ensures x == k * s
  {
    k := x / s;
  }

  lemma MultipleOf(x: nat, s: nat, k: nat)
    requires s > 0 && x == Times(s, k)
    ensures x % s == 0
  {
    TimesIsProduct(s, k);
    Words.DivModUnique(x, s, k, 0);
  }

  lemma BlockOf(page: nat, b: nat, a: nat, k: nat)
    requires b < NSIZES && page <= a < page + PAGE_SIZE && a - page == k * Size(b)
    ensures Slot(page, b, a)
  {
    SizeFacts(b);
    TimesIsProduct(Size(b), k);
    BelowCount(Size(b), k, Count(b), a - page);
    assert a == BlockAt(page, b, k);
  }

  lemma BelowCount(s: nat, k: nat, n: nat, x: nat)
    requires s > 0 && x == k * s && x < PAGE_SIZE == n * s
    ensures k < n
  {
    assert k >= n ==> k * s >= n * s;
  }

  /** The first k block addresses. */
  ghost function FirstSlots(page: nat, b: nat, k: nat): set<nat> {
    if k == 0 then {} else FirstSlots(page, b, k - 1) + {BlockAt(page, b, k - 1)}
  }

  lemma {:induction false} FirstSlotsCard(page: nat, b: nat, k: nat)
    requires b < NSIZES
    ensures |FirstSlots(page, b, k)| == k
  {
    if k > 0 {
      FirstSlotsCard(page, b, k - 1);
      NextSlot(page, b, k - 1);
    }
  }

  lemma FirstSlotsAre(page: nat, b: nat, k: nat)
    requires b < NSIZES
    ensures |FirstSlots(page, b, k)| == k
    ensures forall a :: a in FirstSlots(page, b, k) <==> exists i: nat :: i < k && a == BlockAt(page, b, i)
  {
    FirstSlotsCard(page, b, k);
    forall a ensures a in FirstSlots(page, b, k) <==> exists i: nat :: i < k && a == BlockAt(page, b, i) {
      InFirstSlots(page, b, k, a);
    }
  }

  lemma {:induction false} InFirstSlots(page: nat, b: nat, k: nat, a: nat)
    ensures a in FirstSlots(page, b, k) <==> exists i: nat :: i < k && a == BlockAt(page, b, i)
  {
    if k > 0 {
      InFirstSlots(page, b, k - 1, a);
    }
  }

  lemma NextSlot(page: nat, b: nat, k: nat)
    requires b < NSIZES
    ensures BlockAt(page, b, k) !in FirstSlots(page, b, k)
  {
    SizeFacts(b);
    InFirstSlots(page, b, k, BlockAt(page, b, k));
    forall i: nat | i < k ensures BlockAt(page, b, i) != BlockAt(page, b, k) {
      TimesMonotone(Size(b), i, k);
    }
  }

  ghost function SlotSet(page: nat, b: nat): (r: set<nat>)
    requires b < NSIZES
    ensures |r| == Count(b)
    ensures forall a :: a in r <==> Slot(page, b, a)
  {
    FirstSlotsAre(page, b, Count(b));
    assert forall k: nat :: k < Count(b) ==> OnPage(page, BlockAt(page, b, k)) by {
      forall k: nat | k < Count(b) ensures OnPage(page, BlockAt(page, b, k)) { BlockFits(page, b, k); }
    }
    FirstSlots(page, b, Count(b))
  }

  // ------------------------------------------------------------------------
  // Counting
  // ------------------------------------------------------------------------

  ghost function Elements(list: seq<nat>): set<nat> {
    set x | x in list
  }

  lemma {:induction false} DistinctCard(list: seq<nat>)
    requires Distinct(list)
    ensures |Elements(list)| == |list|
  {
    if list != [] {
      DistinctCard(list[1..]);
      assert Elements(list) == Elements(list[1..]) + {list[0]};
    }
  }

  lemma SubsetCard(a: set<nat>, b: set<nat>)
    requires a <= b
    ensures |a| <= |b| && (|a| == |b| ==> a == b)
  {
    assert b == a + (b - a);
  }

  /** A list of distinct blocks of one page is at most the whole page, and is the whole page when it is that long. */
  lemma SlotCount(page: nat, b: nat, list: seq<nat>)
    requires b < NSIZES && Distinct(list)
    requires forall a :: a in list ==> Slot(page, b, a)
    ensures |list| <= Count(b)
    ensures |list| == Count(b) <==> forall a :: Slot(page, b, a) ==> a in list
  {
    DistinctCard(list);
    SubsetCard(Elements(list), SlotSet(page, b));
    if forall a :: Slot(page, b, a) ==> a in list {
      assert Elements(list) == SlotSet(page, b);
    }
  }

  // ------------------------------------------------------------------------
  // Requests of a page or more
  // ------------------------------------------------------------------------

  /** kmalloc rounds such a request up to whole pages, in 32-bit arithmetic. */
  function PagesFor(sz: nat): nat {
    ((sz + PAGE_SIZE - 1) % 0x1_0000_0000) / PAGE_SIZE
  }

  /** The rounding covers the request, with less than a page to spare, unless the sum wraps. */
  lemma PagesCover(sz: nat)
    requires 0 < sz < 0x1_0000_0000
    ensures PagesFor(sz) * PAGE_SIZE >= sz <==> sz <= 0x1_0000_0000 - PAGE_SIZE
    ensures sz <= 0x1_0000_0000 - PAGE_SIZE ==> PagesFor(sz) * PAGE_SIZE < sz + PAGE_SIZE
    ensures sz > 0x1_0000_0000 - PAGE_SIZE ==> PagesFor(sz) == 0
  {
    if sz > 0x1_0000_0000 - PAGE_SIZE {
      assert sz + PAGE_SIZE - 1 == 0x1_0000_0000 + (sz - 0xFFFF_F001);
      assert PagesFor(sz) == 0;
    }
  }
}
