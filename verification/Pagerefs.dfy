/**
 * The allocator of page records: 16 roots, each with a bitmap over the 256
 * records that fit on one page and a count of the bits set.
 */
module Pagerefs {
  import opened Chains
  import opened Blocks

  const NROOTS: nat := 16
  const PER_PAGE: nat := 256
  const INUSE_WORDS: nat := 8
  const RECORD_SIZE: nat := 16

  /** A page record, named by its position: record r % 256 of root r / 256. */
  type Ref = r: nat | r < 4096

  function SetBits(bits: seq<bool>): nat {
    if bits == [] then 0 else SetBits(bits[..|bits| - 1]) + if bits[|bits| - 1] then 1 else 0
  }

  lemma {:induction false} SetBitsUpdate(bits: seq<bool>, i: nat, v: bool)
    requires i < |bits|
    ensures SetBits(bits[i := v]) == SetBits(bits) + (if v then 1 else 0) - (if bits[i] then 1 else 0)
  {
    var n := |bits| - 1;
    if i == n {
      assert bits[i := v][..n] == bits[..n];
    } else {
      assert bits[i := v][..n] == bits[..n][i := v];
      SetBitsUpdate(bits[..n], i, v);
    }
  }

  /** The count says whether a bit is still clear, and whether one is set. */
  lemma {:induction false} SetBitsExtremes(bits: seq<bool>)
    ensures SetBits(bits) <= |bits|
    ensures SetBits(bits) == |bits| <==> forall i :: 0 <= i < |bits| ==> bits[i]
    ensures SetBits(bits) == 0 <==> forall i :: 0 <= i < |bits| ==> !bits[i]
  {
    if bits != [] {
      var n := |bits| - 1;
      SetBitsExtremes(bits[..n]);
      assert forall i :: 0 <= i < n ==> bits[..n][i] == bits[i];
    }
  }

  /** An address alloc_kpages may return. */
  predicate PageAddress(a: nat) {
    0 < a < 0x1_0000_0000 && a % PAGE_SIZE == 0
  }

  /**
   * The distance in records between the address of a record and a page of records,
   * as an unsigned word, is below the page's capacity only for the record's own page.
   */
  lemma RecordDistance(page: nat, page': nat, i: nat)
    requires PageAddress(page) && PageAddress(page') && i < PER_PAGE
    ensures var j := (page + RECORD_SIZE * i - page') / RECORD_SIZE % 0x1_0000_0000;
            if page == page' then j == i else j >= PER_PAGE
  {
  }

  /** Below a root with a record in use, a root without a page has all its records in use. */
  ghost predicate Packed(pages: seq<Option<nat>>, numinuse: seq<nat>)
    requires |pages| == |numinuse| == NROOTS
  {
    forall v, w :: 0 <= v < w < NROOTS && pages[v] == None && numinuse[w] > 0 ==> numinuse[v] == PER_PAGE
  }

  lemma RefParts(w: nat, i: nat)
    requires w < NROOTS && i < PER_PAGE
    ensures forall x: Ref :: x == w * PER_PAGE + i <==> x / PER_PAGE == w && x % PER_PAGE == i
  {
  }

  ghost predicate FirstUnused(r: Ref, used: set<Ref>) {
    r !in used && forall x: Ref :: x < r ==> x in used
  }

  class Roots {
    /** The address of each root's page of records, if it has one. */
    var pages: seq<Option<nat>>
    /** One flag per bit of pagerefs_inuse; word i of a root is flags 32 * i to 32 * i + 31. */
    var inuse: seq<seq<bool>>
    var numinuse: seq<nat>

    ghost predicate Valid()
      reads this
    {
      && |pages| == |inuse| == |numinuse| == NROOTS
      && (forall w :: 0 <= w < NROOTS ==> |inuse[w]| == PER_PAGE)
      && (forall w :: 0 <= w < NROOTS ==> numinuse[w] == SetBits(inuse[w]))
      && (forall w :: 0 <= w < NROOTS && pages[w] != None ==> PageAddress(pages[w].value))
      && (forall v, w :: 0 <= v < w < NROOTS && pages[v] != None ==> pages[v] != pages[w])
      && Packed(pages, numinuse)
    }

    predicate InUse(r: Ref)
      requires |inuse| == NROOTS && forall w :: 0 <= w < NROOTS ==> |inuse[w]| == PER_PAGE
      reads this
    {
      inuse[r / PER_PAGE][r % PER_PAGE]
    }

    ghost function Used(): set<Ref>
      requires Valid()
      reads this
    {
      set r: Ref | InUse(r)
    }

    constructor ()
      ensures Valid() && Used() == {}
      ensures forall w :: 0 <= w < NROOTS ==> pages[w] == None
    {
      pages := seq(NROOTS, _ => None);
      inuse := seq(NROOTS, _ => seq(PER_PAGE, _ => false));
      numinuse := seq(NROOTS, _ => 0);
      new;
      forall w | 0 <= w < NROOTS ensures numinuse[w] == SetBits(inuse[w]) {
        SetBitsExtremes(inuse[w]);
      }
    }

    /** Changes one bit and its root's count: set when the roots below are full, cleared when the root has its page. */
    method Mark(w: nat, i: nat, v: bool)
      requires Valid() && w < NROOTS && i < PER_PAGE && inuse[w][i] != v
      requires if v then forall x :: 0 <= x < w ==> numinuse[x] == PER_PAGE else pages[w] != None
      modifies this`inuse, this`numinuse
      ensures Valid()
      ensures v ==> Used() == old(Used()) + {w * PER_PAGE + i}
      ensures !v ==> Used() == old(Used()) - {w * PER_PAGE + i}
      ensures forall x: Ref :: x == w * PER_PAGE + i <==> x / PER_PAGE == w && x % PER_PAGE == i
    {
      SetBitsUpdate(inuse[w], i, v);
      SetBitsExtremes(inuse[w]);
      inuse := inuse[w := inuse[w][i := v]];
      numinuse := numinuse[w := if v then numinuse[w] + 1 else numinuse[w] - 1];
      RefParts(w, i);
      assert forall x: Ref :: InUse(x) == if x == w * PER_PAGE + i then v else old(InUse(x));
    }

    /**
     * The search of allocpageref: the first clear bit, or nothing when every bit
     * of every root is set.  Neither assertion inside the loops can fail.
     */
    method FindClear() returns (r: Option<Ref>)
      requires Valid()
      ensures r != None ==> r.value !in Used() && forall x: Ref :: x < r.value ==> x in Used()
      ensures r != None ==> forall w :: 0 <= w < r.value / PER_PAGE ==> numinuse[w] == PER_PAGE
      ensures r == None ==> forall x: Ref :: x in Used()
    {
      var w := 0;
      while w < NROOTS
        invariant w <= NROOTS
        invariant forall v :: 0 <= v < w ==> numinuse[v] == PER_PAGE
        invariant forall x: Ref :: x < w * PER_PAGE ==> InUse(x)
      {
        SetBitsExtremes(inuse[w]);
        if numinuse[w] < PER_PAGE {
          var i := ClearInRoot(w);
          var ref: Ref := w * PER_PAGE + i;
          return Some(ref);
        }
        w := w + 1;
      }
      return None;
    }

    /** The two inner loops: over the words of a root, then over the bits of a word that is not full. */
    method ClearInRoot(w: nat) returns (k: nat)
      requires Valid() && w < NROOTS && numinuse[w] < PER_PAGE
      ensures k < PER_PAGE && !inuse[w][k] && forall x :: 0 <= x < k ==> inuse[w][x]
    {
      SetBitsExtremes(inuse[w]);
      var i := 0;
      while i < INUSE_WORDS
        invariant i <= INUSE_WORDS
        invariant forall x :: 0 <= x < 32 * i ==> inuse[w][x]
      {
        var full := WordFull(w, i);
        if !full {
          var j := 0;
          while true
            invariant j <= 32
            invariant forall x :: 0 <= x < 32 * i + j ==> inuse[w][x]
            decreases 32 - j
          {
            if !inuse[w][32 * i + j] {
              return 32 * i + j;
            }
            j := j + 1;
          }
        }
        i := i + 1;
      }
      assert false;
    }

    /** The comparison of a word with 0xffffffff. */
    method WordFull(w: nat, i: nat) returns (full: bool)
      requires Valid() && w < NROOTS && i < INUSE_WORDS
      ensures full <==> forall x :: 32 * i <= x < 32 * i + 32 ==> inuse[w][x]
    {
      full := inuse[w][32 * i..32 * i + 32] == seq(32, _ => true);
      if full {
        forall x | 32 * i <= x < 32 * i + 32 ensures inuse[w][x] {
          assert inuse[w][32 * i..32 * i + 32][x - 32 * i];
        }
      }
    }

    /** allocpageref up to the point where the record's own page is needed. */
    method Reserve() returns (r: Option<Ref>)
      requires Valid()
      modifies this`inuse, this`numinuse
      ensures Valid()
      ensures r == None ==> Used() == old(Used()) && forall x: Ref :: x in Used()
      ensures r != None ==> r.value !in old(Used()) && Used() == old(Used()) + {r.value}
      ensures r != None ==> forall x: Ref :: x < r.value ==> x in old(Used())
    {
      r := FindClear();
      if r != None {
        Mark(r.value / PER_PAGE, r.value % PER_PAGE, true);
      }
    }

    /**
     * allocpagerefpage, once alloc_kpages has returned va.  A root that got a page
     * in the meantime keeps that one, and va goes back.
     */
    method SupplyPage(r: Ref, va: nat) returns (kept: bool)
      requires Valid() && PageAddress(va) && Some(va) !in pages
      modifies this`pages
      ensures Valid() && Used() == old(Used())
      ensures kept <==> old(pages)[r / PER_PAGE] == None
      ensures pages == if kept then old(pages)[r / PER_PAGE := Some(va)] else old(pages)
    {
      if pages[r / PER_PAGE] != None {
        return false;
      }
      pages := pages[r / PER_PAGE := Some(va)];
      return true;
    }

    /** Every root below r's either has its page or no record in use. */
    ghost predicate LowerRootsSound(r: Ref)
      requires Valid()
      reads this
    {
      forall w :: 0 <= w < r / PER_PAGE ==> pages[w] != None || numinuse[w] == 0
    }

    /** A root without its page, below a record in use, has all its records in use. */
    lemma LowerRootFull(w: nat, r: Ref)
      requires Valid() && r in Used() && w < r / PER_PAGE && pages[w] == None
      ensures |Range(w * PER_PAGE, PER_PAGE)| == PER_PAGE
      ensures forall x: Ref :: x in Range(w * PER_PAGE, PER_PAGE) ==> x / PER_PAGE == w && x in Used()
      ensures forall x :: x in Range(w * PER_PAGE, PER_PAGE) ==> x < 4096
    {
      SetBitsExtremes(inuse[w]);
      SetBitsExtremes(inuse[r / PER_PAGE]);
      RangeIs(w * PER_PAGE, PER_PAGE);
      forall x: Ref | x in Range(w * PER_PAGE, PER_PAGE) ensures x / PER_PAGE == w && x in Used() {
        InRoot(w, x);
        assert InUse(x);
      }
    }

    /**
     * freepageref.  The root is found by pointer arithmetic; the assertion that a
     * root without a page has no record in use fails exactly when a lower root
     * still waits for its page.
     */
    method Release(r: Ref) returns (ok: bool)
      requires Valid() && r in Used() && pages[r / PER_PAGE] != None
      modifies this`inuse, this`numinuse
      ensures Valid()
      ensures ok <==> old(LowerRootsSound(r))
      ensures ok ==> Used() == old(Used()) - {r}
      ensures !ok ==> Used() == old(Used())
    {
      var p := pages[r / PER_PAGE].value + RECORD_SIZE * (r % PER_PAGE);
      var w := 0;
      while w < NROOTS
        invariant w <= r / PER_PAGE
        invariant inuse == old(inuse) && numinuse == old(numinuse)
        invariant forall v :: 0 <= v < w ==> pages[v] != None || numinuse[v] == 0
      {
        if pages[w] == None {
          if numinuse[w] != 0 {
            return false;
          }
        } else {
          RecordDistance(pages[r / PER_PAGE].value, pages[w].value, r % PER_PAGE);
          var j := (p - pages[w].value) / RECORD_SIZE % 0x1_0000_0000;
          if j < PER_PAGE {
            assert w == r / PER_PAGE && j == r % PER_PAGE;
            Mark(w, j, false);
            return true;
          }
        }
        w := w + 1;
      }
      assert false;
    }
  }

  lemma InRoot(w: nat, x: nat)
    requires w * PER_PAGE <= x < w * PER_PAGE + PER_PAGE
    ensures x / PER_PAGE == w
  {
  }

  /** n numbers from lo on. */
  ghost function Range(lo: nat, n: nat): set<nat> {
    if n == 0 then {} else Range(lo, n - 1) + {lo + n - 1}
  }

  lemma {:induction false} RangeIs(lo: nat, n: nat)
    ensures |Range(lo, n)| == n && forall x :: x in Range(lo, n) <==> lo <= x < lo + n
  {
    if n > 0 {
      RangeIs(lo, n - 1);
    }
  }

  /**
   * A run of the record allocator after which that assertion does fail: no page can
   * be had for the first root until all its records are marked, then one can for
   * the second root, and its first record is released.
   */
  method ReleaseCanFail() returns (roots: Roots, r: Ref, ok: bool)
    ensures roots.Valid() && r in roots.Used() && roots.pages[r / PER_PAGE] != None && !ok
  {
    roots := new Roots();
    var i := 0;
    while i <= PER_PAGE
      invariant i <= PER_PAGE + 1 && fresh(roots) && roots.Valid() && roots.pages == seq(NROOTS, _ => None)
      invariant forall x: Ref :: x in roots.Used() <==> x < i
    {
      ghost var next: Ref := i;
      assert next !in roots.Used();
      var taken := roots.Reserve();
      assert taken == Some(next);
      i := i + 1;
    }
    r := PER_PAGE;
    var _ := roots.SupplyPage(r, PAGE_SIZE);
    SetBitsExtremes(roots.inuse[0]);
    ghost var first: Ref := 0;
    assert first in roots.Used();
    ok := roots.Release(r);
  }
}
