/**
 * The subpage allocator of kmalloc.c.  Each method below is one stretch of code
 * run with kmalloc_spinlock held; Valid() is the invariant of that lock, so it
 * holds however the stretches of different threads interleave.
 */
module KernelHeap {
  import opened Chains
  import opened Blocks
  import opened Pagerefs
  import opened HeapPages

  const DEADBEEF: nat := 0xdeadbeef

  // ------------------------------------------------------------------------
  // The two lists of page records
  // ------------------------------------------------------------------------

  /** The records of type b, in the order of the list of all pages. */
  function OfType(list: seq<Ref>, refs: map<Ref, Pageref>, b: nat): seq<Ref> {
    if list == [] then []
    else if list[0] in refs && refs[list[0]].blktype == b then [list[0]] + OfType(list[1..], refs, b)
    else OfType(list[1..], refs, b)
  }

  /** Every record is once on the list of all pages and once, in the same order, on the list of its size. */
  ghost predicate ListsOk(bases: seq<Option<Ref>>, same: map<Ref, Option<Ref>>,
                          base: Option<Ref>, all: map<Ref, Option<Ref>>, list: seq<Ref>, refs: map<Ref, Pageref>)
  {
    && |bases| == NSIZES
    && Chain(base, all, list) && Distinct(list)
    && (forall b :: 0 <= b < NSIZES ==> Chain(bases[b], same, OfType(list, refs, b)))
  }

  lemma {:induction false} OfTypeElements(list: seq<Ref>, refs: map<Ref, Pageref>, b: nat)
    ensures forall r :: r in OfType(list, refs, b) <==> r in list && r in refs && refs[r].blktype == b
    ensures Distinct(list) ==> Distinct(OfType(list, refs, b))
  {
    if list != [] {
      OfTypeElements(list[1..], refs, b);
      var rest := OfType(list[1..], refs, b);
      assert ([list[0]] + rest)[1..] == rest;
    }
  }

  lemma {:induction false} OfTypeKept(list: seq<Ref>, refs: map<Ref, Pageref>, refs': map<Ref, Pageref>, b: nat)
    requires forall r :: r in list && r in refs ==> r in refs' && refs[r].blktype == refs'[r].blktype
    requires forall r :: r in list && r in refs' ==> r in refs
    ensures OfType(list, refs', b) == OfType(list, refs, b)
  {
    if list != [] {
      OfTypeKept(list[1..], refs, refs', b);
    }
  }

  lemma {:induction false} OfTypeWithout(list: seq<Ref>, refs: map<Ref, Pageref>, b: nat, r: Ref)
    requires Distinct(list)
    ensures OfType(Without(list, r), refs, b) == Without(OfType(list, refs, b), r)
  {
    if list != [] {
      OfTypeElements(list[1..], refs, b);
      if list[0] == r {
        WithoutAbsent(OfType(list[1..], refs, b), r);
      } else {
        OfTypeWithout(list[1..], refs, b, r);
        assert Without(list, r)[1..] == Without(list[1..], r);
      }
    }
  }

  /** The first page, in the order of the list of all pages, whose blocks suit the request and which has one free. */
  ghost function FirstRoom(list: seq<Ref>, refs: map<Ref, Pageref>, sz: nat): Option<Ref> {
    if list == [] then None
    else if list[0] in refs && Fits(sz, refs[list[0]].blktype) && refs[list[0]].nfree > 0 then Some(list[0])
    else FirstRoom(list[1..], refs, sz)
  }

  /** The page of record r has blocks of the size class the request calls for. */
  ghost predicate Suits(sz: nat, r: Ref, refs: map<Ref, Pageref>) {
    r in refs && Fits(sz, refs[r].blktype)
  }

  /** There is none exactly when every page with such blocks is full. */
  lemma {:induction false} RoomSays(list: seq<Ref>, refs: map<Ref, Pageref>, sz: nat)
    ensures var r := FirstRoom(list, refs, sz);
            if r == None then
              forall x :: x in list && x in refs && Fits(sz, refs[x].blktype) ==> refs[x].nfree == 0
            else
              r.value in list && r.value in refs && Fits(sz, refs[r.value].blktype) && refs[r.value].nfree > 0
  {
    if list != [] {
      RoomSays(list[1..], refs, sz);
    }
  }

  /** The first of a list of records with a free block. */
  ghost function FirstFree(list: seq<Ref>, refs: map<Ref, Pageref>): Option<Ref> {
    if list == [] then None
    else if list[0] in refs && refs[list[0]].nfree > 0 then Some(list[0])
    else FirstFree(list[1..], refs)
  }

  /** It is enough to look at the list of the right size. */
  lemma {:induction false} RoomOnSizeList(list: seq<Ref>, refs: map<Ref, Pageref>, sz: nat, b: nat)
    requires Fits(sz, b)
    ensures FirstRoom(list, refs, sz) == FirstFree(OfType(list, refs, b), refs)
  {
    FitsUnique(sz, b);
    if list != [] {
      RoomOnSizeList(list[1..], refs, sz, b);
      assert ([list[0]] + OfType(list[1..], refs, b))[1..] == OfType(list[1..], refs, b);
    }
  }

  lemma PushOfType(list: seq<Ref>, refs: map<Ref, Pageref>, b: nat, r: Ref, pr: Pageref)
    requires r !in list
    ensures OfType([r] + list, refs[r := pr], b) ==
            if pr.blktype == b then [r] + OfType(list, refs, b) else OfType(list, refs, b)
  {
    assert ([r] + list)[1..] == list;
    OfTypeKept(list, refs, refs[r := pr], b);
  }

  lemma PushLists(bases: seq<Option<Ref>>, same: map<Ref, Option<Ref>>,
                  base: Option<Ref>, all: map<Ref, Option<Ref>>, list: seq<Ref>, refs: map<Ref, Pageref>,
                  r: Ref, pr: Pageref)
    requires ListsOk(bases, same, base, all, list, refs) && r !in list && pr.blktype < NSIZES
    ensures var b := pr.blktype;
            ListsOk(bases[b := Some(r)], same[r := bases[b]], Some(r), all[r := base], [r] + list, refs[r := pr])
  {
    var b := pr.blktype;
    ChainPush(base, all, list, r);
    var bases' := bases[b := Some(r)];
    forall c | 0 <= c < NSIZES
      ensures Chain(bases'[c], same[r := bases[b]], OfType([r] + list, refs[r := pr], c))
    {
      PushOfType(list, refs, c, r, pr);
      OfTypeElements(list, refs, c);
      if c == b {
        ChainPush(bases[b], same, OfType(list, refs, b), r);
      } else {
        ChainFrame(bases[c], same, same[r := bases[b]], OfType(list, refs, c));
      }
    }
  }

  lemma RemoveLists(bases: seq<Option<Ref>>, same: map<Ref, Option<Ref>>,
                    base: Option<Ref>, all: map<Ref, Option<Ref>>, list: seq<Ref>, refs: map<Ref, Pageref>,
                    r: Ref, head: Option<Ref>, same': map<Ref, Option<Ref>>,
                    base': Option<Ref>, all': map<Ref, Option<Ref>>)
    requires ListsOk(bases, same, base, all, list, refs) && r in refs && refs[r].blktype < NSIZES
    requires var sized := OfType(list, refs, refs[r].blktype);
             && Chain(head, same', Without(sized, r)) && same'.Keys == same.Keys
             && (forall y :: y in same && y !in sized ==> same'[y] == same[y])
    requires Chain(base', all', Without(list, r))
    ensures ListsOk(bases[refs[r].blktype := head], same', base', all', Without(list, r), refs)
  {
    var b := refs[r].blktype;
    WithoutElements(list, r);
    var bases' := bases[b := head];
    forall c | 0 <= c < NSIZES
      ensures Chain(bases'[c], same', OfType(Without(list, r), refs, c))
    {
      OfTypeWithout(list, refs, c, r);
      OfTypeElements(list, refs, c);
      OfTypeElements(list, refs, b);
      if c != b {
        ChainFrame(bases[c], same, same', OfType(list, refs, c));
        WithoutAbsent(OfType(list, refs, c), r);
      }
    }
  }

  /** Changes to a record other than its type leave the lists in order. */
  lemma ListsIgnoreCounts(bases: seq<Option<Ref>>, same: map<Ref, Option<Ref>>,
                          base: Option<Ref>, all: map<Ref, Option<Ref>>, list: seq<Ref>, refs: map<Ref, Pageref>,
                          r: Ref, pr: Pageref)
    requires ListsOk(bases, same, base, all, list, refs)
    requires r in refs && pr.blktype == refs[r].blktype
    ensures ListsOk(bases, same, base, all, list, refs[r := pr])
  {
    forall b | 0 <= b < NSIZES ensures Chain(bases[b], same, OfType(list, refs[r := pr], b)) {
      OfTypeKept(list, refs, refs[r := pr], b);
    }
  }

  /** Not every block of the page is free. */
  predicate InService(pr: Pageref) {
    pr.blktype < NSIZES && pr.nfree < Count(pr.blktype)
  }

  /** No page on the lists is wholly free, except perhaps the one given. */
  ghost predicate NoneWhollyFree(list: seq<Ref>, refs: map<Ref, Pageref>, except: Option<Ref>) {
    forall r :: r in list && Some(r) != except ==> r in refs && InService(refs[r])
  }

  /** The data pages the listed records describe. */
  ghost function PagesOf(list: seq<Ref>, refs: map<Ref, Pageref>): set<nat> {
    if list == [] then {}
    else PagesOf(list[1..], refs) + if list[0] in refs then {refs[list[0]].page} else {}
  }

  lemma {:induction false} PagesOfKept(list: seq<Ref>, refs: map<Ref, Pageref>, refs': map<Ref, Pageref>)
    requires forall r :: r in list ==> r in refs && r in refs' && refs[r].page == refs'[r].page
    ensures PagesOf(list, refs') == PagesOf(list, refs)
  {
    if list != [] {
      PagesOfKept(list[1..], refs, refs');
    }
  }

  lemma PagesOfPush(list: seq<Ref>, refs: map<Ref, Pageref>, r: Ref, pr: Pageref)
    requires r !in list && forall s :: s in list ==> s in refs
    ensures PagesOf([r] + list, refs[r := pr]) == PagesOf(list, refs) + {pr.page}
  {
    assert ([r] + list)[1..] == list;
    PagesOfKept(list, refs, refs[r := pr]);
  }

  lemma {:induction false} PagesOfHas(list: seq<Ref>, refs: map<Ref, Pageref>)
    ensures forall p :: p in PagesOf(list, refs) <==> exists r :: r in list && r in refs && refs[r].page == p
  {
    if list != [] {
      PagesOfHas(list[1..], refs);
      forall p ensures p in PagesOf(list, refs) <==> exists r :: r in list && r in refs && refs[r].page == p {
        if p in PagesOf(list[1..], refs) {
          var r :| r in list[1..] && r in refs && refs[r].page == p;
          assert r in list;
        }
      }
    }
  }

  /** No live block lies on a page that is not in hand. */
  lemma NoneLiveOn(list: seq<Ref>, refs: map<Ref, Pageref>, free: map<Ref, seq<nat>>,
                   mem: map<nat, Option<nat>>, live: map<nat, Live>, page: nat)
    requires PagesOk(list, refs, free, mem, live) && page % PAGE_SIZE == 0 && page !in PagesOf(list, refs)
    ensures forall a :: a in live ==> !OnPage(page, a)
  {
    PagesOfHas(list, refs);
    forall a | a in live ensures !OnPage(page, a) {
      NoneLiveThere(list, refs, free, mem, live, page, a);
    }
  }

  /** A live block belongs to the one page it lies on. */
  lemma OneOwner(list: seq<Ref>, refs: map<Ref, Pageref>, free: map<Ref, seq<nat>>,
                 mem: map<nat, Option<nat>>, live: map<nat, Live>, r: Ref, a: nat)
    requires PagesOk(list, refs, free, mem, live) && r in list && a in live && Slot(refs[r].page, refs[r].blktype, a)
    ensures live[a].ref == r
  {
    var s := live[a].ref;
    assert LiveOk(list, refs, a, live[a]) && PageOk(refs[r], free[r], mem) && PageOk(refs[s], free[s], mem);
    OnePage(refs[r].page, refs[s].page, a);
  }

  lemma {:induction false} PagesOfDrop(list: seq<Ref>, refs: map<Ref, Pageref>, r: Ref)
    requires r in list && Distinct(list) && forall s :: s in list ==> s in refs
    requires forall s :: s in list && s != r ==> refs[s].page != refs[r].page
    ensures PagesOf(Without(list, r), refs) == PagesOf(list, refs) - {refs[r].page}
  {
    if list[0] == r {
      PagesOfHas(list[1..], refs);
      assert refs[r].page !in PagesOf(list[1..], refs);
    } else {
      PagesOfDrop(list[1..], refs, r);
      assert Without(list, r)[1..] == Without(list[1..], r);
    }
  }

  // ------------------------------------------------------------------------
  // A fresh page
  // ------------------------------------------------------------------------

  lemma ThreadStep(page: nat, b: nat, k: nat, mem: map<nat, Option<nat>>, fl: seq<nat>)
    requires b < NSIZES && 0 < k < Count(b) && |fl| == k
    requires forall a :: a in fl ==> Slot(page, b, a) && a <= BlockAt(page, b, k - 1)
    requires fl[0] == BlockAt(page, b, k - 1) && Chain<nat>(Some(fl[0]), mem, fl) && Distinct<nat>(fl)
    ensures var a := BlockAt(page, b, k);
            var fl' := [a] + fl;
            && OnPage(page, a) && a != fl[0]
            && (forall x :: x in fl' ==> Slot(page, b, x) && x <= a)
            && Chain<nat>(Some(a), mem[a := Some(fl[0])], fl') && Distinct<nat>(fl')
  {
    var a := BlockAt(page, b, k);
    BlockFits(page, b, k);
    ChainPush<nat>(Some(fl[0]), mem, fl, a);
  }

  /** Threads all blocks of a new page onto its free list, last block first. */
  method ThreadPage(page: nat, b: nat, mem: map<nat, Option<nat>>)
    returns (pr: Pageref, mem': map<nat, Option<nat>>, ghost fl: seq<nat>)
    requires page > 0 && page % PAGE_SIZE == 0 && b < NSIZES
    ensures pr.page == page && pr.blktype == b && pr.nfree == Count(b)
    ensures PageOk(pr, fl, mem') && AgreeOff(page, mem, mem')
  {
    SizeFacts(b);
    var n := PAGE_SIZE / Size(b);
    var f := page;
    BlockFits(page, b, 0);
    assert f == BlockAt(page, b, 0);
    mem' := mem[f := None];
    fl := [f];
    var i := 1;
    while i < n
      invariant 1 <= i <= n && |fl| == i && f == fl[0] == BlockAt(page, b, i - 1)
      invariant forall a :: a in fl ==> Slot(page, b, a) && a <= BlockAt(page, b, i - 1)
      invariant Chain<nat>(Some(f), mem', fl) && Distinct<nat>(fl)
      invariant AgreeOff(page, mem, mem')
    {
      ThreadStep(page, b, i, mem', fl);
      TimesIsProduct(Size(b), i);
      TimesIsProduct(Size(b), i - 1);
      f := page + i * Size(b);
      mem' := mem'[f := Some(page + (i - 1) * Size(b))];
      fl := [f] + fl;
      i := i + 1;
    }
    assert f in fl;
    pr := Pageref(page, b, f - page, n);
  }

  lemma StillInService(list: seq<Ref>, refs: map<Ref, Pageref>, r: Ref, pr: Pageref)
    requires (forall s :: s in list ==> s in refs) && NoneWhollyFree(list, refs, None)
    requires pr.nfree <= Count(pr.blktype) && pr.blktype < NSIZES && r in list
    ensures NoneWhollyFree(list, refs[r := pr], if pr.nfree == Count(pr.blktype) then Some(r) else None)
  {
  }

  // ------------------------------------------------------------------------
  // The allocator
  // ------------------------------------------------------------------------

  /** Where an address lies: off every heap page, inside one but not at a block, or at a block. */
  datatype Place = OffHeap | Misplaced | Block(ref: Ref)

  datatype AllocResult = WholePages(npages: nat) | Block(ptr: nat) | NoMemory

  datatype FreeResult = Freed | FreedPage(page: nat) | RootWithoutPage

  /** What kfree came to; BadAddress is a panic. */
  datatype KfreeResult = Ignored | WholePagesFreed(address: nat) | BadAddress | Subpage(how: FreeResult)

  /**
   * An allocation takes at most one record.  It is lost exactly when its root has no
   * page and none can be had.
   */
  ghost predicate RecordsTaken(was: set<Ref>, now: set<Ref>, pages: seq<Option<nat>>, failed: bool) {
    || now == was
    || exists r: Ref ::
         r !in was && now == was + {r} && (r / PER_PAGE < |pages| ==> (pages[r / PER_PAGE] == None <==> failed))
  }

  /** A record taken is put on the lists. */
  ghost predicate TakenIsListed(was: set<Ref>, now: set<Ref>, list: seq<Ref>, list': seq<Ref>) {
    (now == was && list' == list) || exists r: Ref :: now == was + {r} && list' == [r] + list
  }

  /** The first unused record is now the first on the list, for a new page. */
  ghost predicate Listed(r: Ref, page: nat, used: set<Ref>, used': set<Ref>, list: seq<Ref>, list': seq<Ref>,
                         data: set<nat>, data': set<nat>)
  {
    FirstUnused(r, used) && used' == used + {r} && list' == [r] + list && data' == data + {page}
  }

  /** No record can be had: all are in use, or the first that is not needs a page for its root and gets none. */
  ghost predicate NoRecord(recordPage: nat, used: set<Ref>, pages: seq<Option<nat>>) {
    forall r: Ref ::
      FirstUnused(r, used) ==> recordPage == 0 && r / PER_PAGE < |pages| && pages[r / PER_PAGE] == None
  }

  /** No block of r's page is live. */
  ghost predicate NoneLive(r: Ref, live: map<nat, Live>) {
    forall a :: a in live ==> live[a].ref != r
  }

  /** What becomes of the lists, the bitmap and the data pages when a block of r's page is freed. */
  ghost predicate Settled(result: FreeResult, r: Ref, page: nat, list: seq<Ref>, list': seq<Ref>,
                          used: set<Ref>, used': set<Ref>, pages: set<nat>, pages': set<nat>)
  {
    match result
    case Freed => list' == list && used' == used && pages' == pages
    case FreedPage(p) => p == page && list' == Without(list, r) && used' == used - {r} && pages' == pages - {page}
    case RootWithoutPage => list' == Without(list, r) && used' == used && pages' == pages - {page}
  }

  /** A freed block holds 0xdeadbeef in every word but the first, its link; the rest of memory is as it was. */
  ghost predicate Scrubbed(was: map<nat, Option<nat>>, now: map<nat, Option<nat>>, a: nat, len: nat) {
    && (forall i :: 1 <= i < len / 4 ==> a + 4 * i in now && now[a + 4 * i] == Some(DEADBEEF))
    && (forall x :: !(a <= x < a + len) ==> (x in was <==> x in now) && (x in was ==> now[x] == was[x]))
  }

  class KHeap {
    var sizebases: seq<Option<Ref>>
    var allbase: Option<Ref>
    var nextSame: map<Ref, Option<Ref>>
    var nextAll: map<Ref, Option<Ref>>
    var refs: map<Ref, Pageref>
    /** Memory by address: the link in the first word of a free block, anything at all in a live one. */
    var mem: map<nat, Option<nat>>
    const roots: Roots

    ghost var allList: seq<Ref>
    ghost var free: map<Ref, seq<nat>>
    ghost var live: map<nat, Live>

    ghost predicate Lists()
      reads `sizebases, `nextSame, `allbase, `nextAll, `allList, `refs
    {
      ListsOk(sizebases, nextSame, allbase, nextAll, allList, refs)
    }

    ghost predicate Pages()
      reads `allList, `refs, `free, `mem, `live
    {
      PagesOk(allList, refs, free, mem, live)
    }

    /** Listed records are marked in the bitmap and their root has its page. */
    ghost predicate Records()
      reads `allList, roots
    {
      && roots.Valid()
      && (forall r :: r in allList ==> r in roots.Used() && roots.pages[r / PER_PAGE] != None)
    }

    ghost predicate Valid()
      reads this, roots
    {
      Lists() && Pages() && Records() && NoneWhollyFree(allList, refs, None)
    }

    /** The data pages in hand. */
    ghost function DataPages(): set<nat>
      reads `allList, `refs
    {
      PagesOf(allList, refs)
    }

    constructor ()
      ensures Valid() && live == map[] && allList == [] && roots.Used() == {} && roots.pages == seq(NROOTS, _ => None)
      ensures fresh(roots)
    {
      sizebases, allbase := seq(NSIZES, _ => None), None;
      nextSame, nextAll, refs, mem := map[], map[], map[], map[];
      allList, free, live := [], map[], map[];
      roots := new Roots();
    }

    /**
     * The code after `doalloc`: pops the first free block of r's page.  r may be
     * a page just added, with no block out yet.
     */
    method DoAlloc(r: Ref, ghost sz: nat) returns (ptr: nat)
      requires Lists() && Pages() && NoneWhollyFree(allList, refs, Some(r))
      requires r in allList && refs[r].nfree > 0 && sz <= Size(refs[r].blktype)
      modifies `refs, `free, `live
      ensures Lists() && Pages() && NoneWhollyFree(allList, refs, None) && DataPages() == old(DataPages())
      ensures ptr !in old(live) && live == old(live)[ptr := Live(r, sz)] && OnPage(old(refs[r].page), ptr)
      ensures r in refs && refs[r].blktype == old(refs[r].blktype)
    {
      PopBlock(allList, refs, free, mem, live, r, sz);
      ghost var first := free[r][0];
      ptr := refs[r].page + refs[r].freeOffset;
      assert ptr == first;
      var pr := Popped(refs[r], mem[ptr]);
      ListsIgnoreCounts(sizebases, nextSame, allbase, nextAll, allList, refs, r, pr);
      PagesOfKept(allList, refs, refs[r := pr]);
      StoreAlloc(r, pr, ptr, sz);
    }

    /** The assignments of an allocation. */
    method StoreAlloc(r: Ref, pr: Pageref, ghost ptr: nat, ghost sz: nat)
      requires r in free && free[r] != []
      modifies `refs, `free, `live
      ensures refs == old(refs)[r := pr]
      ensures free == old(free)[r := old(free)[r][1..]] && live == old(live)[ptr := Live(r, sz)]
    {
      refs := refs[r := pr];
      free, live := free[r := free[r][1..]], live[ptr := Live(r, sz)];
    }

    /** The search of a size list: its first page with a free block. */
    method FindPage(b: nat) returns (found: Option<Ref>)
      requires Lists() && b < NSIZES
      ensures found != None ==> found.value in allList && found.value in refs
      ensures found != None ==> refs[found.value].blktype == b && refs[found.value].nfree > 0
      ensures found == FirstFree(OfType(allList, refs, b), refs)
    {
      var pr := sizebases[b];
      ghost var sized := OfType(allList, refs, b);
      OfTypeElements(allList, refs, b);
      ghost var k := 0;
      assert sized[0..] == sized;
      while pr != None
        invariant k <= |sized| && Chain(pr, nextSame, sized[k..])
        invariant FirstFree(sized, refs) == FirstFree(sized[k..], refs)
        decreases |sized| - k
      {
        var r := pr.value;
        assert r == sized[k] && r in sized;
        if refs[r].nfree > 0 {
          return pr;
        }
        assert sized[k..][1..] == sized[k + 1..];
        k, pr := k + 1, nextSame[r];
      }
      return None;
    }

    /**
     * subpage_kmalloc up to its search: the first page of the right size with a
     * free block serves the request; when there is none, nothing has changed.
     */
    method TryAlloc(sz: nat) returns (ptr: Option<nat>)
      requires Valid() && sz <= LARGEST_SUBPAGE_SIZE
      modifies `refs, `free, `live
      ensures Valid() && DataPages() == old(DataPages())
      ensures ptr != None ==> ptr.value !in old(live) && ptr.value in live && live[ptr.value].size == sz
      ensures ptr != None ==> live == old(live)[ptr.value := live[ptr.value]]
      ensures ptr == None ==> refs == old(refs) && free == old(free) && live == old(live)
      ensures (if ptr == None then None else Some(live[ptr.value].ref)) == FirstRoom(allList, old(refs), sz)
      ensures ptr != None ==> Suits(sz, live[ptr.value].ref, refs)
    {
      var b := BlockType(sz);
      var found := FindPage(b.value);
      RoomOnSizeList(allList, refs, sz, b.value);
      if found == None {
        return None;
      }
      var p := DoAlloc(found.value, sz);
      return Some(p);
    }

    /** allocpageref, first part: takes a record out of the bitmap. */
    method TakeRecord() returns (r: Option<Ref>)
      requires Valid()
      modifies roots`inuse, roots`numinuse
      ensures Valid() && roots.pages == old(roots.pages)
      ensures r == None ==> roots.Used() == old(roots.Used()) && forall x: Ref :: x in old(roots.Used())
      ensures r != None ==> r.value !in old(roots.Used()) && roots.Used() == old(roots.Used()) + {r.value}
      ensures r != None ==> r.value !in allList && forall x: Ref :: x < r.value ==> x in old(roots.Used())
    {
      r := roots.Reserve();
    }

    /** allocpagerefpage, after its page arrived; false means somebody else was first and the page goes back. */
    method SupplyRecordPage(r: Ref, va: nat) returns (kept: bool)
      requires Valid() && PageAddress(va) && Some(va) !in roots.pages
      modifies roots`pages
      ensures Valid() && roots.Used() == old(roots.Used())
      ensures kept <==> old(roots.pages)[r / PER_PAGE] == None
      ensures roots.pages == if kept then old(roots.pages)[r / PER_PAGE := Some(va)] else old(roots.pages)
    {
      kept := roots.SupplyPage(r, va);
    }

    /**
     * subpage_kmalloc after the record is in hand: fills it in for the new page,
     * threads the page's free list, links the record into both lists and serves
     * the request from it.  alloc_kpages promises a page that is not in use.
     */
    method AddPageAndAlloc(r: Ref, page: nat, sz: nat) returns (ptr: nat)
      requires Valid() && sz <= LARGEST_SUBPAGE_SIZE
      requires r in roots.Used() && r !in allList && roots.pages[r / PER_PAGE] != None
      requires page > 0 && page % PAGE_SIZE == 0 && page !in DataPages()
      modifies `sizebases, `allbase, `nextSame, `nextAll, `refs, `mem, `allList, `free, `live
      ensures Valid() && DataPages() == old(DataPages()) + {page} && allList == [r] + old(allList)
      ensures ptr !in old(live) && live == old(live)[ptr := Live(r, sz)] && OnPage(page, ptr)
      ensures Suits(sz, r, refs) && AgreeOff(page, old(mem), mem)
    {
      FormatPage(r, page, sz);
      ptr := DoAlloc(r, sz);
    }

    /** The part of it before the jump to doalloc. */
    method FormatPage(r: Ref, page: nat, sz: nat)
      requires Valid() && sz <= LARGEST_SUBPAGE_SIZE
      requires r in roots.Used() && r !in allList && roots.pages[r / PER_PAGE] != None
      requires page > 0 && page % PAGE_SIZE == 0 && page !in DataPages()
      modifies `sizebases, `allbase, `nextSame, `nextAll, `refs, `mem, `allList, `free
      ensures Lists() && Pages() && Records() && NoneWhollyFree(allList, refs, Some(r))
      ensures DataPages() == old(DataPages()) + {page} && allList == [r] + old(allList)
      ensures r in allList && refs[r].page == page && Fits(sz, refs[r].blktype) && refs[r].nfree > 0
      ensures AgreeOff(page, old(mem), mem)
    {
      var b := BlockType(sz);
      SizeFacts(b.value);
      var pr, mem', fl := ThreadPage(page, b.value, mem);
      LinkPage(r, pr, mem', fl);
    }

    /** The assignments that put a filled-in record at the front of both lists. */
    method LinkRecord(r: Ref, pr: Pageref, mem': map<nat, Option<nat>>, ghost fl: seq<nat>)
      requires |sizebases| == NSIZES && pr.blktype < NSIZES
      modifies `refs, `sizebases, `allbase, `nextSame, `nextAll, `mem, `free, `allList
      ensures sizebases == old(sizebases)[pr.blktype := Some(r)] && allbase == Some(r)
      ensures nextSame == old(nextSame)[r := old(sizebases)[pr.blktype]] && nextAll == old(nextAll)[r := old(allbase)]
      ensures refs == old(refs)[r := pr] && mem == mem' && free == old(free)[r := fl] && allList == [r] + old(allList)
    {
      refs := refs[r := pr];
      nextSame := nextSame[r := sizebases[pr.blktype]];
      sizebases := sizebases[pr.blktype := Some(r)];
      nextAll := nextAll[r := allbase];
      allbase := Some(r);
      mem, free, allList := mem', free[r := fl], [r] + allList;
    }

    /** They do what is wanted of them. */
    method LinkFormatted(r: Ref, pr: Pageref, mem': map<nat, Option<nat>>, ghost fl: seq<nat>)
      requires |sizebases| == NSIZES && pr.blktype < NSIZES
      requires ListsOk(sizebases[pr.blktype := Some(r)], nextSame[r := sizebases[pr.blktype]],
                       Some(r), nextAll[r := allbase], [r] + allList, refs[r := pr])
      requires PagesOk([r] + allList, refs[r := pr], free[r := fl], mem', live)
      requires PagesOf([r] + allList, refs[r := pr]) == DataPages() + {pr.page}
      modifies `refs, `sizebases, `allbase, `nextSame, `nextAll, `mem, `free, `allList
      ensures Lists() && Pages() && DataPages() == old(DataPages()) + {pr.page}
      ensures refs == old(refs)[r := pr] && allList == [r] + old(allList) && mem == mem'
    {
      LinkRecord(r, pr, mem', fl);
    }

    method LinkPage(r: Ref, pr: Pageref, mem': map<nat, Option<nat>>, ghost fl: seq<nat>)
      requires Valid() && r in roots.Used() && r !in allList && roots.pages[r / PER_PAGE] != None
      requires PageOk(pr, fl, mem') && pr.nfree == Count(pr.blktype) && AgreeOff(pr.page, mem, mem')
      requires pr.page !in DataPages()
      modifies `sizebases, `allbase, `nextSame, `nextAll, `refs, `mem, `allList, `free
      ensures Lists() && Pages() && Records() && NoneWhollyFree(allList, refs, Some(r))
      ensures allList == [r] + old(allList) && refs == old(refs)[r := pr] && mem == mem'
      ensures DataPages() == old(DataPages()) + {pr.page}
    {
      NewPage(r, pr, mem', fl);
      PushLists(sizebases, nextSame, allbase, nextAll, allList, refs, r, pr);
      LinkFormatted(r, pr, mem', fl);
    }

    /** A page that is not in hand joins the others. */
    lemma NewPage(r: Ref, pr: Pageref, mem': map<nat, Option<nat>>, fl: seq<nat>)
      requires Pages() && r !in allList && pr.page !in DataPages()
      requires PageOk(pr, fl, mem') && pr.nfree == Count(pr.blktype) && AgreeOff(pr.page, mem, mem')
      ensures PagesOk([r] + allList, refs[r := pr], free[r := fl], mem', live)
      ensures PagesOf([r] + allList, refs[r := pr]) == DataPages() + {pr.page}
    {
      PagesOfHas(allList, refs);
      PagesOfPush(allList, refs, r, pr);
      AddPage(allList, refs, free, mem, live, r, pr, fl, mem');
    }

    /** A client stores into its own block. */
    method ClientWrite(a: nat, x: nat, v: Option<nat>)
      requires Valid() && a in live && live[a].ref in refs
      requires a <= x < a + Size(refs[live[a].ref].blktype)
      modifies `mem
      ensures Valid() && mem == old(mem)[x := v]
    {
      WriteInside(allList, refs, free, mem, live, a, x, v);
      mem := mem[x := v];
    }

    /** The search of subpage_kfree: the record of the page the address lies on. */
    method FindOwner(ptr: nat) returns (found: Option<Ref>)
      requires Lists() && forall r :: r in allList ==> r in refs
      ensures found != None ==> found.value in allList && OnPage(refs[found.value].page, ptr)
      ensures found == None ==> forall r :: r in allList ==> !OnPage(refs[r].page, ptr)
    {
      var pr := allbase;
      ghost var done, rest := [], allList;
      while pr != None
        invariant allList == done + rest && Chain(pr, nextAll, rest)
        invariant forall r :: r in done ==> !OnPage(refs[r].page, ptr)
        decreases |rest|
      {
        var r := pr.value;
        assert r in allList;
        if refs[r].page <= ptr && ptr < refs[r].page + PAGE_SIZE {
          return pr;
        }
        done, rest, pr := done + [r], rest[1..], nextAll[r];
      }
      return None;
    }

    /** Where an address handed to kfree lies. */
    method Locate(ptr: nat) returns (place: Place)
      requires Lists() && Pages()
      ensures place == OffHeap <==> forall r :: r in allList ==> !OnPage(refs[r].page, ptr)
      ensures place.Block? <==> exists r :: r in allList && Slot(refs[r].page, refs[r].blktype, ptr)
      ensures place.Block? ==> place.ref in allList && Slot(refs[place.ref].page, refs[place.ref].blktype, ptr)
    {
      var owner := FindOwner(ptr);
      if owner == None {
        return OffHeap;
      }
      var pr := refs[owner.value];
      var offset := ptr - pr.page;
      SlotTest(pr.page, pr.blktype, ptr);
      if offset >= PAGE_SIZE || offset % Size(pr.blktype) != 0 {
        forall r | r in allList ensures !Slot(refs[r].page, refs[r].blktype, ptr) {
          if OnPage(refs[r].page, ptr) {
            OnePage(refs[r].page, pr.page, ptr);
          }
        }
        return Misplaced;
      }
      return Place.Block(owner.value);
    }

    /** The memory after a live block is filled with 0xdeadbeef and given its link. */
    method FreedMemory(r: Ref, ptr: nat) returns (mem': map<nat, Option<nat>>)
      requires Pages() && r in allList && Slot(refs[r].page, refs[r].blktype, ptr) && ptr in live
      ensures refs[r].nfree + 1 <= Count(refs[r].blktype)
      ensures PagesOk(allList, refs[r := Pushed(refs[r], ptr)], free[r := [ptr] + free[r]], mem', live - {ptr})
      ensures Scrubbed(mem, mem', ptr, Size(refs[r].blktype))
    {
      var filled := FillDeadbeef(mem, ptr, Size(refs[r].blktype));
      mem' := filled[ptr := FreeHead(refs[r])];
      FillSafe(allList, refs, free, mem, live, r, ptr, mem');
      PushBlock(allList, refs, free, mem, live, r, ptr, mem');
    }

    /** The record and the memory after a live block is freed, and whether its page is then wholly free. */
    method PrepareFree(r: Ref, ptr: nat) returns (pr: Pageref, mem': map<nat, Option<nat>>, whole: bool)
      requires Lists() && Pages() && NoneWhollyFree(allList, refs, None)
      requires r in allList && Slot(refs[r].page, refs[r].blktype, ptr) && ptr in live
      ensures pr == Pushed(refs[r], ptr) && (whole <==> pr.nfree == Count(pr.blktype))
      ensures ListsOk(sizebases, nextSame, allbase, nextAll, allList, refs[r := pr])
      ensures PagesOk(allList, refs[r := pr], free[r := [ptr] + free[r]], mem', live - {ptr})
      ensures NoneWhollyFree(allList, refs[r := pr], if whole then Some(r) else None)
      ensures PagesOf(allList, refs[r := pr]) == DataPages()
      ensures whole <==> NoneLive(r, live - {ptr})
      ensures Scrubbed(mem, mem', ptr, Size(refs[r].blktype))
    {
      SizeFacts(refs[r].blktype);
      mem' := FreedMemory(r, ptr);
      pr := Pushed(refs[r], ptr);
      WhollyFreeIff(allList, refs[r := pr], free[r := [ptr] + free[r]], mem', live - {ptr}, r);
      StillInService(allList, refs, r, pr);
      ListsIgnoreCounts(sizebases, nextSame, allbase, nextAll, allList, refs, r, pr);
      PagesOfKept(allList, refs, refs[r := pr]);
      whole := pr.nfree == PAGE_SIZE / Size(pr.blktype);
    }

    /** Puts a live block back on its page's free list. */
    method PushFree(r: Ref, ptr: nat) returns (whole: bool)
      requires Lists() && Pages() && NoneWhollyFree(allList, refs, None)
      requires r in allList && Slot(refs[r].page, refs[r].blktype, ptr) && ptr in live
      modifies `refs, `mem, `free, `live
      ensures Lists() && Pages() && NoneWhollyFree(allList, refs, if whole then Some(r) else None)
      ensures live == old(live) - {ptr} && DataPages() == old(DataPages())
      ensures r in refs && refs[r].page == old(refs[r].page)
      ensures whole <==> refs[r].nfree == Count(refs[r].blktype)
      ensures whole <==> NoneLive(r, live)
      ensures Scrubbed(old(mem), mem, ptr, Size(old(refs[r].blktype)))
    {
      var pr, mem', full := PrepareFree(r, ptr);
      StoreFree(r, pr, mem', ptr, if full then Some(r) else None);
      return full;
    }

    /** The assignments of a free. */
    method StoreFree(r: Ref, pr: Pageref, mem': map<nat, Option<nat>>, ghost ptr: nat, ghost except: Option<Ref>)
      requires r in free && ListsOk(sizebases, nextSame, allbase, nextAll, allList, refs[r := pr])
      requires PagesOk(allList, refs[r := pr], free[r := [ptr] + free[r]], mem', live - {ptr})
      requires NoneWhollyFree(allList, refs[r := pr], except) && PagesOf(allList, refs[r := pr]) == DataPages()
      modifies `refs, `mem, `free, `live
      ensures Lists() && Pages() && NoneWhollyFree(allList, refs, except) && DataPages() == old(DataPages())
      ensures refs == old(refs)[r := pr] && live == old(live) - {ptr} && mem == mem'
    {
      mem, refs := mem', refs[r := pr];
      free, live := free[r := [ptr] + free[r]], live - {ptr};
    }

    /** remove_lists. */
    method UnlinkBoth(r: Ref)
      requires Lists() && r in allList && r in refs && refs[r].blktype < NSIZES
      modifies `sizebases, `allbase, `nextSame, `nextAll, `allList
      ensures Lists() && allList == Without(old(allList), r)
    {
      var b := refs[r].blktype;
      OfTypeElements(allList, refs, b);
      var head, same := Unlink(sizebases[b], nextSame, r, OfType(allList, refs, b));
      var base, all := Unlink(allbase, nextAll, r, allList);
      RemoveLists(sizebases, nextSame, allbase, nextAll, allList, refs, r, head, same, base, all);
      sizebases, nextSame := sizebases[b := head], same;
      allbase, nextAll, allList := base, all, Without(allList, r);
    }

    /** A wholly free page leaves the heap. */
    method TakeOffLists(r: Ref)
      requires Lists() && Pages() && NoneWhollyFree(allList, refs, Some(r))
      requires r in allList && refs[r].nfree == Count(refs[r].blktype)
      modifies `sizebases, `allbase, `nextSame, `nextAll, `allList
      ensures Lists() && Pages() && NoneWhollyFree(allList, refs, None)
      ensures allList == Without(old(allList), r) && DataPages() == old(DataPages()) - {refs[r].page}
    {
      PagesOfDrop(allList, refs, r);
      DropPage(allList, refs, free, mem, live, r);
      WithoutElements(allList, r);
      UnlinkBoth(r);
    }

    /**
     * The rest of subpage_kfree but for freepageref: the block goes back to its page,
     * and the page leaves the heap exactly when that was its last live block.
     */
    method ReleaseBlock(r: Ref, ptr: nat) returns (whole: bool)
      requires Lists() && Pages() && NoneWhollyFree(allList, refs, None)
      requires r in allList && Slot(refs[r].page, refs[r].blktype, ptr) && ptr in live
      modifies `sizebases, `allbase, `nextSame, `nextAll, `refs, `mem, `allList, `free, `live
      ensures Lists() && Pages() && NoneWhollyFree(allList, refs, None) && live == old(live) - {ptr}
      ensures whole <==> NoneLive(r, live)
      ensures allList == if whole then Without(old(allList), r) else old(allList)
      ensures DataPages() == if whole then old(DataPages()) - {old(refs)[r].page} else old(DataPages())
      ensures Scrubbed(old(mem), mem, ptr, Size(old(refs[r].blktype)))
    {
      whole := PushFree(r, ptr);
      if whole {
        TakeOffLists(r);
      }
    }

    /**
     * kfree.  The caller's side of the bargain is not to free a block twice: at the
     * start of a block the address is that of a live one.  Null is ignored, an
     * address off every heap page is taken for whole pages and must be aligned, and
     * one inside a heap page must start a block.
     */
    method Kfree(ptr: nat) returns (result: KfreeResult)
      requires Valid() && forall r :: r in allList && Slot(refs[r].page, refs[r].blktype, ptr) ==> ptr in live
      modifies `sizebases, `allbase, `nextSame, `nextAll, `refs, `mem, `allList, `free, `live
      modifies roots`inuse, roots`numinuse
      ensures Valid() && (ptr == 0 <==> result == Ignored)
      ensures result.Subpage? <==> ptr in old(live)
      ensures result.WholePagesFreed? ==> result.address == ptr
      ensures ptr != 0 && ptr !in old(live) ==>
                (result.WholePagesFreed? <==>
                   ptr % PAGE_SIZE == 0 && forall r :: r in old(allList) ==> !OnPage(old(refs)[r].page, ptr))
      ensures !result.Subpage? ==> live == old(live) && DataPages() == old(DataPages())
      ensures !result.Subpage? ==> allList == old(allList) && roots.Used() == old(roots.Used()) && mem == old(mem)
      ensures result.Subpage? ==>
                && live == old(live) - {ptr}
                && var r := old(live)[ptr].ref;
                   && r in old(refs) && Scrubbed(old(mem), mem, ptr, Size(old(refs)[r].blktype))
                   && Settled(result.how, r, old(refs)[r].page, old(allList), allList,
                              old(roots.Used()), roots.Used(), old(DataPages()), DataPages())
      ensures result.Subpage? && result.how.FreedPage? ==> forall a :: a in live ==> !OnPage(result.how.page, a)
      ensures result == Subpage(RootWithoutPage) <==>
                && ptr in old(live)
                && var r := old(live)[ptr].ref;
                   NoneLive(r, live) && !old(roots.LowerRootsSound(r))
    {
      if ptr in live {
        LiveIsLocated(allList, refs, free, mem, live, ptr);
      }
      if ptr == 0 {
        return Ignored;
      }
      var place := Classify(ptr);
      match place {
        case OffHeap =>
          return if ptr % PAGE_SIZE == 0 then WholePagesFreed(ptr) else BadAddress;
        case Misplaced =>
          return BadAddress;
        case Block(r) =>
          var how := FreeBlock(r, ptr);
          return Subpage(how);
      }
    }

    /** Where the address of a live block, or of none, lies. */
    method Classify(ptr: nat) returns (place: Place)
      requires Lists() && Pages()
      requires forall r :: r in allList && Slot(refs[r].page, refs[r].blktype, ptr) ==> ptr in live
      ensures place == OffHeap <==> forall r :: r in allList ==> !OnPage(refs[r].page, ptr)
      ensures place.Block? <==> ptr in live
      ensures place.Block? ==> place.ref in allList && Slot(refs[place.ref].page, refs[place.ref].blktype, ptr)
      ensures place.Block? ==> place.ref == live[ptr].ref && ptr != 0
    {
      if ptr in live {
        LiveIsLocated(allList, refs, free, mem, live, ptr);
      }
      place := Locate(ptr);
      if place.Block? {
        OneOwner(allList, refs, free, mem, live, place.ref, ptr);
      }
    }

    /** freepageref for a record that has left the lists. */
    method FreePageref(r: Ref) returns (ok: bool)
      requires Valid() && r in roots.Used() && r !in allList && roots.pages[r / PER_PAGE] != None
      modifies roots`inuse, roots`numinuse
      ensures Valid() && (ok <==> old(roots.LowerRootsSound(r)))
      ensures roots.Used() == if ok then old(roots.Used()) - {r} else old(roots.Used())
    {
      ok := roots.Release(r);
    }

    /** A page goes back only when no live block is on it; its record goes back to the bitmap then. */
    method FreeBlock(r: Ref, ptr: nat) returns (how: FreeResult)
      requires Valid() && r in allList && Slot(refs[r].page, refs[r].blktype, ptr) && ptr in live
      modifies `sizebases, `allbase, `nextSame, `nextAll, `refs, `mem, `allList, `free, `live
      modifies roots`inuse, roots`numinuse
      ensures Valid() && live == old(live) - {ptr}
      ensures how.FreedPage? ==> forall a :: a in live ==> !OnPage(how.page, a)
      ensures how == RootWithoutPage <==> NoneLive(r, live) && !old(roots.LowerRootsSound(r))
      ensures Settled(how, r, old(refs)[r].page, old(allList), allList,
                      old(roots.Used()), roots.Used(), old(DataPages()), DataPages())
      ensures Scrubbed(old(mem), mem, ptr, Size(old(refs[r].blktype)))
    {
      var page := refs[r].page;
      WithoutElements(allList, r);
      var whole := ReleaseBlock(r, ptr);
      if !whole {
        return Freed;
      }
      NoneLiveOn(allList, refs, free, mem, live, page);
      var ok := FreePageref(r);
      return if ok then FreedPage(page) else RootWithoutPage;
    }

    /**
     * kmalloc run by itself: page is what alloc_kpages(1) would return (0 when
     * memory is out), and recordPage the same for a page of records.
     */
    method Kmalloc(sz: nat, page: nat, recordPage: nat) returns (result: AllocResult)
      requires Valid() && page % PAGE_SIZE == 0 && page !in DataPages()
      requires recordPage > 0 ==> PageAddress(recordPage) && Some(recordPage) !in roots.pages
      modifies this, roots
      ensures Valid()
      ensures result.WholePages? <==> sz >= LARGEST_SUBPAGE_SIZE
      ensures result.WholePages? ==> result.npages == PagesFor(sz)
      ensures !result.Block? ==> live == old(live) && DataPages() == old(DataPages())
      ensures result.Block? ==> result.ptr !in old(live) && result.ptr in live && live[result.ptr].size == sz
      ensures result.Block? ==> live == old(live)[result.ptr := live[result.ptr]]
      ensures result.Block? ==> DataPages() == old(DataPages()) || DataPages() == old(DataPages()) + {page}
      ensures result == NoMemory ==> page == 0 || recordPage == 0 || forall x: Ref :: x in roots.Used()
      ensures RecordsTaken(old(roots.Used()), roots.Used(), roots.pages,
                           result.NoMemory? && page > 0 && recordPage == 0)
      ensures !result.Block? ==> allList == old(allList)
      ensures result.Block? ==> TakenIsListed(old(roots.Used()), roots.Used(), old(allList), allList)
      ensures result.Block? ==> Suits(sz, live[result.ptr].ref, refs)
      ensures if DataPages() == old(DataPages()) then mem == old(mem) else AgreeOff(page, old(mem), mem)
      ensures sz < LARGEST_SUBPAGE_SIZE ==>
                var room := FirstRoom(old(allList), old(refs), sz);
                if room != None then
                  && result.Block? && live[result.ptr].ref == room.value
                  && allList == old(allList) && DataPages() == old(DataPages()) && roots.Used() == old(roots.Used())
                else if page == 0 || NoRecord(recordPage, old(roots.Used()), old(roots.pages)) then
                  result == NoMemory
                else
                  result.Block? && Listed(live[result.ptr].ref, page, old(roots.Used()), roots.Used(),
                                          old(allList), allList, old(DataPages()), DataPages())
    {
      if sz >= LARGEST_SUBPAGE_SIZE {
        return WholePages(PagesFor(sz));
      }
      var ptr := TryAlloc(sz);
      if ptr != None {
        return AllocResult.Block(ptr.value);
      }
      if page == 0 {
        return NoMemory;
      }
      result := AllocOnNewPage(sz, page, recordPage);
    }

    /** allocpageref: the first record not in use, with a page for its root. */
    method AllocPageref(recordPage: nat) returns (r: Option<Ref>)
      requires Valid()
      requires recordPage > 0 ==> PageAddress(recordPage) && Some(recordPage) !in roots.pages
      modifies roots
      ensures Valid() && (r == None <==> NoRecord(recordPage, old(roots.Used()), old(roots.pages)))
      ensures r == None ==> recordPage == 0 || forall x: Ref :: x in roots.Used()
      ensures r != None ==> FirstUnused(r.value, old(roots.Used())) && roots.Used() == old(roots.Used()) + {r.value}
      ensures r != None ==> r.value !in allList && roots.pages[r.value / PER_PAGE] != None
      ensures RecordsTaken(old(roots.Used()), roots.Used(), roots.pages, r == None && recordPage == 0)
    {
      r := TakeRecord();
      if r != None && roots.pages[r.value / PER_PAGE] == None {
        if recordPage == 0 {
          return None;
        }
        var _ := SupplyRecordPage(r.value, recordPage);
      }
    }

    /** The part of kmalloc that needs a new page. */
    method AllocOnNewPage(sz: nat, page: nat, recordPage: nat) returns (result: AllocResult)
      requires Valid() && sz < LARGEST_SUBPAGE_SIZE && page > 0 && page % PAGE_SIZE == 0 && page !in DataPages()
      requires recordPage > 0 ==> PageAddress(recordPage) && Some(recordPage) !in roots.pages
      modifies this, roots
      ensures Valid() && !result.WholePages?
      ensures result == NoMemory ==> live == old(live) && DataPages() == old(DataPages())
      ensures result == NoMemory ==> recordPage == 0 || forall x: Ref :: x in roots.Used()
      ensures result.Block? ==> result.ptr !in old(live) && result.ptr in live && live[result.ptr].size == sz
      ensures result.Block? ==> live == old(live)[result.ptr := live[result.ptr]]
      ensures result.Block? ==> DataPages() == old(DataPages()) + {page}
      ensures RecordsTaken(old(roots.Used()), roots.Used(), roots.pages, result.NoMemory? && recordPage == 0)
      ensures !result.Block? ==> allList == old(allList)
      ensures result.Block? ==> TakenIsListed(old(roots.Used()), roots.Used(), old(allList), allList)
      ensures result.Block? ==> Suits(sz, live[result.ptr].ref, refs)
      ensures result.Block? <==> !NoRecord(recordPage, old(roots.Used()), old(roots.pages))
      ensures if result.Block? then AgreeOff(page, old(mem), mem) else mem == old(mem)
      ensures result.Block? ==> Listed(live[result.ptr].ref, page, old(roots.Used()), roots.Used(),
                                       old(allList), allList, old(DataPages()), DataPages())
    {
      var r := AllocPageref(recordPage);
      if r == None {
        return NoMemory;
      }
      var ptr := AddPageAndAlloc(r.value, page, sz);
      return AllocResult.Block(ptr);
    }

    /** When every block has been freed, both kinds of list are empty and no data page is in hand. */
    lemma EmptyWhenAllFreed()
      requires Valid() && live == map[]
      ensures allList == [] && allbase == None && DataPages() == {}
      ensures forall b :: 0 <= b < NSIZES ==> sizebases[b] == None
    {
      if allList != [] {
        assert InService(refs[allList[0]]);
        WhollyFreeIff(allList, refs, free, mem, live, allList[0]);
      }
    }
  }

  // ------------------------------------------------------------------------
  // Clearing a freed block
  // ------------------------------------------------------------------------

  /** fill_deadbeef: every word of the block, and nothing else. */
  method FillDeadbeef(mem: map<nat, Option<nat>>, a: nat, len: nat) returns (mem': map<nat, Option<nat>>)
    ensures forall i :: 0 <= i < len / 4 ==> a + 4 * i in mem' && mem'[a + 4 * i] == Some(DEADBEEF)
    ensures forall x :: !(a <= x < a + len) ==> (x in mem <==> x in mem') && (x in mem ==> mem'[x] == mem[x])
  {
    mem' := mem;
    var i := 0;
    while i < len / 4
      invariant i <= len / 4
      invariant forall j :: 0 <= j < i ==> a + 4 * j in mem' && mem'[a + 4 * j] == Some(DEADBEEF)
      invariant forall x :: !(a <= x < a + len) ==> (x in mem <==> x in mem') && (x in mem ==> mem'[x] == mem[x])
    {
      mem' := mem'[a + 4 * i := Some(DEADBEEF)];
      i := i + 1;
    }
  }

  lemma FillSafe(list: seq<Ref>, refs: map<Ref, Pageref>, free: map<Ref, seq<nat>>,
                 mem: map<nat, Option<nat>>, live: map<nat, Live>, r: Ref, a: nat, mem': map<nat, Option<nat>>)
    requires PagesOk(list, refs, free, mem, live) && r in list
    requires a in live && Slot(refs[r].page, refs[r].blktype, a)
    requires forall x :: !(a <= x < a + Size(refs[r].blktype)) ==>
               (x in mem <==> x in mem') && (x in mem ==> mem'[x] == mem[x])
    ensures AgreeOff(refs[r].page, mem, mem')
    ensures forall x :: x in free[r] && x in mem ==> x in mem' && mem'[x] == mem[x]
    ensures FreeHead(refs[r]) != Some(a)
  {
    SlotFits(refs[r].page, refs[r].blktype, a);
    LiveOnPage(list, refs, free, mem, live, r);
    assert PageOk(refs[r], free[r], mem) && Split(refs[r], free[r], live);
    forall x | x in free[r] ensures !(a <= x < a + Size(refs[r].blktype)) {
      if a <= x < a + Size(refs[r].blktype) {
        LiveAvoidsFree(list, refs, free, mem, live, a, x, r);
      }
    }
  }
}
