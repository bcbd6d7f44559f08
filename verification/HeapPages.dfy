/** The data pages of the kernel heap: what a page record says about the page it describes. */
module HeapPages {
  import opened Chains
  import opened Blocks
  import opened Pagerefs

  const INVALID_OFFSET: nat := 0xffff

  /** struct pageref without its two links. */
  datatype Pageref = Pageref(page: nat, blktype: nat, freeOffset: nat, nfree: nat)

  /** A block handed out: the record of its page and the size asked for. */
  datatype Live = Live(ref: Ref, size: nat)

  function FreeHead(pr: Pageref): Option<nat> {
    if pr.freeOffset == INVALID_OFFSET then None else Some(pr.page + pr.freeOffset)
  }

  /** A page record agrees with the free list threaded through its page. */
  ghost predicate PageOk(pr: Pageref, free: seq<nat>, mem: map<nat, Option<nat>>) {
    && pr.page > 0 && pr.page % PAGE_SIZE == 0 && pr.blktype < NSIZES
    && (pr.freeOffset == INVALID_OFFSET || pr.freeOffset < PAGE_SIZE)
    && pr.nfree == |free|
    && Distinct<nat>(free)
    && (forall a :: a in free ==> Slot(pr.page, pr.blktype, a))
    && Chain<nat>(FreeHead(pr), mem, free)
  }

  /** The offset is INVALID_OFFSET exactly when nothing is free. */
  lemma InvalidWhenNoneFree(pr: Pageref, free: seq<nat>, mem: map<nat, Option<nat>>)
    requires PageOk(pr, free, mem)
    ensures pr.freeOffset == INVALID_OFFSET <==> pr.nfree == 0
  {
    assert free == [] <==> FreeHead(pr) == None;
  }

  /** Every block of the page is free or live, never both. */
  ghost predicate Split(pr: Pageref, free: seq<nat>, live: map<nat, Live>) {
    forall a :: Slot(pr.page, pr.blktype, a) ==> (a in free <==> a !in live)
  }

  /** A live block sits on a page of the heap and is as large as was asked for. */
  ghost predicate LiveOk(list: seq<Ref>, refs: map<Ref, Pageref>, a: nat, l: Live) {
    && l.ref in list && l.ref in refs && refs[l.ref].blktype < NSIZES
    && Slot(refs[l.ref].page, refs[l.ref].blktype, a)
    && l.size <= Size(refs[l.ref].blktype)
  }

  ghost predicate PagesOk(list: seq<Ref>, refs: map<Ref, Pageref>, free: map<Ref, seq<nat>>,
                          mem: map<nat, Option<nat>>, live: map<nat, Live>)
  {
    && (forall r :: r in list ==> r in refs && r in free && PageOk(refs[r], free[r], mem))
    && (forall r :: r in list ==> Split(refs[r], free[r], live))
    && (forall r, s :: r in list && s in list && r != s ==> refs[r].page != refs[s].page)
    && (forall a :: a in live ==> LiveOk(list, refs, a, live[a]))
  }

  /** The two maps agree everywhere off page p. */
  ghost predicate AgreeOff<V>(p: nat, m: map<nat, V>, m': map<nat, V>) {
    forall a :: !OnPage(p, a) ==> (a in m <==> a in m') && (a in m ==> m[a] == m'[a])
  }

  /** A block address lies on one page only. */
  lemma OnePage(p: nat, q: nat, a: nat)
    requires p % PAGE_SIZE == 0 && q % PAGE_SIZE == 0 && OnPage(p, a) && OnPage(q, a)
    ensures p == q
  {
  }

  /** A page does not notice changes confined to another page. */
  lemma OtherPage(pr: Pageref, free: seq<nat>, mem: map<nat, Option<nat>>, live: map<nat, Live>,
                  p: nat, mem': map<nat, Option<nat>>, live': map<nat, Live>)
    requires PageOk(pr, free, mem) && Split(pr, free, live)
    requires p % PAGE_SIZE == 0 && p != pr.page && AgreeOff(p, mem, mem') && AgreeOff(p, live, live')
    ensures PageOk(pr, free, mem') && Split(pr, free, live')
  {
    forall a | Slot(pr.page, pr.blktype, a) ensures !OnPage(p, a) {
      if OnPage(p, a) {
        OnePage(p, pr.page, a);
      }
    }
    ChainFrame<nat>(FreeHead(pr), mem, mem', free);
  }

  /** Live blocks on page p all belong to record r, whose type is b, and are large enough. */
  ghost predicate LiveOn(p: nat, b: nat, r: Ref, live: map<nat, Live>) {
    forall a :: a in live && OnPage(p, a) ==> live[a].ref == r && Slot(p, b, a) && live[a].size <= Size(b)
  }

  lemma OtherLive(list: seq<Ref>, refs: map<Ref, Pageref>, r: Ref, pr: Pageref, live: map<nat, Live>, live': map<nat,
                  Live>)
    requires r in list && r in refs && pr.page == refs[r].page && pr.blktype == refs[r].blktype < NSIZES
    requires forall a :: a in live ==> LiveOk(list, refs, a, live[a])
    requires AgreeOff(pr.page, live, live') && LiveOn(pr.page, pr.blktype, r, live')
    ensures forall a :: a in live' ==> LiveOk(list, refs[r := pr], a, live'[a])
  {
    forall a | a in live' ensures LiveOk(list, refs[r := pr], a, live'[a]) {
      if !OnPage(pr.page, a) {
        assert a in live && LiveOk(list, refs, a, live[a]);
      }
    }
  }

  /**
   * Replacing one record, its free list, the memory and the live map together
   * keeps the pages in order when the page itself stays in order and nothing
   * outside it changed.
   */
  lemma ReplacePage(list: seq<Ref>, refs: map<Ref, Pageref>, free: map<Ref, seq<nat>>,
                    mem: map<nat, Option<nat>>, live: map<nat, Live>,
                    r: Ref, pr: Pageref, fl: seq<nat>, mem': map<nat, Option<nat>>, live': map<nat, Live>)
    requires PagesOk(list, refs, free, mem, live) && r in list
    requires pr.page == refs[r].page && pr.blktype == refs[r].blktype
    requires PageOk(pr, fl, mem') && Split(pr, fl, live')
    requires AgreeOff(pr.page, mem, mem') && AgreeOff(pr.page, live, live')
    requires LiveOn(pr.page, pr.blktype, r, live')
    ensures PagesOk(list, refs[r := pr], free[r := fl], mem', live')
  {
    forall s | s in list && s != r
      ensures PageOk(refs[s], free[s], mem') && Split(refs[s], free[s], live')
    {
      OtherPage(refs[s], free[s], mem, live, pr.page, mem', live');
    }
    OtherLive(list, refs, r, pr, live, live');
  }

  // ------------------------------------------------------------------------
  // The changes the allocator makes
  // ------------------------------------------------------------------------

  /** What a pop leaves in the record: the link of the popped block becomes the new head. */
  function Popped(pr: Pageref, link: Option<nat>): Pageref
    requires pr.nfree > 0 && (link == None || link.value >= pr.page)
  {
    pr.(nfree := pr.nfree - 1, freeOffset := if link == None then INVALID_OFFSET else link.value - pr.page)
  }

  lemma PopPage(pr: Pageref, fl: seq<nat>, mem: map<nat, Option<nat>>, live: map<nat, Live>, l: Live)
    requires PageOk(pr, fl, mem) && Split(pr, fl, live) && pr.nfree > 0
    ensures pr.freeOffset < PAGE_SIZE && FreeHead(pr) == Some(fl[0]) && fl[0] in mem && fl[0] !in live
    ensures var link := mem[fl[0]];
            && (link != None ==> pr.nfree > 1 && OnPage(pr.page, link.value))
            && PageOk(Popped(pr, link), fl[1..], mem)
            && Split(Popped(pr, link), fl[1..], live[fl[0] := l])
    ensures pr.nfree <= Count(pr.blktype)
  {
    assert fl[0] in fl;
    var tail := fl[1..];
    assert Chain<nat>(mem[fl[0]], mem, tail);
    assert tail != [] ==> tail[0] in fl;
    SlotCount(pr.page, pr.blktype, fl);
  }

  /** Allocation takes the head of a page's free list and makes it live. */
  lemma PopBlock(list: seq<Ref>, refs: map<Ref, Pageref>, free: map<Ref, seq<nat>>,
                 mem: map<nat, Option<nat>>, live: map<nat, Live>, r: Ref, sz: nat)
    requires PagesOk(list, refs, free, mem, live) && r in list && refs[r].nfree > 0 && sz <= Size(refs[r].blktype)
    ensures var a := free[r][0];
            && refs[r].freeOffset < PAGE_SIZE && refs[r].page + refs[r].freeOffset == a && a in mem && a !in live
            && (mem[a] != None ==> refs[r].nfree > 1 && OnPage(refs[r].page, mem[a].value))
            && Popped(refs[r], mem[a]).nfree < Count(refs[r].blktype)
            && PagesOk(list, refs[r := Popped(refs[r], mem[a])], free[r := free[r][1..]], mem, live[a := Live(r, sz)])
  {
    var pr, a := refs[r], free[r][0];
    PopPage(pr, free[r], mem, live, Live(r, sz));
    assert a in free[r];
    LiveOnPage(list, refs, free, mem, live, r);
    ReplacePage(list, refs, free, mem, live, r, Popped(pr, mem[a]), free[r][1..], mem, live[a := Live(r, sz)]);
  }

  lemma LiveOnPage(list: seq<Ref>, refs: map<Ref, Pageref>, free: map<Ref, seq<nat>>,
                   mem: map<nat, Option<nat>>, live: map<nat, Live>, r: Ref)
    requires PagesOk(list, refs, free, mem, live) && r in list
    ensures LiveOn(refs[r].page, refs[r].blktype, r, live)
  {
    forall a | a in live && OnPage(refs[r].page, a)
      ensures live[a].ref == r
    {
      assert LiveOk(list, refs, a, live[a]);
      OnePage(refs[r].page, refs[live[a].ref].page, a);
    }
  }

  /** What a push leaves in the record. */
  function Pushed(pr: Pageref, a: nat): Pageref
    requires a >= pr.page
  {
    pr.(nfree := pr.nfree + 1, freeOffset := a - pr.page)
  }

  lemma PushPage(pr: Pageref, fl: seq<nat>, mem: map<nat, Option<nat>>, live: map<nat, Live>,
                 a: nat, mem': map<nat, Option<nat>>)
    requires PageOk(pr, fl, mem) && Split(pr, fl, live) && Slot(pr.page, pr.blktype, a) && a in live
    requires a in mem' && mem'[a] == FreeHead(pr)
    requires forall x :: x in fl && x in mem ==> x in mem' && mem'[x] == mem[x]
    ensures PageOk(Pushed(pr, a), [a] + fl, mem') && Split(Pushed(pr, a), [a] + fl, live - {a})
    ensures pr.nfree + 1 <= Count(pr.blktype)
  {
    ChainFrame<nat>(FreeHead(pr), mem, mem', fl);
    ChainPush<nat>(FreeHead(pr), mem', fl, a);
    assert mem'[a := FreeHead(pr)] == mem';
    SlotCount(pr.page, pr.blktype, [a] + fl);
  }

  /** Freeing puts a live block at the head of its page's free list. */
  lemma PushBlock(list: seq<Ref>, refs: map<Ref, Pageref>, free: map<Ref, seq<nat>>,
                  mem: map<nat, Option<nat>>, live: map<nat, Live>, r: Ref, a: nat, mem': map<nat, Option<nat>>)
    requires PagesOk(list, refs, free, mem, live) && r in list
    requires Slot(refs[r].page, refs[r].blktype, a) && a in live
    requires a in mem' && mem'[a] == FreeHead(refs[r]) && AgreeOff(refs[r].page, mem, mem')
    requires forall x :: x in free[r] && x in mem ==> x in mem' && mem'[x] == mem[x]
    ensures refs[r].nfree + 1 <= Count(refs[r].blktype)
    ensures PagesOk(list, refs[r := Pushed(refs[r], a)], free[r := [a] + free[r]], mem', live - {a})
  {
    PushPage(refs[r], free[r], mem, live, a, mem');
    LiveOnPage(list, refs, free, mem, live, r);
    ReplacePage(list, refs, free, mem, live, r, Pushed(refs[r], a), [a] + free[r], mem', live - {a});
  }

  /** A wholly free page holds no live block, so its record can go. */
  lemma DropPage(list: seq<Ref>, refs: map<Ref, Pageref>, free: map<Ref, seq<nat>>,
                 mem: map<nat, Option<nat>>, live: map<nat, Live>, r: Ref)
    requires PagesOk(list, refs, free, mem, live) && Distinct(list) && r in list
    requires refs[r].nfree == Count(refs[r].blktype)
    ensures PagesOk(Without(list, r), refs, free, mem, live)
  {
    WhollyFreeIff(list, refs, free, mem, live, r);
    WithoutElements(list, r);
    forall a | a in live ensures LiveOk(Without(list, r), refs, a, live[a]) {
      assert LiveOk(list, refs, a, live[a]);
    }
  }

  /** A page from elsewhere, with all its blocks on its free list, can be added. */
  lemma AddPage(list: seq<Ref>, refs: map<Ref, Pageref>, free: map<Ref, seq<nat>>,
                mem: map<nat, Option<nat>>, live: map<nat, Live>,
                r: Ref, pr: Pageref, fl: seq<nat>, mem': map<nat, Option<nat>>)
    requires PagesOk(list, refs, free, mem, live) && r !in list
    requires forall s :: s in list ==> refs[s].page != pr.page
    requires PageOk(pr, fl, mem') && pr.nfree == Count(pr.blktype) && AgreeOff(pr.page, mem, mem')
    ensures PagesOk([r] + list, refs[r := pr], free[r := fl], mem', live)
  {
    SlotCount(pr.page, pr.blktype, fl);
    forall s | s in list
      ensures PageOk(refs[s], free[s], mem') && Split(refs[s], free[s], live)
    {
      OtherPage(refs[s], free[s], mem, live, pr.page, mem', live);
    }
    forall a | a in live ensures LiveOk([r] + list, refs[r := pr], a, live[a]) && !OnPage(pr.page, a) {
      NoneLiveThere(list, refs, free, mem, live, pr.page, a);
    }
  }

  lemma NoneLiveThere(list: seq<Ref>, refs: map<Ref, Pageref>, free: map<Ref, seq<nat>>,
                      mem: map<nat, Option<nat>>, live: map<nat, Live>, page: nat, a: nat)
    requires PagesOk(list, refs, free, mem, live) && a in live
    requires page % PAGE_SIZE == 0 && forall s :: s in list ==> refs[s].page != page
    ensures LiveOk(list, refs, a, live[a]) && !OnPage(page, a)
  {
    if OnPage(page, a) {
      OnePage(page, refs[live[a].ref].page, a);
    }
  }

  // ------------------------------------------------------------------------
  // What clients may rely on
  // ------------------------------------------------------------------------

  lemma LiveIsLocated(list: seq<Ref>, refs: map<Ref, Pageref>, free: map<Ref, seq<nat>>,
                      mem: map<nat, Option<nat>>, live: map<nat, Live>, a: nat)
    requires PagesOk(list, refs, free, mem, live) && a in live
    ensures a > 0 && exists r :: r in list && Slot(refs[r].page, refs[r].blktype, a)
  {
    assert LiveOk(list, refs, a, live[a]);
  }

  /** The bytes of a live block, rounded up to its size class, meet no other live block. */
  lemma LiveDisjoint(list: seq<Ref>, refs: map<Ref, Pageref>, free: map<Ref, seq<nat>>,
                     mem: map<nat, Option<nat>>, live: map<nat, Live>, a: nat, a': nat)
    requires PagesOk(list, refs, free, mem, live) && a in live && a' in live && a < a'
    ensures live[a].size <= Size(refs[live[a].ref].blktype)
    ensures a + Size(refs[live[a].ref].blktype) <= a'
  {
    assert LiveOk(list, refs, a, live[a]) && LiveOk(list, refs, a', live[a']);
    var r, r' := live[a].ref, live[a'].ref;
    SlotFits(refs[r].page, refs[r].blktype, a);
    if r == r' {
      SlotsApart(refs[r].page, refs[r].blktype, a, a');
    } else if a' < refs[r].page + PAGE_SIZE {
      OnePage(refs[r].page, refs[r'].page, a');
    }
  }

  /** The bytes of a live block meet no free block either. */
  lemma LiveAvoidsFree(list: seq<Ref>, refs: map<Ref, Pageref>, free: map<Ref, seq<nat>>,
                       mem: map<nat, Option<nat>>, live: map<nat, Live>, a: nat, x: nat, s: Ref)
    requires PagesOk(list, refs, free, mem, live) && a in live && s in list
    requires a <= x < a + Size(refs[live[a].ref].blktype)
    ensures x !in free[s]
  {
    assert LiveOk(list, refs, a, live[a]);
    var r := live[a].ref;
    SlotFits(refs[r].page, refs[r].blktype, a);
    if x in free[s] {
      OnePage(refs[r].page, refs[s].page, x);
      assert Split(refs[r], free[r], live);
      if a < x {
        SlotsApart(refs[r].page, refs[r].blktype, a, x);
      }
    }
  }

  /** A client may write anything inside its block. */
  lemma WriteInside(list: seq<Ref>, refs: map<Ref, Pageref>, free: map<Ref, seq<nat>>,
                    mem: map<nat, Option<nat>>, live: map<nat, Live>, a: nat, x: nat, v: Option<nat>)
    requires PagesOk(list, refs, free, mem, live) && a in live
    requires a <= x < a + Size(refs[live[a].ref].blktype)
    ensures PagesOk(list, refs, free, mem[x := v], live)
  {
    forall s | s in list ensures PageOk(refs[s], free[s], mem[x := v]) {
      LiveAvoidsFree(list, refs, free, mem, live, a, x, s);
      ChainFrame<nat>(FreeHead(refs[s]), mem, mem[x := v], free[s]);
    }
  }

  /** A page is wholly free exactly when no live block belongs to it. */
  lemma WhollyFreeIff(list: seq<Ref>, refs: map<Ref, Pageref>, free: map<Ref, seq<nat>>,
                      mem: map<nat, Option<nat>>, live: map<nat, Live>, r: Ref)
    requires PagesOk(list, refs, free, mem, live) && r in list
    ensures refs[r].nfree <= Count(refs[r].blktype)
    ensures refs[r].nfree == Count(refs[r].blktype) <==> forall a :: a in live ==> live[a].ref != r
  {
    var pr := refs[r];
    SlotCount(pr.page, pr.blktype, free[r]);
    LiveOnPage(list, refs, free, mem, live, r);
    assert Split(pr, free[r], live);
    forall a | a in live && live[a].ref == r ensures a !in free[r] && Slot(pr.page, pr.blktype, a) {
      assert LiveOk(list, refs, a, live[a]);
    }
    if pr.nfree < Count(pr.blktype) {
      var a :| Slot(pr.page, pr.blktype, a) && a !in free[r];
      assert a in live && live[a].ref == r;
    }
  }
}
