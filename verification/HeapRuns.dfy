/**
 * kmalloc and kfree called by any number of threads.  The lock is dropped inside
 * kmalloc while a page is awaited, so every thread may run there; each method below
 * is what one thread does from taking the lock to dropping it.
 */
module HeapRuns {
  import opened Chains
  import opened Blocks
  import opened Pagerefs
  import opened HeapPages
  import opened KernelHeap

  /**
   * Where a thread stands: outside kmalloc, waiting for a data page, or with a record
   * of the bitmap in hand.  In the last case it waits for a page for the record's
   * root, unless that has one.
   */
  datatype Phase = Outside | WantsPage(size: nat) | HasRecord(size: nat, page: nat, record: Ref, supplied: bool)

  /** How far a thread got: out of kmalloc with a result, or to the next point without the lock. */
  datatype Progress = Done(result: AllocResult) | Waits

  // ------------------------------------------------------------------------
  // Who has which record and which page
  // ------------------------------------------------------------------------

  /** The records marked in the bitmap and not yet on the lists. */
  ghost function InFlight(phases: seq<Phase>): set<Ref> {
    set t | 0 <= t < |phases| && phases[t].HasRecord? :: phases[t].record
  }

  /** The pages that are to become data pages. */
  ghost function Held(phases: seq<Phase>): set<nat> {
    set t | 0 <= t < |phases| && phases[t].HasRecord? :: phases[t].page
  }

  ghost function RecordPages(pages: seq<Option<nat>>): set<nat> {
    set w | 0 <= w < |pages| && pages[w] != None :: pages[w].value
  }

  /** No two threads hold the same record, nor the same page. */
  ghost predicate Apart(phases: seq<Phase>) {
    forall t, u :: 0 <= t < u < |phases| && phases[t].HasRecord? && phases[u].HasRecord? ==>
      phases[t].record != phases[u].record && phases[t].page != phases[u].page
  }

  ghost predicate PhaseOk(p: Phase, pages: seq<Option<nat>>) {
    && (!p.Outside? ==> p.size < LARGEST_SUBPAGE_SIZE)
    && (p.HasRecord? ==> p.page > 0 && p.page % PAGE_SIZE == 0)
    && (p.HasRecord? && p.supplied ==> p.record / PER_PAGE < |pages| && pages[p.record / PER_PAGE] != None)
  }

  ghost predicate PhasesOk(phases: seq<Phase>, pages: seq<Option<nat>>) {
    Apart(phases) && forall t :: 0 <= t < |phases| ==> PhaseOk(phases[t], pages)
  }

  /** Every record in use is listed, in flight or lost, and only one of these. */
  ghost predicate RecordsAccounted(used: set<Ref>, list: seq<Ref>, flight: set<Ref>, lost: set<Ref>) {
    && (forall r: Ref :: r in used <==> r in list || r in flight || r in lost)
    && (forall r: Ref :: r in flight ==> r !in list && r !in lost)
    && (forall r: Ref :: r in lost ==> r !in list)
  }

  /** Every page got from alloc_kpages and not given back is a data page, a page of records or held by a thread. */
  ghost predicate PagesAccounted(given: set<nat>, data: set<nat>, held: set<nat>, records: set<nat>) {
    given == data + held + records && data !! held !! records
  }

  /** A thread takes a record for the page it got. */
  lemma TakeInFlight(phases: seq<Phase>, pages: seq<Option<nat>>, t: nat, p: Phase)
    requires PhasesOk(phases, pages) && t < |phases| && !phases[t].HasRecord?
    requires p.HasRecord? && PhaseOk(p, pages) && p.record !in InFlight(phases) && p.page !in Held(phases)
    ensures PhasesOk(phases[t := p], pages)
    ensures InFlight(phases[t := p]) == InFlight(phases) + {p.record} && Held(phases[t := p]) == Held(phases) + {p.page}
  {
    var after := phases[t := p];
    assert after[t] == p;
    assert forall u :: 0 <= u < |phases| && u != t ==> after[u] == phases[u];
    forall u | 0 <= u < |phases| && phases[u].HasRecord?
      ensures phases[u].record != p.record && phases[u].page != p.page
    {
      assert phases[u].record in InFlight(phases) && phases[u].page in Held(phases);
    }
    forall r | r in InFlight(phases) ensures r in InFlight(after) {
      var u :| 0 <= u < |phases| && phases[u].HasRecord? && phases[u].record == r;
      assert after[u] == phases[u];
    }
    forall q | q in Held(phases) ensures q in Held(after) {
      var u :| 0 <= u < |phases| && phases[u].HasRecord? && phases[u].page == q;
      assert after[u] == phases[u];
    }
  }

  /** It is rid of both. */
  lemma DropInFlight(phases: seq<Phase>, pages: seq<Option<nat>>, t: nat)
    requires PhasesOk(phases, pages) && t < |phases| && phases[t].HasRecord?
    ensures PhasesOk(phases[t := Outside], pages)
    ensures InFlight(phases[t := Outside]) == InFlight(phases) - {phases[t].record}
    ensures Held(phases[t := Outside]) == Held(phases) - {phases[t].page}
    ensures phases[t].record in InFlight(phases) && phases[t].page in Held(phases)
  {
    var after := phases[t := Outside];
    assert after[t] == Outside;
    assert forall u :: 0 <= u < |phases| && u != t ==> after[u] == phases[u];
    forall r | r in InFlight(phases) && r != phases[t].record ensures r in InFlight(after) {
      var u :| 0 <= u < |phases| && phases[u].HasRecord? && phases[u].record == r;
      assert after[u] == phases[u];
    }
    forall q | q in Held(phases) && q != phases[t].page ensures q in Held(after) {
      var u :| 0 <= u < |phases| && phases[u].HasRecord? && phases[u].page == q;
      assert after[u] == phases[u];
    }
  }

  /** It moves on with what it has. */
  lemma SameInFlight(phases: seq<Phase>, pages: seq<Option<nat>>, t: nat, p: Phase)
    requires PhasesOk(phases, pages) && t < |phases| && PhaseOk(p, pages) && p.HasRecord? == phases[t].HasRecord?
    requires p.HasRecord? ==> p.record == phases[t].record && p.page == phases[t].page
    ensures PhasesOk(phases[t := p], pages)
    ensures InFlight(phases[t := p]) == InFlight(phases) && Held(phases[t := p]) == Held(phases)
  {
    var after := phases[t := p];
    assert forall u :: 0 <= u < |phases| && u != t ==> after[u] == phases[u];
    forall r ensures r in InFlight(after) <==> r in InFlight(phases) {
      if r in InFlight(phases) {
        var u :| 0 <= u < |phases| && phases[u].HasRecord? && phases[u].record == r;
        assert after[u].record == r;
      }
    }
    forall q ensures q in Held(after) <==> q in Held(phases) {
      if q in Held(phases) {
        var u :| 0 <= u < |phases| && phases[u].HasRecord? && phases[u].page == q;
        assert after[u].page == q;
      }
    }
  }

  /** There are no more records in flight than threads. */
  lemma {:induction false} FlightCount(phases: seq<Phase>)
    ensures |InFlight(phases)| <= |phases|
  {
    if phases != [] {
      var n := |phases| - 1;
      var rest := phases[..n];
      FlightCount(rest);
      var own: set<Ref> := if phases[n].HasRecord? then {phases[n].record} else {};
      assert InFlight(phases) == InFlight(rest) + own by {
        assert forall t :: 0 <= t < n ==> rest[t] == phases[t];
        forall r | r in InFlight(rest) ensures r in InFlight(phases) {
          var t :| 0 <= t < n && rest[t].HasRecord? && rest[t].record == r;
          assert phases[t].record == r;
        }
      }
    }
  }

  lemma OneMoreListed(used: set<Ref>, list: seq<Ref>, flight: set<Ref>, lost: set<Ref>, r: Ref)
    requires RecordsAccounted(used, list, flight, lost) && r in flight
    ensures RecordsAccounted(used, [r] + list, flight - {r}, lost)
  {
    assert ([r] + list)[0] == r;
    assert forall i :: 0 <= i < |list| ==> ([r] + list)[i + 1] == list[i];
  }

  /** A block is freed; its page's record may come off the lists and out of the bitmap. */
  lemma OneLessListed(how: FreeResult, r: Ref, page: nat, list: seq<Ref>, list': seq<Ref>, used: set<Ref>,
                      used': set<Ref>, data: set<nat>, data': set<nat>, flight: set<Ref>, lost: set<Ref>)
    requires RecordsAccounted(used, list, flight, lost) && r in list && Distinct(list)
    requires Settled(how, r, page, list, list', used, used', data, data') && how != RootWithoutPage
    ensures RecordsAccounted(used', list', flight, lost)
  {
    WithoutElements(list, r);
  }

  /** A root that had none gets a page. */
  lemma OneMoreRecordPage(pages: seq<Option<nat>>, w: nat, va: nat)
    requires w < |pages| && pages[w] == None
    ensures RecordPages(pages[w := Some(va)]) == RecordPages(pages) + {va}
  {
    var after := pages[w := Some(va)];
    assert after[w] == Some(va);
    forall q | q in RecordPages(pages) ensures q in RecordPages(after) {
      var x :| 0 <= x < |pages| && pages[x] != None && pages[x].value == q;
      assert after[x] == pages[x];
    }
  }

  /** The callers hold exactly the live blocks, each with the size they asked for. */
  ghost predicate Owns(owned: map<nat, nat>, live: map<nat, Live>) {
    forall a :: (a in owned <==> a in live) && (a in owned ==> owned[a] == live[a].size)
  }

  lemma OwnsMore(owned: map<nat, nat>, live: map<nat, Live>, a: nat, l: Live)
    requires Owns(owned, live)
    ensures Owns(owned[a := l.size], live[a := l])
  {
  }

  lemma OwnsLess(owned: map<nat, nat>, live: map<nat, Live>, a: nat)
    requires Owns(owned, live)
    ensures Owns(owned - {a}, live - {a})
  {
  }

  /** The same contents in len bytes from a on. */
  ghost predicate Same(was: map<nat, Option<nat>>, now: map<nat, Option<nat>>, a: nat, len: nat) {
    forall x :: a <= x < a + len ==> (x in was <==> x in now) && (x in was ==> now[x] == was[x])
  }

  /** Every one of those blocks, of those sizes, keeps its contents. */
  ghost predicate Kept(owned: map<nat, nat>, was: map<nat, Option<nat>>, now: map<nat, Option<nat>>) {
    forall a :: a in owned ==> Same(was, now, a, owned[a])
  }

  /** A page made ready for use has none of the blocks callers have on it. */
  lemma KeptByNewPage(list: seq<Ref>, refs: map<Ref, Pageref>, free: map<Ref, seq<nat>>,
                      mem: map<nat, Option<nat>>, live: map<nat, Live>, owned: map<nat, nat>,
                      page: nat, mem': map<nat, Option<nat>>)
    requires PagesOk(list, refs, free, mem, live) && Owns(owned, live)
    requires page % PAGE_SIZE == 0 && page !in PagesOf(list, refs) && AgreeOff(page, mem, mem')
    ensures Kept(owned, mem, mem')
  {
    forall a, x | a in owned && a <= x < a + owned[a] ensures !OnPage(page, x) {
      LiveIsListed(list, refs, free, mem, live, a);
      assert LiveOk(list, refs, a, live[a]);
      var pr := refs[live[a].ref];
      SlotFits(pr.page, pr.blktype, a);
      if OnPage(page, x) {
        OnePage(page, pr.page, x);
      }
    }
  }

  /** Nor does freeing a block touch any other. */
  lemma KeptByFree(list: seq<Ref>, refs: map<Ref, Pageref>, free: map<Ref, seq<nat>>,
                   mem: map<nat, Option<nat>>, live: map<nat, Live>, owned: map<nat, nat>,
                   ptr: nat, mem': map<nat, Option<nat>>)
    requires PagesOk(list, refs, free, mem, live) && Owns(owned, live) && ptr in live && live[ptr].ref in refs
    requires Scrubbed(mem, mem', ptr, Size(refs[live[ptr].ref].blktype))
    ensures Kept(owned - {ptr}, mem, mem')
  {
    forall a | a in owned && a != ptr ensures Same(mem, mem', a, owned[a]) {
      if a < ptr {
        LiveDisjoint(list, refs, free, mem, live, a, ptr);
      } else {
        LiveDisjoint(list, refs, free, mem, live, ptr, a);
      }
    }
  }

  /** All of it: used and list are the bitmap and the list of all pages, given the pages got and not given back. */
  ghost predicate Books(used: set<Ref>, list: seq<Ref>, phases: seq<Phase>, lost: set<Ref>,
                        given: set<nat>, data: set<nat>, pages: seq<Option<nat>>)
  {
    && PhasesOk(phases, pages)
    && RecordsAccounted(used, list, InFlight(phases), lost)
    && PagesAccounted(given, data, Held(phases), RecordPages(pages))
  }

  /** A thread goes on without a record, or with the one it has. */
  lemma BooksMove(used: set<Ref>, list: seq<Ref>, phases: seq<Phase>, lost: set<Ref>,
                  given: set<nat>, data: set<nat>, pages: seq<Option<nat>>, t: nat, p: Phase)
    requires Books(used, list, phases, lost, given, data, pages) && t < |phases| && PhaseOk(p, pages)
    requires p.HasRecord? == phases[t].HasRecord?
    requires p.HasRecord? ==> p.record == phases[t].record && p.page == phases[t].page
    ensures Books(used, list, phases[t := p], lost, given, data, pages)
  {
    SameInFlight(phases, pages, t, p);
  }

  /** It takes a record for the page it got. */
  lemma BooksTake(used: set<Ref>, list: seq<Ref>, phases: seq<Phase>, lost: set<Ref>,
                  given: set<nat>, data: set<nat>, pages: seq<Option<nat>>, t: nat, p: Phase)
    requires Books(used, list, phases, lost, given, data, pages) && t < |phases| && !phases[t].HasRecord?
    requires p.HasRecord? && PhaseOk(p, pages) && p.record !in used && p.page !in given
    ensures Books(used + {p.record}, list, phases[t := p], lost, given + {p.page}, data, pages)
  {
    TakeInFlight(phases, pages, t, p);
  }

  /** It puts them on the lists. */
  lemma BooksLink(used: set<Ref>, list: seq<Ref>, phases: seq<Phase>, lost: set<Ref>,
                  given: set<nat>, data: set<nat>, pages: seq<Option<nat>>, t: nat)
    requires Books(used, list, phases, lost, given, data, pages) && t < |phases| && phases[t].HasRecord?
    ensures phases[t].record in used && phases[t].record !in list && phases[t].page !in data
    ensures Books(used, [phases[t].record] + list, phases[t := Outside], lost, given, data + {phases[t].page}, pages)
  {
    DropInFlight(phases, pages, t);
    OneMoreListed(used, list, InFlight(phases), lost, phases[t].record);
  }

  /** It gives up: the page goes back, and the record is lost. */
  lemma BooksLose(used: set<Ref>, list: seq<Ref>, phases: seq<Phase>, lost: set<Ref>,
                  given: set<nat>, data: set<nat>, pages: seq<Option<nat>>, t: nat)
    requires Books(used, list, phases, lost, given, data, pages) && t < |phases| && phases[t].HasRecord?
    ensures Books(used, list, phases[t := Outside], lost + {phases[t].record}, given - {phases[t].page}, data, pages)
  {
    DropInFlight(phases, pages, t);
  }

  /** A root gets its page of records. */
  lemma BooksSupply(used: set<Ref>, list: seq<Ref>, phases: seq<Phase>, lost: set<Ref>,
                    given: set<nat>, data: set<nat>, pages: seq<Option<nat>>, w: nat, va: nat)
    requires Books(used, list, phases, lost, given, data, pages) && w < |pages| && pages[w] == None && va !in given
    ensures Books(used, list, phases, lost, given + {va}, data, pages[w := Some(va)])
  {
    OneMoreRecordPage(pages, w, va);
    assert forall t :: 0 <= t < |phases| ==> PhaseOk(phases[t], pages[w := Some(va)]);
  }

  /** A block is freed; a data page that goes with it goes back. */
  lemma BooksFree(how: FreeResult, r: Ref, page: nat, list: seq<Ref>, list': seq<Ref>, used: set<Ref>, used': set<Ref>,
                  data: set<nat>, data': set<nat>,
                  phases: seq<Phase>, lost: set<Ref>, given: set<nat>, pages: seq<Option<nat>>)
    requires Books(used, list, phases, lost, given, data, pages) && r in list && Distinct(list) && page in data
    requires Settled(how, r, page, list, list', used, used', data, data') && how != RootWithoutPage
    ensures Books(used', list', phases, lost, if how == Freed then given else given - {page}, data', pages)
  {
    OneLessListed(how, r, page, list, list', used, used', data, data', InFlight(phases), lost);
  }

  // ------------------------------------------------------------------------
  // The heap, its threads and its callers
  // ------------------------------------------------------------------------

  class System {
    const heap: KHeap
    var phases: seq<Phase>
    /** The pages got from alloc_kpages and not given back. */
    var given: set<nat>
    /** The blocks callers got from kmalloc and have not freed, with the sizes they asked for. */
    var owned: map<nat, nat>
    /** The records whose allocation failed because no page could be had for their root. */
    ghost var lost: set<Ref>

    /** The heap agrees with its threads and callers. */
    ghost predicate Agrees(phases: seq<Phase>, owned: map<nat, nat>, given: set<nat>, lost: set<Ref>)
      reads heap, heap.roots
    {
      && heap.Valid() && Owns(owned, heap.live)
      && Books(heap.roots.Used(), heap.allList, phases, lost, given, heap.DataPages(), heap.roots.pages)
    }

    ghost predicate Valid()
      reads this, heap, heap.roots
    {
      Agrees(phases, owned, given, lost)
    }

    constructor (threads: nat)
      ensures Valid() && phases == seq(threads, _ => Outside) && given == {} && owned == map[] && lost == {}
      ensures heap.allList == [] && heap.roots.pages == seq(NROOTS, _ => None) && fresh(heap) && fresh(heap.roots)
    {
      heap := new KHeap();
      phases := seq(threads, _ => Outside);
      given, owned, lost := {}, map[], {};
    }

    /**
     * A root without its page, below a listed record, has all its records in flight
     * or lost; so with fewer of those than a root has there is none.
     */
    lemma RootsSound(r: Ref)
      requires Valid() && r in heap.allList && |InFlight(phases) + lost| < PER_PAGE
      ensures heap.roots.LowerRootsSound(r)
    {
      forall w | 0 <= w < r / PER_PAGE && heap.roots.pages[w] == None ensures false {
        heap.roots.LowerRootFull(w, r);
        forall x | x in Range(w * PER_PAGE, PER_PAGE) ensures x in InFlight(phases) + lost {
          var y: Ref := x;
          assert y !in heap.allList;
        }
        SubsetCard(Range(w * PER_PAGE, PER_PAGE), InFlight(phases) + lost);
      }
    }

    /** Threads, callers and pages got change as the heap has. */
    method Update(phases': seq<Phase>, owned': map<nat, nat>, given': set<nat>)
      requires Agrees(phases', owned', given', lost)
      modifies `phases, `owned, `given
      ensures Valid() && phases == phases' && owned == owned' && given == given'
    {
      phases, owned, given := phases', owned', given';
    }

    /** A thread goes on without a record, or with the one it has. */
    method Move(t: nat, p: Phase)
      requires Valid() && t < |phases| && PhaseOk(p, heap.roots.pages) && p.HasRecord? == phases[t].HasRecord?
      requires p.HasRecord? ==> p.record == phases[t].record && p.page == phases[t].page
      modifies `phases
      ensures Valid() && phases == old(phases)[t := p]
    {
      BooksMove(heap.roots.Used(), heap.allList, phases, lost, given, heap.DataPages(), heap.roots.pages, t, p);
      phases := phases[t := p];
    }

    /** A live block on r's page. */
    ghost predicate At(ptr: nat, r: Ref)
      reads heap
    {
      ptr in heap.live && heap.live[ptr].ref == r
    }

    /** kmalloc up to the point where it asks for a page, if no page has room for the request. */
    method Malloc(t: nat, sz: nat) returns (how: Progress)
      requires Valid() && t < |phases| && phases[t] == Outside
      modifies `phases, `owned, `given, heap`refs, heap`free, heap`live
      ensures Valid() && how != Done(NoMemory)
      ensures how.Done? && how.result.WholePages? <==> sz >= LARGEST_SUBPAGE_SIZE
      ensures phases == if how == Waits then old(phases)[t := WantsPage(sz)] else old(phases)
      ensures how.Done? && how.result.Block? ==> heap.allList != []
      ensures sz < LARGEST_SUBPAGE_SIZE ==>
                match FirstRoom(heap.allList, old(heap.refs), sz)
                case None => how == Waits
                case Some(r) => how.Done? && how.result.Block? && At(how.result.ptr, r)
      ensures if how.Done? && how.result.Block? then
                var ptr := how.result.ptr; ptr !in old(owned) && owned == old(owned)[ptr := sz]
              else
                owned == old(owned)
    {
      if sz >= LARGEST_SUBPAGE_SIZE {
        return Done(WholePages(PagesFor(sz)));
      }
      var ptr := Search(sz);
      if ptr == None {
        Move(t, WantsPage(sz));
        return Waits;
      }
      return Done(AllocResult.Block(ptr.value));
    }

    /** Its search for a page with a free block. */
    method Search(sz: nat) returns (ptr: Option<nat>)
      requires Valid() && sz < LARGEST_SUBPAGE_SIZE
      modifies `phases, `owned, `given, heap`refs, heap`free, heap`live
      ensures Valid() && phases == old(phases) && (ptr == None ==> owned == old(owned))
      ensures ptr != None ==> ptr.value !in old(owned) && owned == old(owned)[ptr.value := sz] && heap.allList != []
      ensures match FirstRoom(heap.allList, old(heap.refs), sz)
              case None => ptr == None
              case Some(r) => ptr != None && At(ptr.value, r)
    {
      ghost var live := heap.live;
      ptr := heap.TryAlloc(sz);
      if ptr != None {
        LiveIsListed(heap.allList, heap.refs, heap.free, heap.mem, heap.live, ptr.value);
        OwnsMore(owned, live, ptr.value, heap.live[ptr.value]);
        Update(phases, owned[ptr.value := sz], given);
      }
    }

    /** alloc_kpages has answered, with 0 when memory is out; the thread takes a record for the page. */
    method PageArrives(t: nat, page: nat) returns (how: Progress)
      requires Valid() && t < |phases| && phases[t].WantsPage?
      requires page > 0 ==> PageAddress(page) && page !in given
      modifies `phases, `owned, `given, heap.roots`inuse, heap.roots`numinuse
      ensures Valid() && owned == old(owned) && (how == Waits || how == Done(NoMemory))
      ensures t < |phases| && phases == old(phases)[t := phases[t]]
      ensures how == Waits ==> phases[t].HasRecord? && phases[t].page == page && phases[t].size == old(phases)[t].size
      ensures how != Waits ==> phases[t] == Outside
      ensures how == Waits ==> (phases[t].supplied <==> heap.roots.pages[phases[t].record / PER_PAGE] != None)
      ensures how == Waits ==> FirstUnused(phases[t].record, old(heap.roots.Used()))
      ensures how == Done(NoMemory) <==> page == 0 || forall r: Ref :: r in old(heap.roots.Used())
    {
      var ok := false;
      if page > 0 {
        ok := TakeFor(t, page);
      }
      if ok {
        return Waits;
      }
      Move(t, Outside);
      return Done(NoMemory);
    }

    /** allocpageref up to the point where it needs a page for the record's root; if it fails the page goes back. */
    method TakeFor(t: nat, page: nat) returns (ok: bool)
      requires Valid() && t < |phases| && phases[t].WantsPage? && PageAddress(page) && page !in given
      modifies `phases, `owned, `given, heap.roots`inuse, heap.roots`numinuse
      ensures Valid() && owned == old(owned) && t < |phases| && phases == old(phases)[t := phases[t]]
      ensures ok ==> phases[t].HasRecord? && phases[t].size == old(phases)[t].size && phases[t].page == page
      ensures ok ==> (phases[t].supplied <==> heap.roots.pages[phases[t].record / PER_PAGE] != None)
      ensures ok ==> FirstUnused(phases[t].record, old(heap.roots.Used()))
      ensures !ok ==> phases == old(phases) && forall r: Ref :: r in old(heap.roots.Used())
    {
      ghost var used := heap.roots.Used();
      var r := heap.TakeRecord();
      if r == None {
        return false;
      }
      var p := HasRecord(phases[t].size, page, r.value, heap.roots.pages[r.value / PER_PAGE] != None);
      BooksTake(used, heap.allList, phases, lost, given, heap.DataPages(), heap.roots.pages, t, p);
      Update(phases[t := p], owned, given + {page});
      return true;
    }

    /** The rest of subpage_kmalloc once the record is there and its root has its page. */
    method Link(t: nat) returns (ptr: nat)
      requires Valid() && t < |phases| && phases[t].HasRecord? && phases[t].supplied
      modifies `phases, `owned, `given, heap
      ensures Valid() && phases == old(phases)[t := Outside]
      ensures ptr !in old(owned) && owned == old(owned)[ptr := old(phases)[t].size]
      ensures heap.allList == [old(phases)[t].record] + old(heap.allList)
      ensures ptr in heap.live && heap.live[ptr].ref == old(phases)[t].record
      ensures Kept(old(owned), old(heap.mem), heap.mem)
    {
      var p := phases[t];
      assert PhaseOk(p, heap.roots.pages);
      BooksLink(heap.roots.Used(), heap.allList, phases, lost, given, heap.DataPages(), heap.roots.pages, t);
      ghost var live, list, refs, free, mem := heap.live, heap.allList, heap.refs, heap.free, heap.mem;
      ptr := heap.AddPageAndAlloc(p.record, p.page, p.size);
      KeptByNewPage(list, refs, free, mem, live, owned, p.page, heap.mem);
      OwnsMore(owned, live, ptr, Live(p.record, p.size));
      Update(phases[t := Outside], owned[ptr := p.size], given);
    }

    /**
     * allocpagerefpage after alloc_kpages: the root gets the page, unless it got one
     * meanwhile.  Without either the record stays marked and is lost.
     */
    method RecordPageArrives(t: nat, va: nat) returns (how: Progress)
      requires Valid() && t < |phases| && phases[t].HasRecord? && !phases[t].supplied
      requires va > 0 ==> PageAddress(va) && va !in given
      modifies this, heap.roots`pages
      ensures Valid() && owned == old(owned) && (how == Waits || how == Done(NoMemory))
      ensures phases == old(phases)[t := if how == Waits then old(phases)[t].(supplied := true) else Outside]
      ensures lost == if how == Waits then old(lost) else old(lost) + {old(phases)[t].record}
      ensures how == Done(NoMemory) <==> va == 0 && old(heap.roots.pages)[old(phases)[t].record / PER_PAGE] == None
      ensures forall w :: 0 <= w < NROOTS && w != old(phases)[t].record / PER_PAGE ==>
                heap.roots.pages[w] == old(heap.roots.pages)[w]
      ensures how == Done(NoMemory) ==> heap.roots.pages == old(heap.roots.pages)
    {
      if va == 0 && heap.roots.pages[phases[t].record / PER_PAGE] == None {
        Lose(t);
        return Done(NoMemory);
      }
      if va > 0 {
        Supply(t, va);
      }
      Move(t, phases[t].(supplied := true));
      return Waits;
    }

    /** The record stays marked, and kmalloc fails. */
    method Lose(t: nat)
      requires Valid() && t < |phases| && phases[t].HasRecord?
      modifies `phases, `given, `lost
      ensures Valid() && phases == old(phases)[t := Outside] && lost == old(lost) + {old(phases)[t].record}
    {
      BooksLose(heap.roots.Used(), heap.allList, phases, lost, given, heap.DataPages(), heap.roots.pages, t);
      var p := phases[t];
      phases, given, lost := phases[t := Outside], given - {p.page}, lost + {p.record};
    }

    /** The page goes to the record's root, or straight back. */
    method Supply(t: nat, va: nat)
      requires Valid() && t < |phases| && phases[t].HasRecord? && PageAddress(va) && va !in given
      modifies `phases, `owned, `given, heap.roots`pages
      ensures Valid() && phases == old(phases) && owned == old(owned)
      ensures heap.roots.pages[phases[t].record / PER_PAGE] != None
      ensures forall w :: 0 <= w < NROOTS && w != phases[t].record / PER_PAGE ==>
                heap.roots.pages[w] == old(heap.roots.pages)[w]
    {
      ghost var w := phases[t].record / PER_PAGE;
      ghost var pages := heap.roots.pages;
      assert Some(va) !in pages by {
        assert va !in RecordPages(pages);
      }
      var kept := heap.SupplyRecordPage(phases[t].record, va);
      if kept {
        BooksSupply(heap.roots.Used(), heap.allList, phases, lost, given, heap.DataPages(), pages, w, va);
        Update(phases, owned, given + {va});
      }
    }

    /**
     * kfree of a block a caller has, or of null.  The assertion of freepageref cannot
     * fail while fewer records are in flight or lost than a root has.
     */
    method Free(ptr: nat) returns (result: KfreeResult)
      requires Valid() && (ptr == 0 || ptr in owned)
      modifies `phases, `owned, `given, heap, heap.roots`inuse, heap.roots`numinuse
      ensures phases == old(phases)
      ensures result != Subpage(RootWithoutPage) ==> Valid()
      ensures result == Subpage(RootWithoutPage) ==> |InFlight(phases) + lost| >= PER_PAGE
      ensures if ptr == 0 then result == Ignored else result.Subpage? && ptr in old(heap.live)
      ensures ptr > 0 ==>
                var r := old(heap.live)[ptr].ref;
                result == Subpage(RootWithoutPage) <==> NoneLive(r, heap.live) && !old(heap.roots.LowerRootsSound(r))
      ensures result == Ignored ==> owned == old(owned) && heap.mem == old(heap.mem)
      ensures Kept(old(owned) - {ptr}, old(heap.mem), heap.mem)
      ensures result.Subpage? && result.how != RootWithoutPage ==> owned == old(owned) - {ptr}
    {
      if ptr == 0 {
        return Ignored;
      }
      var how := FreeOwned(ptr);
      result := Subpage(how);
    }

    method FreeOwned(ptr: nat) returns (how: FreeResult)
      requires Valid() && ptr in owned
      modifies `phases, `owned, `given, heap, heap.roots`inuse, heap.roots`numinuse
      ensures phases == old(phases) && (how != RootWithoutPage ==> Valid())
      ensures how != RootWithoutPage ==> owned == old(owned) - {ptr}
      ensures how == RootWithoutPage ==> |InFlight(phases) + lost| >= PER_PAGE
      ensures ptr in old(heap.live)
      ensures var r := old(heap.live)[ptr].ref;
              how == RootWithoutPage <==> NoneLive(r, heap.live) && !old(heap.roots.LowerRootsSound(r))
      ensures Kept(old(owned) - {ptr}, old(heap.mem), heap.mem)
    {
      ghost var used, list, data, was, refs := heap.roots.Used(), heap.allList, heap.DataPages(), heap.live, heap.refs;
      ghost var free, mem := heap.free, heap.mem;
      how := FreeLive(ptr);
      KeptByFree(list, refs, free, mem, was, owned, ptr, heap.mem);
      if how != RootWithoutPage {
        ghost var r := was[ptr].ref;
        OwnsLess(owned, was, ptr);
        BooksFree(how, r, refs[r].page, list, heap.allList, used, heap.roots.Used(), data, heap.DataPages(),
                  phases, lost, given, heap.roots.pages);
        Update(phases, owned - {ptr}, if how.FreedPage? then given - {how.page} else given);
      }
    }

    /** What it does to the heap. */
    method FreeLive(ptr: nat) returns (how: FreeResult)
      requires Valid() && ptr in heap.live
      modifies heap, heap.roots`inuse, heap.roots`numinuse
      ensures heap.Valid() && heap.live == old(heap.live) - {ptr}
      ensures how == RootWithoutPage ==> |InFlight(phases) + lost| >= PER_PAGE
      ensures var r := old(heap.live)[ptr].ref;
              how == RootWithoutPage <==> NoneLive(r, heap.live) && !old(heap.roots.LowerRootsSound(r))
      ensures var r := old(heap.live)[ptr].ref;
              && r in old(heap.allList) && r in old(heap.refs) && old(heap.refs)[r].page in old(heap.DataPages())
              && Settled(how, r, old(heap.refs)[r].page, old(heap.allList), heap.allList,
                         old(heap.roots.Used()), heap.roots.Used(), old(heap.DataPages()), heap.DataPages())
              && Scrubbed(old(heap.mem), heap.mem, ptr, Size(old(heap.refs)[r].blktype))
    {
      LiveIsListed(heap.allList, heap.refs, heap.free, heap.mem, heap.live, ptr);
      if |InFlight(phases) + lost| < PER_PAGE {
        RootsSound(heap.live[ptr].ref);
      }
      var result := heap.Kfree(ptr);
      return result.how;
    }

    /** A client stores into a block it has. */
    method Store(a: nat, x: nat, v: Option<nat>)
      requires Valid() && a in owned && a <= x < a + owned[a]
      modifies heap`mem
      ensures Valid() && heap.mem == old(heap.mem)[x := v]
    {
      LiveIsListed(heap.allList, heap.refs, heap.free, heap.mem, heap.live, a);
      heap.ClientWrite(a, x, v);
    }
  }

  lemma LiveIsListed(list: seq<Ref>, refs: map<Ref, Pageref>, free: map<Ref, seq<nat>>,
                     mem: map<nat, Option<nat>>, live: map<nat, Live>, a: nat)
    requires PagesOk(list, refs, free, mem, live) && a in live
    ensures live[a].ref in list && live[a].ref in refs && refs[live[a].ref].page in PagesOf(list, refs)
    ensures live[a].size <= Size(refs[live[a].ref].blktype)
  {
    assert LiveOk(list, refs, a, live[a]);
    PagesOfHas(list, refs);
  }

  // ------------------------------------------------------------------------
  // Runs
  // ------------------------------------------------------------------------

  /** What can happen next: some thread goes on, gets a page it asked for, frees a block or writes to one. */
  datatype Step =
    | MallocBy(t: nat, size: nat)
    | PageFor(t: nat, page: nat)
    | RecordPageFor(t: nat, page: nat)
    | LinkBy(t: nat)
    | FreeOf(ptr: nat)
    | StoreTo(block: nat, address: nat, value: Option<nat>)

  /**
   * The thread stands where it can take the step, a page that arrives is nobody's,
   * and callers free and write only what they have.
   */
  predicate Possible(s: System, step: Step)
    reads s
  {
    match step
    case MallocBy(t, _) => t < |s.phases| && s.phases[t] == Outside
    case PageFor(t, page) => t < |s.phases| && s.phases[t].WantsPage? && Arrives(page, s.given)
    case RecordPageFor(t, page) =>
      t < |s.phases| && s.phases[t].HasRecord? && !s.phases[t].supplied && Arrives(page, s.given)
    case LinkBy(t) => t < |s.phases| && s.phases[t].HasRecord? && s.phases[t].supplied
    case FreeOf(ptr) => ptr == 0 || ptr in s.owned
    case StoreTo(block, address, _) => block in s.owned && block <= address < block + s.owned[block]
  }

  predicate Arrives(page: nat, given: set<nat>) {
    page > 0 ==> PageAddress(page) && page !in given
  }

  /** No page could be had for a root. */
  predicate Starves(step: Step) {
    step.RecordPageFor? && step.page == 0
  }

  method Perform(s: System, step: Step) returns (failed: bool)
    requires s.Valid() && Possible(s, step)
    modifies s, s.heap, s.heap.roots
    ensures !failed ==> s.Valid()
    ensures failed ==> |InFlight(s.phases) + s.lost| >= PER_PAGE
    ensures |s.phases| == old(|s.phases|) && (!Starves(step) ==> s.lost == old(s.lost))
    ensures match step
            case MallocBy(t, size) => size >= LARGEST_SUBPAGE_SIZE || s.phases[t].WantsPage? || s.owned != old(s.owned)
            case PageFor(t, _) => !s.phases[t].WantsPage?
            case RecordPageFor(t, _) => s.phases[t].HasRecord? ==> s.phases[t].supplied
            case LinkBy(t) => s.phases[t] == Outside && s.owned != old(s.owned)
            case FreeOf(ptr) => failed || ptr !in s.owned
            case StoreTo(_, address, value) => s.heap.mem == old(s.heap.mem)[address := value]
  {
    failed := false;
    match step
    case MallocBy(t, size) =>
      var _ := s.Malloc(t, size);
    case PageFor(t, page) =>
      var _ := s.PageArrives(t, page);
    case RecordPageFor(t, page) =>
      var _ := s.RecordPageArrives(t, page);
    case LinkBy(t) =>
      var _ := s.Link(t);
    case FreeOf(ptr) =>
      var result := s.Free(ptr);
      failed := result == Subpage(RootWithoutPage);
    case StoreTo(block, address, value) =>
      s.Store(block, address, value);
  }

  /** The blocks callers have do not overlap. */
  ghost predicate BlocksApart(owned: map<nat, nat>) {
    forall a, b :: a in owned && b in owned && a < b ==> a + owned[a] <= b
  }

  /**
   * Every run of any number of threads, ended early if the assertion of freepageref
   * fails.  It can fail only when the threads and the records lost make up a root;
   * none is lost while pages of records can be had.  Until then no two blocks
   * overlap, and when every block is freed and no thread is in kmalloc, every page
   * has gone back but those of records, and every record but those lost.
   */
  method Run(threads: nat, steps: seq<Step>) returns (s: System, failed: bool)
    ensures |s.phases| == threads && (failed ==> threads + |s.lost| >= PER_PAGE)
    ensures (forall i :: 0 <= i < |steps| ==> !Starves(steps[i])) ==> s.lost == {}
    ensures !failed ==> s.Valid() && BlocksApart(s.owned)
    ensures !failed && s.owned == map[] && s.phases == seq(threads, _ => Outside) ==>
              && s.heap.allList == [] && s.heap.roots.Used() == s.lost
              && s.given == RecordPages(s.heap.roots.pages)
  {
    s := new System(threads);
    failed := false;
    var i := 0;
    while i < |steps| && !failed
      invariant i <= |steps| && |s.phases| == threads && fresh(s) && fresh(s.heap) && fresh(s.heap.roots)
      invariant if failed then |InFlight(s.phases) + s.lost| >= PER_PAGE else s.Valid()
      invariant (forall j :: 0 <= j < i ==> !Starves(steps[j])) ==> s.lost == {}
    {
      if Possible(s, steps[i]) {
        failed := Perform(s, steps[i]);
      }
      i := i + 1;
    }
    if failed {
      FlightCount(s.phases);
    } else {
      OwnedApart(s);
      AllGoneBack(s);
    }
  }

  lemma OwnedApart(s: System)
    requires s.Valid()
    ensures BlocksApart(s.owned)
  {
    forall a, b | a in s.owned && b in s.owned && a < b ensures a + s.owned[a] <= b {
      LiveDisjoint(s.heap.allList, s.heap.refs, s.heap.free, s.heap.mem, s.heap.live, a, b);
    }
  }

  lemma AllGoneBack(s: System)
    requires s.Valid()
    ensures s.owned == map[] && s.phases == seq(|s.phases|, _ => Outside) ==>
              && s.heap.allList == [] && s.heap.roots.Used() == s.lost
              && s.given == RecordPages(s.heap.roots.pages)
  {
    if s.owned == map[] && s.phases == seq(|s.phases|, _ => Outside) {
      assert s.heap.live == map[];
      s.heap.EmptyWhenAllFreed();
      assert forall t :: 0 <= t < |s.phases| ==> s.phases[t] == Outside;
      assert InFlight(s.phases) == {} && Held(s.phases) == {};
    }
  }

  /** One thread, without a record; no block, no page, and the first n records lost. */
  ghost predicate Starved(s: System, p: Phase, n: nat)
    reads s, s.heap, s.heap.roots
  {
    && s.Valid() && s.phases == [p] && !p.HasRecord? && s.owned == map[] && s.heap.allList == []
    && (forall r: Ref :: r in s.lost <==> r < n)
    && forall w :: 0 <= w < NROOTS ==> s.heap.roots.pages[w] == None
  }

  lemma NothingGiven(s: System, p: Phase, n: nat)
    requires Starved(s, p, n)
    ensures s.given == {} && s.heap.roots.Used() == s.lost
  {
    assert InFlight(s.phases) == {} && Held(s.phases) == {};
    assert RecordPages(s.heap.roots.pages) == {};
  }

  /** A request of eight bytes, as far as it gets before it needs a page of records. */
  method TakeNext(s: System, n: Ref)
    requires Starved(s, Outside, n)
    modifies s, s.heap, s.heap.roots`inuse, s.heap.roots`numinuse
    ensures s.Valid() && s.phases == [HasRecord(8, PAGE_SIZE, n, false)] && s.given == {PAGE_SIZE}
    ensures s.owned == map[] && s.heap.allList == [] && s.lost == old(s.lost)
  {
    var _ := s.Malloc(0, 8);
    GetRecord(s, n);
  }

  method GetRecord(s: System, n: Ref)
    requires Starved(s, WantsPage(8), n)
    modifies s, s.heap.roots`inuse, s.heap.roots`numinuse
    ensures s.Valid() && s.phases == [HasRecord(8, PAGE_SIZE, n, false)] && s.given == {PAGE_SIZE}
    ensures s.owned == map[] && s.lost == old(s.lost)
  {
    NothingGiven(s, WantsPage(8), n);
    assert n !in s.heap.roots.Used();
    var _ := s.PageArrives(0, PAGE_SIZE);
    assert Held(s.phases) == {PAGE_SIZE} && RecordPages(s.heap.roots.pages) == {};
  }

  method LoseNext(s: System, n: Ref)
    requires Starved(s, Outside, n)
    modifies s, s.heap, s.heap.roots
    ensures Starved(s, Outside, n + 1)
  {
    TakeNext(s, n);
    var _ := s.RecordPageArrives(0, 0);
  }

  /** No page can be had for the first root until all its records are lost. */
  method LoseAll() returns (s: System)
    ensures Starved(s, Outside, PER_PAGE) && fresh(s) && fresh(s.heap) && fresh(s.heap.roots)
  {
    s := new System(1);
    assert s.phases == [Outside];
    var i := 0;
    while i < PER_PAGE
      invariant i <= PER_PAGE && Starved(s, Outside, i) && fresh(s) && fresh(s.heap) && fresh(s.heap.roots)
    {
      LoseNext(s, i);
      i := i + 1;
    }
  }

  /** Then one can for the second root. */
  method OnSecondRoot(s: System) returns (ptr: nat)
    requires Starved(s, Outside, PER_PAGE)
    modifies s, s.heap, s.heap.roots
    ensures s.Valid() && s.owned == map[ptr := 8]
    ensures ptr in s.heap.live && s.heap.live[ptr].ref == PER_PAGE && !s.heap.roots.LowerRootsSound(PER_PAGE)
  {
    ghost var first: Ref := 0;
    assert first in s.lost;
    TakeNext(s, PER_PAGE);
    var _ := s.RecordPageArrives(0, 2 * PAGE_SIZE);
    ptr := s.Link(0);
    UsedRoot(s.heap.roots, first);
  }

  /** A run in which that assertion does fail: the block got then is freed. */
  method AssertionCanFail() returns (s: System, result: KfreeResult)
    ensures result == Subpage(RootWithoutPage)
  {
    s := LoseAll();
    var ptr := OnSecondRoot(s);
    result := s.Free(ptr);
  }

  lemma UsedRoot(roots: Roots, r: Ref)
    requires roots.Valid() && r in roots.Used()
    ensures roots.numinuse[r / PER_PAGE] > 0
  {
    SetBitsExtremes(roots.inuse[r / PER_PAGE]);
  }
}
