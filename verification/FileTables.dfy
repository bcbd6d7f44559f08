/**
 * Open files shared between descriptors (syscall_FILE.c): the system file table,
 * each process's table of descriptors, and the reference counts that tie them.
 */
module FileTables {
  import opened Chains
  import Numerals

  const OPEN_MAX: nat := 128
  const SYSTEM_OPEN_MAX: nat := 10 * OPEN_MAX

  type Vnode = nat

  /** An unsigned int. */
  type Count = n: nat | n < Numerals.UINT_WRAP

  /** More processes than this would be needed for a count to wrap upwards. */
  const PROCESSES: nat := Numerals.UINT_WRAP / OPEN_MAX

  /**
   * struct openfile: the vnode, count_refs, and whether its lock has been created.
   * Entries below SYSTEM_OPEN_MAX are systemFileTable, the others the consoles of
   * processes.
   */
  datatype OpenFile = OpenFile(vn: Option<Vnode>, refs: Count, lock: bool)

  /** An entry that was never used. */
  const UNUSED: OpenFile := OpenFile(None, 0, false)

  type Table = seq<Option<nat>>

  datatype Errno = EBADF

  /** How a system call ends; Panicked is a failed assertion of the kernel. */
  datatype CallResult = Success | Error(errno: Errno) | Panicked

  /** How many descriptors, over all processes, refer to file f. */
  ghost function Refs(tables: seq<Table>, f: nat): nat {
    if tables == [] then 0 else multiset(tables[0])[Some(f)] + Refs(tables[1..], f)
  }

  lemma CountUpdate(t: Table, fd: nat, x: Option<nat>, y: Option<nat>)
    requires fd < |t|
    ensures multiset(t[fd := x])[y] + (if t[fd] == y then 1 else 0) == multiset(t)[y] + (if x == y then 1 else 0)
  {
    assert t == t[..fd] + [t[fd]] + t[fd + 1..];
    assert t[fd := x] == t[..fd] + [x] + t[fd + 1..];
  }

  lemma {:induction false} RefsUpdate(tables: seq<Table>, p: nat, fd: nat, x: Option<nat>, f: nat)
    requires p < |tables| && fd < |tables[p]|
    ensures Refs(tables[p := tables[p][fd := x]], f) + (if tables[p][fd] == Some(f) then 1 else 0)
         == Refs(tables, f) + (if x == Some(f) then 1 else 0)
  {
    if p == 0 {
      assert tables[p := tables[p][fd := x]][1..] == tables[1..];
      CountUpdate(tables[0], fd, x, Some(f));
    } else {
      RefsUpdate(tables[1..], p - 1, fd, x, f);
      assert tables[p := tables[p][fd := x]][1..] == tables[1..][p - 1 := tables[1..][p - 1][fd := x]];
    }
  }

  lemma {:induction false} RefsAt(tables: seq<Table>, p: nat, fd: nat, f: nat)
    requires p < |tables| && fd < |tables[p]| && tables[p][fd] == Some(f)
    ensures Refs(tables, f) >= 1
  {
    if p > 0 {
      RefsAt(tables[1..], p - 1, fd, f);
    }
  }

  // ------------------------------------------------------------------------
  // Opens and closes of vnodes
  // ------------------------------------------------------------------------

  /**
   * A call of vfs_open whose vnode went to entry f, one whose vnode went to entry f
   * in an open that failed afterwards, the call of vfs_close for entry f, and a
   * vfs_open whose vnode went nowhere.  Nothing is assumed of the vnodes: vfs_open
   * may hand out the same one any number of times.
   */
  datatype Event = Opened(f: nat, v: Vnode) | Stranded(f: nat, v: Vnode) | Closed(f: nat, v: Vnode) | Leaked(v: Vnode)

  /** A vnode goes to an entry. */
  predicate Enters(e: Event) {
    e.Opened? || e.Stranded?
  }

  /** No open so far failed after its vnode had gone to an entry. */
  ghost predicate NoneStranded(history: seq<Event>) {
    forall i :: 0 <= i < |history| ==> !history[i].Stranded?
  }

  /** Nor was any vnode lost to a full system table. */
  ghost predicate NoneFailed(history: seq<Event>) {
    forall i :: 0 <= i < |history| ==> !history[i].Stranded? && !history[i].Leaked?
  }

  /** The event is about entry f. */
  predicate About(e: Event, f: nat) {
    !e.Leaked? && e.f == f
  }

  /** What entry f holds after the calls so far. */
  ghost function Holds(history: seq<Event>, f: nat): Option<Vnode> {
    if history == [] then None
    else
      var last := history[|history| - 1];
      if !About(last, f) then Holds(history[..|history| - 1], f)
      else if Enters(last) then Some(last.v) else None
  }

  /** Every open went to an entry that held nothing, and every close was of the vnode its entry held. */
  ghost predicate Alternates(history: seq<Event>) {
    history != [] ==>
      var before, last := history[..|history| - 1], history[|history| - 1];
      && Alternates(before)
      && (Enters(last) ==> Holds(before, last.f) == None)
      && (last.Closed? ==> Holds(before, last.f) == Some(last.v))
  }

  ghost function Opens(history: seq<Event>): multiset<Vnode> {
    if history == [] then multiset{}
    else
      var last := history[|history| - 1];
      Opens(history[..|history| - 1]) + if last.Closed? then multiset{} else multiset{last.v}
  }

  ghost function Closes(history: seq<Event>): multiset<Vnode> {
    if history == [] then multiset{}
    else
      var last := history[|history| - 1];
      Closes(history[..|history| - 1]) + if last.Closed? then multiset{last.v} else multiset{}
  }

  ghost function Leaks(history: seq<Event>): multiset<Vnode> {
    if history == [] then multiset{}
    else
      var last := history[|history| - 1];
      Leaks(history[..|history| - 1]) + if last.Leaked? then multiset{last.v} else multiset{}
  }

  /** How many open files hold v. */
  ghost function Holders(files: seq<OpenFile>, v: Vnode): nat {
    if files == [] then 0
    else Holders(files[..|files| - 1], v) + if files[|files| - 1].vn == Some(v) then 1 else 0
  }

  /** The vnodes the open files hold. */
  ghost function Held(files: seq<OpenFile>): multiset<Vnode> {
    if files == [] then multiset{}
    else
      var last := files[|files| - 1].vn;
      Held(files[..|files| - 1]) + if last == None then multiset{} else multiset{last.value}
  }

  /** The entries hold what the calls say. */
  ghost predicate EntriesOk(files: seq<OpenFile>, history: seq<Event>) {
    forall f: nat :: Holds(history, f) == if f < |files| then files[f].vn else None
  }

  /** Every open of v was followed by a close, was lost, or is held by an entry. */
  ghost predicate Balanced(files: seq<OpenFile>, history: seq<Event>, v: Vnode) {
    Opens(history)[v] == Closes(history)[v] + Leaks(history)[v] + Holders(files, v)
  }

  ghost predicate LedgerOk(files: seq<OpenFile>, history: seq<Event>) {
    Alternates(history) && EntriesOk(files, history) && forall v: Vnode :: Balanced(files, history, v)
  }

  lemma {:induction false} HoldersUpdate(files: seq<OpenFile>, f: nat, x: OpenFile, v: Vnode)
    requires f < |files|
    ensures Holders(files[f := x], v) + (if files[f].vn == Some(v) then 1 else 0)
         == Holders(files, v) + (if x.vn == Some(v) then 1 else 0)
  {
    var n := |files| - 1;
    if f == n {
      assert files[f := x][..n] == files[..n];
    } else {
      HoldersUpdate(files[..n], f, x, v);
      assert files[f := x][..n] == files[..n][f := x];
    }
  }

  lemma {:induction false} HeldCount(files: seq<OpenFile>, v: Vnode)
    ensures Held(files)[v] == Holders(files, v)
  {
    if files != [] {
      HeldCount(files[..|files| - 1], v);
    }
  }

  /** One event more. */
  lemma Snoc(history: seq<Event>, e: Event)
    ensures Alternates(history + [e]) <==>
              && Alternates(history)
              && (Enters(e) ==> Holds(history, e.f) == None) && (e.Closed? ==> Holds(history, e.f) == Some(e.v))
  {
    assert (history + [e])[..|history|] == history;
  }

  lemma HoldsSnoc(history: seq<Event>, e: Event, f: nat)
    ensures Holds(history + [e], f) ==
            if !About(e, f) then Holds(history, f) else if Enters(e) then Some(e.v) else None
  {
    assert (history + [e])[..|history|] == history;
  }

  lemma CallsSnoc(history: seq<Event>, e: Event, v: Vnode)
    ensures var h, n := history + [e], if e.v == v then 1 else 0;
            && Opens(h)[v] == Opens(history)[v] + (if e.Closed? then 0 else n)
            && Closes(h)[v] == Closes(history)[v] + (if e.Closed? then n else 0)
            && Leaks(h)[v] == Leaks(history)[v] + (if e.Leaked? then n else 0)
  {
    assert (history + [e])[..|history|] == history;
  }

  /** An entry that holds nothing gets an opened vnode. */
  lemma LedgerOpen(files: seq<OpenFile>, history: seq<Event>, f: nat, x: OpenFile, e: Event)
    requires LedgerOk(files, history) && f < |files| && files[f].vn == None
    requires Enters(e) && e.f == f && x.vn == Some(e.v)
    ensures LedgerOk(files[f := x], history + [e])
  {
    LedgerStep(files, history, f, x, e);
  }

  /** An entry's vnode is closed. */
  lemma LedgerClose(files: seq<OpenFile>, history: seq<Event>, f: nat, x: OpenFile)
    requires LedgerOk(files, history) && f < |files| && files[f].vn != None && x.vn == None
    ensures LedgerOk(files[f := x], history + [Closed(f, files[f].vn.value)])
  {
    var e := Closed(f, files[f].vn.value);
    LedgerStep(files, history, f, x, e);
  }

  lemma LedgerStep(files: seq<OpenFile>, history: seq<Event>, f: nat, x: OpenFile, e: Event)
    requires LedgerOk(files, history) && f < |files| && About(e, f)
    requires Enters(e) ==> files[f].vn == None && x.vn == Some(e.v)
    requires e.Closed? ==> files[f].vn == Some(e.v) && x.vn == None
    ensures LedgerOk(files[f := x], history + [e])
  {
    var files', history' := files[f := x], history + [e];
    Snoc(history, e);
    forall g: nat ensures Holds(history', g) == if g < |files| then files'[g].vn else None {
      HoldsSnoc(history, e, g);
    }
    forall v: Vnode ensures Balanced(files', history', v) {
      assert Balanced(files, history, v);
      CallsSnoc(history, e, v);
      HoldersUpdate(files, f, x, v);
    }
  }

  /** Entries may change as long as they keep their vnodes. */
  lemma LedgerKept(files: seq<OpenFile>, history: seq<Event>, f: nat, x: OpenFile)
    requires LedgerOk(files, history) && f < |files| && files[f].vn == x.vn
    ensures LedgerOk(files[f := x], history)
  {
    var files' := files[f := x];
    forall v: Vnode ensures Balanced(files', history, v) {
      assert Balanced(files, history, v);
      HoldersUpdate(files, f, x, v);
    }
  }

  /** A vnode that went nowhere. */
  lemma LedgerLeak(files: seq<OpenFile>, history: seq<Event>, v: Vnode)
    requires LedgerOk(files, history)
    ensures LedgerOk(files, history + [Leaked(v)])
  {
    Snoc(history, Leaked(v));
    forall g: nat ensures Holds(history + [Leaked(v)], g) == Holds(history, g) {
      HoldsSnoc(history, Leaked(v), g);
    }
    forall w: Vnode ensures Balanced(files, history + [Leaked(v)], w) {
      assert Balanced(files, history, w);
      CallsSnoc(history, Leaked(v), w);
    }
  }

  /** The open at i is answered by the close at j: same entry, same vnode, nothing about the entry in between. */
  ghost predicate Answers(history: seq<Event>, i: nat, j: nat) {
    && i < j < |history| && Enters(history[i]) && history[j] == Closed(history[i].f, history[i].v)
    && forall k :: i < k < j ==> !About(history[k], history[i].f)
  }

  /** Nothing has happened to the entry since the open at i. */
  ghost predicate StillOpen(history: seq<Event>, i: nat) {
    && i < |history| && Enters(history[i])
    && forall k :: i < k < |history| ==> !About(history[k], history[i].f)
  }

  /** Each open is closed exactly once, or its entry still holds it. */
  lemma {:induction false} ClosedOnce(history: seq<Event>, i: nat)
    requires Alternates(history) && i < |history| && Enters(history[i])
    ensures StillOpen(history, i) ==> Holds(history, history[i].f) == Some(history[i].v)
    ensures !StillOpen(history, i) ==> exists j: nat :: Answers(history, i, j)
    ensures forall j: nat, k: nat :: Answers(history, i, j) && Answers(history, i, k) ==> j == k
  {
    var n := |history| - 1;
    forall j: nat, k: nat | Answers(history, i, j) && Answers(history, i, k) ensures j == k {
      assert About(history[j], history[i].f) && About(history[k], history[i].f);
    }
    if i < n {
      var before := history[..n];
      ClosedOnce(before, i);
      if StillOpen(before, i) {
        if About(history[n], history[i].f) {
          assert Answers(history, i, n);
        }
      } else {
        var j: nat :| Answers(before, i, j);
        assert Answers(history, i, j);
      }
    }
  }

  /** Each close answers an open. */
  lemma {:induction false} CloseHasOpen(history: seq<Event>, j: nat)
    requires Alternates(history) && j < |history| && history[j].Closed?
    ensures exists i: nat :: Answers(history, i, j)
    decreases |history|
  {
    var n := |history| - 1;
    if j == n {
      var i := LastOpen(history[..n], history[n].f);
      assert Answers(history, i, n);
    } else {
      CloseHasOpen(history[..n], j);
      var i: nat :| Answers(history[..n], i, j);
      assert Answers(history, i, j);
    }
  }

  /** What an entry holds was put there by an open, the last event about it. */
  lemma {:induction false} LastOpen(history: seq<Event>, f: nat) returns (i: nat)
    requires Holds(history, f) != None
    ensures i < |history| && About(history[i], f) && Holds(history, f) == Some(history[i].v) && StillOpen(history, i)
  {
    var n := |history| - 1;
    if About(history[n], f) {
      i := n;
    } else {
      i := LastOpen(history[..n], f);
    }
  }

  // ------------------------------------------------------------------------
  // The invariant
  // ------------------------------------------------------------------------

  /** The count is n, there is a vnode exactly when that is not zero, and then there is a lock. */
  predicate Counted(x: OpenFile, n: nat) {
    x.refs == n && (x.vn == None <==> n == 0) && (n > 0 ==> x.lock)
  }

  /** count_refs is the number of descriptors. */
  ghost predicate CountsOk(files: seq<OpenFile>, tables: seq<Table>) {
    forall f :: 0 <= f < |files| ==> Counted(files[f], Refs(tables, f))
  }

  ghost predicate TablesOk(files: seq<OpenFile>, tables: seq<Table>) {
    && |files| >= SYSTEM_OPEN_MAX
    && (forall p :: 0 <= p < |tables| ==> |tables[p]| == OPEN_MAX)
    && (forall p, fd :: 0 <= p < |tables| && 0 <= fd < |tables[p]| && tables[p][fd] != None ==>
          tables[p][fd].value < |files|)
  }

  ghost predicate Ok(files: seq<OpenFile>, tables: seq<Table>, history: seq<Event>) {
    TablesOk(files, tables) && CountsOk(files, tables) && LedgerOk(files, history)
  }

  /** What every run keeps, whatever opens fail; the counts are right until one fails half-way. */
  ghost predicate Sound(files: seq<OpenFile>, tables: seq<Table>, history: seq<Event>) {
    && TablesOk(files, tables) && LedgerOk(files, history)
    && (NoneStranded(history) && |tables| < PROCESSES ==> CountsOk(files, tables))
  }

  lemma {:induction false} RefsAppend(tables: seq<Table>, t: Table, f: nat)
    requires forall k :: 0 <= k < |t| ==> t[k] == None
    ensures Refs(tables + [t], f) == Refs(tables, f)
  {
    if tables == [] {
      assert tables + [t] == [t] && [t][1..] == [];
    } else {
      RefsAppend(tables[1..], t, f);
      assert (tables + [t])[1..] == tables[1..] + [t];
    }
  }

  lemma {:induction false} RefsBeyond(tables: seq<Table>, f: nat)
    requires forall p, fd :: 0 <= p < |tables| && 0 <= fd < |tables[p]| ==> tables[p][fd] != Some(f)
    ensures Refs(tables, f) == 0
  {
    if tables != [] {
      RefsBeyond(tables[1..], f);
    }
  }

  /** One more entry, not yet in use. */
  lemma GrowLedger(files: seq<OpenFile>, history: seq<Event>)
    requires LedgerOk(files, history)
    ensures LedgerOk(files + [UNUSED], history)
  {
    assert (files + [UNUSED])[..|files|] == files;
    forall v: Vnode ensures Balanced(files + [UNUSED], history, v) {
      assert Balanced(files, history, v);
    }
  }

  lemma GrowCounts(files: seq<OpenFile>, tables: seq<Table>)
    requires TablesOk(files, tables) && CountsOk(files, tables)
    ensures CountsOk(files + [UNUSED], tables)
  {
    RefsBeyond(tables, |files|);
  }

  lemma {:induction false} RefsBound(tables: seq<Table>, f: nat)
    requires forall p :: 0 <= p < |tables| ==> |tables[p]| == OPEN_MAX
    ensures Refs(tables, f) <= OPEN_MAX * |tables|
  {
    if tables != [] {
      RefsBound(tables[1..], f);
      CountAtMost(tables[0], Some(f));
    }
  }

  lemma CountAtMost(t: Table, x: Option<nat>)
    ensures multiset(t)[x] <= |t|
  {
    assert multiset(t)[x] <= |multiset(t)|;
  }

  // ------------------------------------------------------------------------
  // The changes
  // ------------------------------------------------------------------------

  /** --count_refs, and the vnode given up when that leaves zero. */
  function Dropped(x: OpenFile): OpenFile {
    if x.refs == 1 then x.(vn := None, refs := 0)
    else x.(refs := if x.refs == 0 then Numerals.UINT_WRAP - 1 else x.refs - 1)
  }

  /** count_refs++. */
  function Shared(x: OpenFile): OpenFile {
    x.(refs := if x.refs == Numerals.UINT_WRAP - 1 then 0 else x.refs + 1)
  }

  /** The calls after a descriptor of entry f has been given up. */
  function Calls(x: OpenFile, f: nat, history: seq<Event>): seq<Event> {
    if x.refs == 1 && x.vn != None then history + [Closed(f, x.vn.value)] else history
  }

  /** What giving up a descriptor that refers to x closes: the vnode of x, when no other descriptor refers to it. */
  ghost predicate ClosesLast(files: seq<OpenFile>, tables: seq<Table>, x: Option<nat>,
                             history: seq<Event>, history': seq<Event>)
  {
    if x != None && x.value < |files| && files[x.value].vn != None && Refs(tables, x.value) == 1
    then history' == history + [Closed(x.value, files[x.value].vn.value)]
    else history' == history
  }

  /** One slot changes and with it one entry: all other counts stay right. */
  lemma CountsStep(files: seq<OpenFile>, tables: seq<Table>, p: nat, fd: nat, x: Option<nat>, f: nat, y: OpenFile)
    requires CountsOk(files, tables) && p < |tables| && fd < |tables[p]| && f < |files|
    requires tables[p][fd] in {None, Some(f)} && x in {None, Some(f)}
    requires var now := Refs(tables, f) + (if x == None then 0 else 1) - (if tables[p][fd] == None then 0 else 1);
             now >= 0 && Counted(y, now)
    ensures CountsOk(files[f := y], tables[p := tables[p][fd := x]])
  {
    var files', tables' := files[f := y], tables[p := tables[p][fd := x]];
    forall g | 0 <= g < |files| ensures Counted(files'[g], Refs(tables', g)) {
      RefsUpdate(tables, p, fd, x, g);
    }
  }

  lemma DropCounts(files: seq<OpenFile>, tables: seq<Table>, p: nat, fd: nat, f: nat)
    requires TablesOk(files, tables) && CountsOk(files, tables)
    requires p < |tables| && fd < OPEN_MAX && tables[p][fd] == Some(f)
    ensures files[f].refs > 0 && files[f].vn != None && files[f].lock
    ensures CountsOk(files[f := Dropped(files[f])], tables[p := tables[p][fd := None]])
  {
    RefsAt(tables, p, fd, f);
    CountsStep(files, tables, p, fd, None, f, Dropped(files[f]));
  }

  lemma DropLedger(files: seq<OpenFile>, history: seq<Event>, f: nat)
    requires LedgerOk(files, history) && f < |files|
    ensures LedgerOk(files[f := Dropped(files[f])], Calls(files[f], f, history))
  {
    if files[f].refs == 1 && files[f].vn != None {
      LedgerClose(files, history, f, Dropped(files[f]));
    } else {
      LedgerKept(files, history, f, Dropped(files[f]));
    }
  }

  /** One descriptor lets go of its file; the last one closes the vnode. */
  lemma DropOk(files: seq<OpenFile>, tables: seq<Table>, history: seq<Event>, p: nat, fd: nat, f: nat)
    requires Ok(files, tables, history) && p < |tables| && fd < OPEN_MAX && tables[p][fd] == Some(f)
    ensures files[f].refs > 0 && files[f].vn != None && files[f].lock
    ensures Ok(files[f := Dropped(files[f])], tables[p := tables[p][fd := None]], Calls(files[f], f, history))
    ensures ClosesLast(files, tables, Some(f), history, Calls(files[f], f, history))
  {
    DropCounts(files, tables, p, fd, f);
    DropLedger(files, history, f);
  }

  /** The same in any run. */
  lemma DropSound(files: seq<OpenFile>, tables: seq<Table>, history: seq<Event>, p: nat, fd: nat, f: nat)
    requires Sound(files, tables, history) && p < |tables| && fd < OPEN_MAX && tables[p][fd] == Some(f)
    ensures Sound(files[f := Dropped(files[f])], tables[p := tables[p][fd := None]], Calls(files[f], f, history))
  {
    DropLedger(files, history, f);
    var history' := Calls(files[f], f, history);
    assert history <= history';
    if NoneStranded(history') && |tables| < PROCESSES {
      assert NoneStranded(history);
      DropCounts(files, tables, p, fd, f);
    }
  }

  /** A descriptor is made to refer to a file already open. */
  lemma ShareOk(files: seq<OpenFile>, tables: seq<Table>, history: seq<Event>, p: nat, fd: nat, f: nat)
    requires Ok(files, tables, history) && |tables| < PROCESSES
    requires p < |tables| && fd < OPEN_MAX && tables[p][fd] == None && f < |files| && files[f].refs > 0
    ensures Ok(files[f := Shared(files[f])], tables[p := tables[p][fd := Some(f)]], history)
  {
    RefsBound(tables, f);
    CountsStep(files, tables, p, fd, Some(f), f, Shared(files[f]));
    LedgerKept(files, history, f, Shared(files[f]));
  }

  /** The same in any run, for the file of another descriptor. */
  lemma ShareSound(files: seq<OpenFile>, tables: seq<Table>, history: seq<Event>, p: nat, oldfd: nat, fd: nat, f: nat)
    requires Sound(files, tables, history) && p < |tables| && oldfd < OPEN_MAX && fd < OPEN_MAX
    requires tables[p][oldfd] == Some(f) && tables[p][fd] == None
    ensures Sound(files[f := Shared(files[f])], tables[p := tables[p][fd := Some(f)]], history)
  {
    LedgerKept(files, history, f, Shared(files[f]));
    if NoneStranded(history) && |tables| < PROCESSES {
      RefsAt(tables, p, oldfd, f);
      ShareOk(files, tables, history, p, fd, f);
    }
  }

  /** A free entry gets a vnode and its first descriptor. */
  lemma OpenOk(files: seq<OpenFile>, tables: seq<Table>, history: seq<Event>, p: nat, fd: nat, f: nat, v: Vnode)
    requires Ok(files, tables, history) && p < |tables| && fd < OPEN_MAX && tables[p][fd] == None
    requires f < |files| && files[f].vn == None
    ensures Ok(files[f := OpenFile(Some(v), 1, true)], tables[p := tables[p][fd := Some(f)]], history + [Opened(f, v)])
  {
    CountsStep(files, tables, p, fd, Some(f), f, OpenFile(Some(v), 1, true));
    LedgerOpen(files, history, f, OpenFile(Some(v), 1, true), Opened(f, v));
  }

  /** The same in any run. */
  lemma OpenSound(files: seq<OpenFile>, tables: seq<Table>, history: seq<Event>, p: nat, fd: nat, f: nat, v: Vnode)
    requires Sound(files, tables, history) && p < |tables| && fd < OPEN_MAX && tables[p][fd] == None
    requires f < |files| && files[f].vn == None
    ensures Sound(files[f := OpenFile(Some(v), 1, true)], tables[p := tables[p][fd := Some(f)]],
                  history + [Opened(f, v)])
  {
    LedgerOpen(files, history, f, OpenFile(Some(v), 1, true), Opened(f, v));
    var history' := history + [Opened(f, v)];
    assert history <= history';
    if NoneStranded(history') && |tables| < PROCESSES {
      assert NoneStranded(history);
      OpenOk(files, tables, history, p, fd, f, v);
    }
  }

  /** An open that fails half-way, with or without a slot filled. */
  lemma StrandSound(files: seq<OpenFile>, tables: seq<Table>, history: seq<Event>, tables': seq<Table>,
                    f: nat, v: Vnode)
    requires Sound(files, tables, history) && f < |files| && files[f].vn == None && TablesOk(files, tables')
    ensures Sound(files[f := files[f].(vn := Some(v))], tables', history + [Stranded(f, v)])
  {
    LedgerOpen(files, history, f, files[f].(vn := Some(v)), Stranded(f, v));
    assert (history + [Stranded(f, v)])[|history|].Stranded?;
  }

  /** No descriptor of any process refers to a file. */
  ghost predicate NoSlot(tables: seq<Table>) {
    forall p, fd :: 0 <= p < |tables| && 0 <= fd < |tables[p]| ==> tables[p][fd] == None
  }

  lemma {:induction false} NothingHeld(files: seq<OpenFile>)
    requires forall f :: 0 <= f < |files| ==> files[f].vn == None
    ensures Held(files) == multiset{}
  {
    if files != [] {
      NothingHeld(files[..|files| - 1]);
    }
  }

  lemma {:induction false} HeldAt(files: seq<OpenFile>, f: nat)
    requires f < |files| && files[f].vn != None
    ensures Held(files)[files[f].vn.value] >= 1
  {
    if f < |files| - 1 {
      HeldAt(files[..|files| - 1], f);
    }
  }

  lemma {:induction false} NoLeaks(history: seq<Event>)
    requires forall i :: 0 <= i < |history| ==> !history[i].Leaked?
    ensures Leaks(history) == multiset{}
  {
    if history != [] {
      NoLeaks(history[..|history| - 1]);
    }
  }

  /**
   * In every run, failed opens included: vnode by vnode, what was opened has been
   * closed, was lost to a full system table, or is held by an entry.  So all is
   * closed if and only if nothing was lost and no entry holds anything.
   */
  lemma AllAccounted(files: seq<OpenFile>, history: seq<Event>)
    requires LedgerOk(files, history)
    ensures Opens(history) == Closes(history) + Leaks(history) + Held(files)
    ensures Opens(history) == Closes(history) <==> Leaks(history) == multiset{} && Held(files) == multiset{}
  {
    forall v: Vnode ensures Opens(history)[v] == (Closes(history) + Leaks(history) + Held(files))[v] {
      assert Balanced(files, history, v);
      HeldCount(files, v);
    }
  }

  /**
   * Once no slot is left, in a run in which no open failed half-way: every vfs_open
   * whose vnode reached an entry has been answered by exactly one vfs_close, and all
   * is closed if and only if nothing was lost to a full system table.
   */
  lemma AllClosed(files: seq<OpenFile>, tables: seq<Table>, history: seq<Event>)
    requires Sound(files, tables, history) && NoSlot(tables) && NoneStranded(history) && |tables| < PROCESSES
    ensures Opens(history) == Closes(history) + Leaks(history)
    ensures Opens(history) == Closes(history) <==> Leaks(history) == multiset{}
    ensures forall i: nat :: i < |history| && Enters(history[i]) ==> exists j: nat :: Answers(history, i, j)
  {
    forall f: nat | f < |files| ensures files[f].vn == None {
      RefsBeyond(tables, f);
      assert Counted(files[f], 0);
    }
    NothingHeld(files);
    AllAccounted(files, history);
    forall i: nat | i < |history| && Enters(history[i]) ensures exists j: nat :: Answers(history, i, j) {
      ClosedOnce(history, i);
    }
  }

  // ------------------------------------------------------------------------
  // The system calls
  // ------------------------------------------------------------------------

  /** The first free descriptor from fd on, or OPEN_MAX. */
  function FirstFree(table: Table, fd: nat): (r: nat)
    requires fd <= |table| == OPEN_MAX
    ensures fd <= r <= OPEN_MAX && (r < OPEN_MAX ==> table[r] == None)
    ensures forall k :: fd <= k < r ==> table[k] != None
    decreases OPEN_MAX - fd
  {
    if fd == OPEN_MAX || table[fd] == None then fd else FirstFree(table, fd + 1)
  }

  /** The first entry of the system table from f on that holds no vnode, or SYSTEM_OPEN_MAX. */
  function FirstEntry(files: seq<OpenFile>, f: nat): (r: nat)
    requires f <= SYSTEM_OPEN_MAX <= |files|
    ensures f <= r <= SYSTEM_OPEN_MAX && (r < SYSTEM_OPEN_MAX ==> files[r].vn == None)
    ensures forall k :: f <= k < r ==> files[k].vn != None
    decreases SYSTEM_OPEN_MAX - f
  {
    if f == SYSTEM_OPEN_MAX || files[f].vn == None then f else FirstEntry(files, f + 1)
  }

  /**
   * What open does with the vnode it was given: it succeeds, finds the system table
   * full, fails after filling the very last descriptor, or finds no descriptor and
   * goes on past the end of the table.
   */
  datatype OpenResult = Descriptor(fd: nat) | SystemTableFull | LastDescriptor | PastTheTable

  function OpenOutcome(files: seq<OpenFile>, table: Table): OpenResult
    requires |files| >= SYSTEM_OPEN_MAX && |table| == OPEN_MAX
  {
    var fd := FirstFree(table, 3);
    if FirstEntry(files, 0) == SYSTEM_OPEN_MAX then SystemTableFull
    else if fd < OPEN_MAX - 1 then Descriptor(fd)
    else if fd == OPEN_MAX - 1 then LastDescriptor
    else PastTheTable
  }

  /** When an open does as it should: the system table has room and a descriptor from 3 to OPEN_MAX - 2 is free. */
  ghost predicate OpenGuard(files: seq<OpenFile>, table: Table)
    requires |files| >= SYSTEM_OPEN_MAX && |table| == OPEN_MAX
  {
    && (exists f :: 0 <= f < SYSTEM_OPEN_MAX && files[f].vn == None)
    && (exists fd :: 3 <= fd < OPEN_MAX - 1 && table[fd] == None)
  }

  lemma GuardIs(files: seq<OpenFile>, table: Table)
    requires |files| >= SYSTEM_OPEN_MAX && |table| == OPEN_MAX
    ensures OpenGuard(files, table) <==> OpenOutcome(files, table).Descriptor?
  {
    var f, fd := FirstEntry(files, 0), FirstFree(table, 3);
    if f < SYSTEM_OPEN_MAX && fd < OPEN_MAX - 1 {
      assert files[f].vn == None && table[fd] == None;
    }
  }

  /** An entry that got a vnode and not yet a count breaks the invariant, whatever refers to it. */
  lemma HalfOpened(files: seq<OpenFile>, f: nat)
    requires f < |files| && files[f].vn != None && files[f].refs == 0
    ensures forall tables :: !CountsOk(files, tables)
  {
    assert forall n: nat :: !Counted(files[f], n);
  }

  /** In particular a descriptor given to an entry whose count is still zero. */
  lemma StaleCount(files: seq<OpenFile>, tables: seq<Table>, p: nat, fd: nat, f: nat, v: Vnode)
    requires TablesOk(files, tables) && CountsOk(files, tables)
    requires p < |tables| && fd < OPEN_MAX && tables[p][fd] == None
    requires f < |files| && files[f].vn == None
    ensures files[f].refs == 0
    ensures !CountsOk(files[f := files[f].(vn := Some(v))], tables[p := tables[p][fd := Some(f)]])
  {
    assert Counted(files[f], Refs(tables, f));
    HalfOpened(files[f := files[f].(vn := Some(v))], f);
  }

  lemma SlotTwice(tables: seq<Table>, p: nat, fd: nat, x: Option<nat>)
    requires p < |tables| && fd < |tables[p]|
    ensures var mid := tables[p := tables[p][fd := None]];
            && |mid| == |tables| && |mid[p]| == |tables[p]|
            && mid[p := mid[p][fd := x]] == tables[p := tables[p][fd := x]]
  {
    assert tables[p][fd := None][fd := x] == tables[p][fd := x];
  }

  /** The entries, and the calls, once the descriptor that referred to x has been given up. */
  function Vacated(files: seq<OpenFile>, x: Option<nat>): seq<OpenFile>
    requires x != None ==> x.value < |files|
  {
    if x == None then files else files[x.value := Dropped(files[x.value])]
  }

  function VacatedCalls(files: seq<OpenFile>, x: Option<nat>, history: seq<Event>): seq<Event>
    requires x != None ==> x.value < |files|
  {
    if x == None then history else Calls(files[x.value], x.value, history)
  }

  /** An entry whose descriptor cannot be given up: it has no lock to take, or no vnode to close. */
  predicate Faulty(x: OpenFile) {
    !x.lock || (x.refs == 1 && x.vn == None)
  }

  /** A dup2 onto a descriptor of x, from one of entry g, fails an assertion. */
  predicate DuplicateFails(files: seq<OpenFile>, x: Option<nat>, g: nat)
    requires g < |files| && (x != None ==> x.value < |files|)
  {
    (x != None && Faulty(files[x.value])) || !files[g].lock
  }

  /** At most one vfs_close more. */
  ghost predicate AtMostCloses(history: seq<Event>, history': seq<Event>) {
    history' == history || exists e: Event :: e.Closed? && history' == history + [e]
  }

  class FileSystem {
    var files: seq<OpenFile>
    var tables: seq<Table>
    /** The calls of vfs_open and vfs_close so far. */
    ghost var history: seq<Event>

    /** Every count is right. */
    ghost predicate Valid()
      reads this
    {
      Ok(files, tables, history)
    }

    /** What also holds after opens that went wrong. */
    ghost predicate Consistent()
      reads this
    {
      Sound(files, tables, history)
    }

    /** At boot: an empty system table and no process. */
    constructor ()
      ensures Valid() && Consistent() && tables == [] && history == []
      ensures files == seq(SYSTEM_OPEN_MAX, _ => UNUSED)
    {
      files := seq(SYSTEM_OPEN_MAX, _ => UNUSED);
      tables, history := [], [];
      new;
      NothingHeld(files);
      forall v: Vnode ensures Balanced(files, history, v) {
        HeldCount(files, v);
      }
    }

    /** A process with no descriptor yet. */
    method AddProcess() returns (p: nat)
      requires Consistent()
      modifies this`tables
      ensures Consistent() && (old(Valid()) ==> Valid())
      ensures p == |old(tables)| && tables == old(tables) + [seq(OPEN_MAX, _ => None)]
    {
      p := |tables|;
      var empty := seq(OPEN_MAX, _ => None);
      forall f: nat ensures Refs(tables + [empty], f) == Refs(tables, f) {
        RefsAppend(tables, empty, f);
      }
      tables := tables + [empty];
    }

    /**
     * console_init: a standard descriptor gets an open file of its own, on the
     * console's one vnode.
     */
    method ConsoleInit(p: nat, fd: nat, v: Vnode)
      requires Consistent() && p < |tables| && fd < OPEN_MAX && tables[p][fd] == None
      modifies this
      ensures Consistent() && (old(Valid()) ==> Valid())
      ensures tables == old(tables)[p := old(tables)[p][fd := Some(|old(files)|)]]
      ensures files == old(files) + [OpenFile(Some(v), 1, true)]
      ensures history == old(history) + [Opened(|old(files)|, v)]
    {
      ghost var more := files + [UNUSED];
      GrowLedger(files, history);
      if CountsOk(files, tables) {
        GrowCounts(files, tables);
        OpenOk(more, tables, history, p, fd, |files|, v);
      }
      OpenSound(more, tables, history, p, fd, |files|, v);
      assert more[|files| := OpenFile(Some(v), 1, true)] == files + [OpenFile(Some(v), 1, true)];
      tables := tables[p := tables[p][fd := Some(|files|)]];
      history := history + [Opened(|files|, v)];
      files := files + [OpenFile(Some(v), 1, true)];
    }

    /** The search of the system table. */
    method FreeEntry() returns (of: Option<nat>)
      requires |files| >= SYSTEM_OPEN_MAX
      ensures var f := FirstEntry(files, 0); of == if f == SYSTEM_OPEN_MAX then None else Some(f)
    {
      var index := 0;
      while index < SYSTEM_OPEN_MAX
        invariant index <= SYSTEM_OPEN_MAX && FirstEntry(files, index) == FirstEntry(files, 0)
      {
        if files[index].vn == None {
          return Some(index);
        }
        index := index + 1;
      }
      return None;
    }

    /** The search of the process's table, which skips the three standard descriptors. */
    method FreeDescriptor(p: nat) returns (fd: nat)
      requires p < |tables| && |tables[p]| == OPEN_MAX
      ensures fd == FirstFree(tables[p], 3)
    {
      fd := 3;
      while fd < OPEN_MAX
        invariant 3 <= fd <= OPEN_MAX && FirstFree(tables[p], fd) == FirstFree(tables[p], 3)
      {
        if tables[p][fd] == None {
          return;
        }
        fd := fd + 1;
      }
    }

    /**
     * sys_open_SHELL once vfs_open has returned the vnode v, which may be open
     * already.  It keeps the counts right exactly when the system table has room and
     * the first free descriptor is below OPEN_MAX - 1, or when the system table is
     * full; then the vnode is lost.
     */
    method Open(p: nat, v: Vnode) returns (result: OpenResult)
      requires Consistent() && p < |tables|
      modifies this
      ensures Consistent() && result == OpenOutcome(old(files), old(tables)[p])
      ensures result.SystemTableFull? ==>
                files == old(files) && tables == old(tables) && history == old(history) + [Leaked(v)]
      ensures !result.SystemTableFull? ==>
                var f := FirstEntry(old(files), 0);
                OpenedAs(old(files), old(tables), old(history), files, tables, history, p, result, f, v)
      ensures old(Valid()) ==> (Valid() <==> result.Descriptor? || result.SystemTableFull?)
    {
      var of := FreeEntry();
      if of == None {
        LedgerLeak(files, history, v);
        assert NoneStranded(history + [Leaked(v)]) ==> NoneStranded(history) by {
          assert history <= history + [Leaked(v)];
        }
        history := history + [Leaked(v)];
        return SystemTableFull;
      }
      var fd := FreeDescriptor(p);
      result := Enter(p, fd, of.value, v);
    }

    /** The vnode goes to the entry found and, if there is one, the descriptor found. */
    method Enter(p: nat, fd: nat, f: nat, v: Vnode) returns (result: OpenResult)
      requires Consistent() && p < |tables| && fd <= OPEN_MAX && (fd < OPEN_MAX ==> tables[p][fd] == None)
      requires f < |files| && files[f].vn == None
      modifies this
      ensures Consistent()
      ensures result == if fd < OPEN_MAX - 1 then Descriptor(fd)
                        else if fd < OPEN_MAX then LastDescriptor
                        else PastTheTable
      ensures OpenedAs(old(files), old(tables), old(history), files, tables, history, p, result, f, v)
      ensures old(Valid()) ==> (Valid() <==> result.Descriptor?)
    {
      if Valid() && fd < OPEN_MAX {
        OpenOk(files, tables, history, p, fd, f, v);
        StaleCount(files, tables, p, fd, f, v);
      }
      if fd < OPEN_MAX - 1 {
        OpenSound(files, tables, history, p, fd, f, v);
      } else {
        ghost var tables' := if fd < OPEN_MAX then tables[p := tables[p][fd := Some(f)]] else tables;
        StrandSound(files, tables, history, tables', f, v);
      }
      history := history + [if fd < OPEN_MAX - 1 then Opened(f, v) else Stranded(f, v)];
      files := files[f := files[f].(vn := Some(v))];
      if fd == OPEN_MAX {
        assert old(Valid()) ==> Counted(old(files)[f], Refs(tables, f));
        assert old(Valid()) ==> !Counted(files[f], Refs(tables, f));
        return PastTheTable;
      }
      tables := tables[p := tables[p][fd := Some(f)]];
      if fd == OPEN_MAX - 1 {
        return LastDescriptor;
      }
      files := files[f := files[f].(refs := 1, lock := true)];
      assert files == old(files)[f := OpenFile(Some(v), 1, true)];
      return Descriptor(fd);
    }

    /**
     * The common part of close and of dup2 on a descriptor in use.  When the counts
     * are right, the vnode is closed exactly when this was its last descriptor.  A
     * count of zero wraps and the vnode stays; an entry without a lock, or without a
     * vnode to close, is a failed assertion.
     */
    method Drop(p: nat, fd: nat) returns (panic: bool)
      requires Consistent() && p < |tables| && fd < OPEN_MAX && tables[p][fd] != None
      modifies this
      ensures Consistent() && |tables| == |old(tables)| && AtMostCloses(old(history), history)
      ensures panic <==> Faulty(old(files)[old(tables)[p][fd].value])
      ensures !panic ==>
                var f := old(tables)[p][fd].value;
                && tables == old(tables)[p := old(tables)[p][fd := None]]
                && files == old(files)[f := Dropped(old(files)[f])] && history == Calls(old(files)[f], f, old(history))
      ensures old(Valid()) ==>
                && Valid() && !panic
                && ClosesLast(old(files), old(tables), old(tables)[p][fd], old(history), history)
    {
      var f := tables[p][fd].value;
      DropSound(files, tables, history, p, fd, f);
      if Valid() {
        DropOk(files, tables, history, p, fd, f);
      }
      if !files[f].lock {
        return true;
      }
      tables := tables[p := tables[p][fd := None]];
      var vn := files[f].vn;
      history := Calls(files[f], f, history);
      var refs := if files[f].refs == 0 then Numerals.UINT_WRAP - 1 else files[f].refs - 1;
      if refs > 0 {
        files := files[f := files[f].(refs := refs)];
        return false;
      }
      files := files[f := files[f].(vn := None, refs := 0)];
      return vn == None;
    }

    /** sys_close_SHELL. */
    method Close(p: nat, fd: int) returns (r: CallResult)
      requires Consistent() && p < |tables|
      modifies this
      ensures Consistent() && |tables| == |old(tables)| && AtMostCloses(old(history), history)
      ensures r == Error(EBADF) <==> !(0 <= fd < OPEN_MAX) || old(tables)[p][fd] == None
      ensures r == Panicked <==>
                0 <= fd < OPEN_MAX && old(tables)[p][fd] != None && Faulty(old(files)[old(tables)[p][fd].value])
      ensures r.Error? ==> files == old(files) && tables == old(tables) && history == old(history)
      ensures r == Success ==>
                var f := old(tables)[p][fd].value;
                && tables == old(tables)[p := old(tables)[p][fd := None]]
                && files == old(files)[f := Dropped(old(files)[f])] && history == Calls(old(files)[f], f, old(history))
      ensures old(Valid()) ==> Valid() && r != Panicked
      ensures old(Valid()) && r == Success ==>
                ClosesLast(old(files), old(tables), old(tables)[p][fd], old(history), history)
    {
      if fd < 0 || fd >= OPEN_MAX {
        return Error(EBADF);
      } else if tables[p][fd] == None {
        return Error(EBADF);
      }
      var panic := Drop(p, fd);
      return if panic then Panicked else Success;
    }

    /** sys_dup2_SHELL. */
    method Dup2(p: nat, oldfd: int, newfd: int) returns (r: CallResult, retval: int)
      requires Consistent() && p < |tables|
      modifies this
      ensures Consistent() && |tables| == |old(tables)| && AtMostCloses(old(history), history)
      ensures r == Error(EBADF) <==>
                !(0 <= oldfd < OPEN_MAX) || !(0 <= newfd < OPEN_MAX) || old(tables)[p][oldfd] == None
      ensures r == Panicked <==>
                && 0 <= oldfd < OPEN_MAX && 0 <= newfd < OPEN_MAX && oldfd != newfd && old(tables)[p][oldfd] != None
                && DuplicateFails(old(files), old(tables)[p][newfd], old(tables)[p][oldfd].value)
      ensures r.Error? ==> files == old(files) && tables == old(tables) && history == old(history)
      ensures r == Success ==>
                retval == newfd && tables == old(tables)[p := old(tables)[p][newfd := old(tables)[p][oldfd]]]
      ensures r == Success && oldfd != newfd ==>
                var x, g := old(tables)[p][newfd], old(tables)[p][oldfd].value;
                var mid := Vacated(old(files), x);
                files == mid[g := Shared(mid[g])] && history == VacatedCalls(old(files), x, old(history))
      ensures r == Success && oldfd == newfd ==> files == old(files) && history == old(history)
      ensures old(Valid()) ==> r != Panicked && (|tables| < PROCESSES ==> Valid())
      ensures old(Valid()) && r == Success ==>
                ClosesLast(old(files), old(tables), if oldfd == newfd then None else old(tables)[p][newfd],
                           old(history), history)
    {
      retval := 0;
      if oldfd < 0 || oldfd >= OPEN_MAX || newfd < 0 || newfd >= OPEN_MAX {
        return Error(EBADF), retval;
      } else if tables[p][oldfd] == None {
        return Error(EBADF), retval;
      } else if oldfd == newfd {
        assert tables[p][newfd := tables[p][oldfd]] == tables[p];
        return Success, newfd;
      }
      var panic := Duplicate(p, oldfd, newfd);
      return if panic then Panicked else Success, newfd;
    }

    /** Its work on two different descriptors. */
    method Duplicate(p: nat, oldfd: nat, newfd: nat) returns (panic: bool)
      requires Consistent() && p < |tables| && oldfd < OPEN_MAX && newfd < OPEN_MAX && oldfd != newfd
      requires tables[p][oldfd] != None
      modifies this
      ensures Consistent() && |tables| == |old(tables)| && AtMostCloses(old(history), history)
      ensures panic <==> DuplicateFails(old(files), old(tables)[p][newfd], old(tables)[p][oldfd].value)
      ensures !panic ==> tables == old(tables)[p := old(tables)[p][newfd := old(tables)[p][oldfd]]]
      ensures !panic ==>
                var x, g := old(tables)[p][newfd], old(tables)[p][oldfd].value;
                var mid := Vacated(old(files), x);
                files == mid[g := Shared(mid[g])] && history == VacatedCalls(old(files), x, old(history))
      ensures old(Valid()) ==> !panic && (|tables| < PROCESSES ==> Valid())
      ensures old(Valid()) ==> ClosesLast(old(files), old(tables), old(tables)[p][newfd], old(history), history)
    {
      SlotTwice(tables, p, newfd, tables[p][oldfd]);
      assert tables[p][newfd := None][oldfd] == tables[p][oldfd];
      panic := Vacate(p, newfd);
      if !panic {
        panic := Share(p, oldfd, newfd);
      }
    }

    /** The first half of dup2: whatever newfd referred to is let go. */
    method Vacate(p: nat, fd: nat) returns (panic: bool)
      requires Consistent() && p < |tables| && fd < OPEN_MAX
      modifies this
      ensures Consistent() && |tables| == |old(tables)| && AtMostCloses(old(history), history)
      ensures panic <==> old(tables)[p][fd] != None && Faulty(old(files)[old(tables)[p][fd].value])
      ensures !panic ==> tables == old(tables)[p := old(tables)[p][fd := None]]
      ensures !panic ==>
                var x := old(tables)[p][fd];
                files == Vacated(old(files), x) && history == VacatedCalls(old(files), x, old(history))
      ensures old(Valid()) ==>
                && Valid() && !panic
                && ClosesLast(old(files), old(tables), old(tables)[p][fd], old(history), history)
    {
      if tables[p][fd] != None {
        panic := Drop(p, fd);
      } else {
        assert tables[p][fd := None] == tables[p];
        return false;
      }
    }

    /** The second half of dup2: one descriptor more for the file of oldfd. */
    method Share(p: nat, oldfd: nat, newfd: nat) returns (panic: bool)
      requires Consistent() && p < |tables| && oldfd < OPEN_MAX && newfd < OPEN_MAX
      requires tables[p][oldfd] != None && tables[p][newfd] == None
      modifies this`files, this`tables
      ensures Consistent() && |tables| == |old(tables)| && (panic <==> !old(files)[old(tables)[p][oldfd].value].lock)
      ensures !panic ==>
                var f := old(tables)[p][oldfd].value;
                && tables == old(tables)[p := old(tables)[p][newfd := Some(f)]]
                && files == old(files)[f := Shared(old(files)[f])]
      ensures old(Valid()) ==> !panic && (|tables| < PROCESSES ==> Valid())
    {
      var f := tables[p][oldfd].value;
      RefsAt(tables, p, oldfd, f);
      ShareSound(files, tables, history, p, oldfd, newfd, f);
      if Valid() {
        assert Counted(files[f], Refs(tables, f));
        if |tables| < PROCESSES {
          ShareOk(files, tables, history, p, newfd, f);
        }
      }
      if !files[f].lock {
        return true;
      }
      files := files[f := Shared(files[f])];
      tables := tables[p := tables[p][newfd := Some(f)]];
      return false;
    }
  }

  /** Entry f, free before, now holds v; what else open did depends on how it ended. */
  ghost predicate OpenedAs(files: seq<OpenFile>, tables: seq<Table>, history: seq<Event>,
                           files': seq<OpenFile>, tables': seq<Table>, history': seq<Event>,
                           p: nat, result: OpenResult, f: nat, v: Vnode)
  {
    && f < |files| && p < |tables| && |tables[p]| == OPEN_MAX && files[f].vn == None
    && match result
       case Descriptor(fd) =>
         && fd < OPEN_MAX && files' == files[f := OpenFile(Some(v), 1, true)]
         && tables' == tables[p := tables[p][fd := Some(f)]] && history' == history + [Opened(f, v)]
       case LastDescriptor =>
         && files' == files[f := files[f].(vn := Some(v))]
         && tables' == tables[p := tables[p][OPEN_MAX - 1 := Some(f)]] && history' == history + [Stranded(f, v)]
       case PastTheTable =>
         files' == files[f := files[f].(vn := Some(v))] && tables' == tables && history' == history + [Stranded(f, v)]
       case SystemTableFull => false
  }
}
