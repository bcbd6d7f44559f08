/** Runs of the calls on open files: what holds at the end of each, and runs in which something goes wrong. */
module FileRuns {
  import opened Chains
  import opened FileTables
  import Numerals

  /** A call of the kernel: a process is created, a console descriptor is set up, or a process makes a system call. */
  datatype Call =
    | NewProcess
    | Console(p: nat, slot: nat, v: Vnode)
    | OpenFileCall(p: nat, v: Vnode)
    | CloseCall(p: nat, fd: int)
    | Dup2Call(p: nat, oldfd: int, newfd: int)

  /** The call can be made: its process exists, and a console descriptor is set up once. */
  predicate Possible(fs: FileSystem, call: Call)
    requires TablesOk(fs.files, fs.tables)
    reads fs
  {
    match call
    case NewProcess => true
    case Console(p, fd, _) => p < |fs.tables| && fd < OPEN_MAX && fs.tables[p][fd] == None
    case OpenFileCall(p, _) => p < |fs.tables|
    case CloseCall(p, _) => p < |fs.tables|
    case Dup2Call(p, _, _) => p < |fs.tables|
  }

  /** The guard of the call, if it is an open, holds. */
  ghost predicate Guarded(fs: FileSystem, call: Call)
    requires TablesOk(fs.files, fs.tables) && Possible(fs, call)
    reads fs
  {
    call.OpenFileCall? ==> OpenGuard(fs.files, fs.tables[call.p])
  }

  lemma EventMore(history: seq<Event>, e: Event)
    ensures NoneFailed(history + [e]) <==> NoneFailed(history) && !e.Stranded? && !e.Leaked?
    ensures NoneStranded(history + [e]) <==> NoneStranded(history) && !e.Stranded?
  {
    var after := history + [e];
    assert forall i :: 0 <= i < |history| ==> after[i] == history[i];
    assert after[|history|] == e;
  }

  lemma OpenEvents(history: seq<Event>, f: nat, v: Vnode)
    ensures NoneFailed(history + [Opened(f, v)]) <==> NoneFailed(history)
    ensures !NoneFailed(history + [Stranded(f, v)]) && !NoneFailed(history + [Leaked(v)])
  {
    EventMore(history, Opened(f, v));
    EventMore(history, Stranded(f, v));
    EventMore(history, Leaked(v));
  }

  lemma ClosesDoNotFail(history: seq<Event>, history': seq<Event>)
    requires AtMostCloses(history, history')
    ensures NoneFailed(history') <==> NoneFailed(history)
    ensures NoneStranded(history') <==> NoneStranded(history)
  {
    if history' != history {
      var e: Event :| e.Closed? && history' == history + [e];
      EventMore(history, e);
    }
  }

  /** What a call that does not panic does to the descriptors: nothing, if it fails. */
  ghost predicate Performed(was: seq<Table>, now: seq<Table>, files: seq<OpenFile>, call: Call)
    requires TablesOk(files, was)
  {
    match call
    case NewProcess => now == was + [seq(OPEN_MAX, _ => None)]
    case Console(p, fd, _) => p < |was| && fd < OPEN_MAX && now == was[p := was[p][fd := Some(|files|)]]
    case OpenFileCall(p, _) =>
      && p < |was| && |now| == |was|
      && (OpenGuard(files, was[p]) ==>
            var fd, f := FirstFree(was[p], 3), FirstEntry(files, 0);
            fd < OPEN_MAX && now == was[p := was[p][fd := Some(f)]])
    case CloseCall(p, fd) =>
      p < |was| && now == if 0 <= fd < OPEN_MAX && was[p][fd] != None then was[p := was[p][fd := None]] else was
    case Dup2Call(p, oldfd, newfd) =>
      p < |was| && now == if 0 <= oldfd < OPEN_MAX && 0 <= newfd < OPEN_MAX && was[p][oldfd] != None
                          then was[p := was[p][newfd := was[p][oldfd]]] else was
  }

  /** Makes one call; its guard fails exactly when the history then records a failed open. */
  method Perform(fs: FileSystem, call: Call) returns (panic: bool)
    requires fs.Consistent() && Possible(fs, call)
    modifies fs
    ensures fs.Consistent() && |fs.tables| >= old(|fs.tables|)
    ensures NoneFailed(fs.history) <==> NoneFailed(old(fs.history)) && old(Guarded(fs, call))
    ensures NoneStranded(old(fs.history)) && old(|fs.tables|) < PROCESSES ==> !panic
    ensures panic || Performed(old(fs.tables), fs.tables, old(fs.files), call)
  {
    panic := false;
    match call
    case NewProcess =>
      var _ := fs.AddProcess();
    case Console(p, fd, v) =>
      EventMore(fs.history, Opened(|fs.files|, v));
      fs.ConsoleInit(p, fd, v);
    case OpenFileCall(p, v) =>
      GuardIs(fs.files, fs.tables[p]);
      OpenEvents(fs.history, FirstEntry(fs.files, 0), v);
      var _ := fs.Open(p, v);
    case CloseCall(p, fd) =>
      var r := fs.Close(p, fd);
      ClosesDoNotFail(old(fs.history), fs.history);
      panic := r == Panicked;
    case Dup2Call(p, oldfd, newfd) =>
      var r, _ := fs.Dup2(p, oldfd, newfd);
      ClosesDoNotFail(old(fs.history), fs.history);
      panic := r == Panicked;
  }

  /**
   * Every run from boot, ended early by a panic if there is one.  Failed opens
   * included, every vnode opened has been closed, was lost to a full system table, or
   * is held by an entry.  When no slot is left, all is closed if every open met its
   * guard; and in a run in which no open failed half-way, exactly if none was lost.
   */
  method Run(calls: seq<Call>) returns (fs: FileSystem, panic: bool, ghost guarded: bool)
    ensures fs.Consistent() && (guarded <==> NoneFailed(fs.history))
    ensures Opens(fs.history) == Closes(fs.history) + Leaks(fs.history) + Held(fs.files)
    ensures NoSlot(fs.tables) && NoneStranded(fs.history) && |fs.tables| < PROCESSES ==>
              (Opens(fs.history) == Closes(fs.history) <==> Leaks(fs.history) == multiset{})
    ensures guarded && |fs.tables| < PROCESSES ==>
              !panic && fs.Valid() && (NoSlot(fs.tables) ==> Opens(fs.history) == Closes(fs.history))
  {
    fs := new FileSystem();
    panic, guarded := false, true;
    var i := 0;
    while i < |calls| && !panic
      invariant i <= |calls| && fresh(fs) && fs.Consistent() && (guarded <==> NoneFailed(fs.history))
      invariant panic ==> !guarded || |fs.tables| >= PROCESSES
    {
      if Possible(fs, calls[i]) {
        guarded := guarded && Guarded(fs, calls[i]);
        panic := Perform(fs, calls[i]);
      }
      i := i + 1;
    }
    RunEnds(fs.files, fs.tables, fs.history);
  }

  lemma RunEnds(files: seq<OpenFile>, tables: seq<Table>, history: seq<Event>)
    requires Sound(files, tables, history)
    ensures Opens(history) == Closes(history) + Leaks(history) + Held(files)
    ensures NoSlot(tables) && NoneStranded(history) && |tables| < PROCESSES ==>
              (Opens(history) == Closes(history) <==> Leaks(history) == multiset{})
    ensures NoneFailed(history) && |tables| < PROCESSES ==>
              Ok(files, tables, history) && (NoSlot(tables) ==> Opens(history) == Closes(history))
  {
    AllAccounted(files, history);
    if NoneFailed(history) {
      NoLeaks(history);
      assert NoneStranded(history);
    }
    if NoSlot(tables) && NoneStranded(history) && |tables| < PROCESSES {
      AllClosed(files, tables, history);
    }
  }

  // ------------------------------------------------------------------------
  // A vnode that is never closed although none was lost
  // ------------------------------------------------------------------------

  /** Descriptors from lo to hi - 1 refer to entry f. */
  function Row(lo: nat, hi: nat, f: nat): Table {
    seq(OPEN_MAX, fd => if lo <= fd < hi then Some(f) else None)
  }

  /** Only the first two entries have been used. */
  function Entries(a: OpenFile, b: OpenFile): seq<OpenFile> {
    [a, b] + seq(SYSTEM_OPEN_MAX - 2, _ => UNUSED)
  }

  lemma EntriesUpdate(a: OpenFile, b: OpenFile, x: OpenFile)
    ensures Entries(a, b)[0 := x] == Entries(x, b) && Entries(a, b)[1 := x] == Entries(a, x)
  {
  }

  lemma FirstFreeIs(table: Table, fd: nat)
    requires |table| == OPEN_MAX && 3 <= fd < OPEN_MAX && table[fd] == None
    requires forall k :: 3 <= k < fd ==> table[k] != None
    ensures FirstFree(table, 3) == fd
  {
  }

  lemma FirstEntryIs(files: seq<OpenFile>, f: nat)
    requires |files| >= SYSTEM_OPEN_MAX > f && files[f].vn == None && forall k :: 0 <= k < f ==> files[k].vn != None
    ensures FirstEntry(files, 0) == f
  {
  }

  const FIRST: Vnode := 1
  const SECOND: Vnode := 2
  const THIRD: Vnode := 3

  /** Entry 0 open for n descriptors. */
  function Used(n: Count): OpenFile {
    OpenFile(Some(FIRST), n, true)
  }

  /** An entry that was open and has been closed. */
  const EMPTIED: OpenFile := OpenFile(None, 0, true)

  const BEGINNING: seq<Event> := [Opened(0, FIRST), Opened(1, SECOND), Closed(1, SECOND)]

  /** A process opens its first file. */
  method OpenOne() returns (fs: FileSystem)
    ensures fresh(fs) && fs.Consistent() && fs.Valid()
    ensures fs.tables == [Row(3, 4, 0)] && fs.files == Entries(Used(1), UNUSED) && fs.history == [Opened(0, FIRST)]
  {
    fs := new FileSystem();
    assert fs.files == Entries(UNUSED, UNUSED);
    var p := fs.AddProcess();
    FirstFreeIs(fs.tables[0], 3);
    FirstEntryIs(fs.files, 0);
    EntriesUpdate(UNUSED, UNUSED, Used(1));
    var r := fs.Open(p, FIRST);
    assert fs.tables[0] == Row(3, 4, 0);
  }

  /** Another file is opened and closed: entry 0 is open, entry 1 was. */
  method OpenTwo() returns (fs: FileSystem)
    ensures fresh(fs) && fs.Consistent() && fs.Valid()
    ensures fs.tables == [Row(3, 4, 0)] && fs.files == Entries(Used(1), EMPTIED) && fs.history == BEGINNING
  {
    fs := OpenOne();
    FirstFreeIs(fs.tables[0], 4);
    FirstEntryIs(fs.files, 1);
    EntriesUpdate(Used(1), UNUSED, OpenFile(Some(SECOND), 1, true));
    EntriesUpdate(Used(1), OpenFile(Some(SECOND), 1, true), EMPTIED);
    var r := fs.Open(0, SECOND);
    assert fs.tables == [Row(3, 4, 0)[4 := Some(1)]];
    var c := fs.Close(0, 4);
    assert fs.tables[0] == Row(3, 4, 0);
  }

  /** Copies of descriptor 3 take every other descriptor but the last. */
  method CopyMany(fs: FileSystem)
    requires fs.Consistent() && fs.Valid() && fs.tables == [Row(3, 4, 0)] && fs.files == Entries(Used(1), EMPTIED)
    modifies fs
    ensures fs.Consistent() && fs.Valid() && fs.history == old(fs.history)
    ensures fs.tables == [Row(3, OPEN_MAX - 1, 0)] && fs.files == Entries(Used(OPEN_MAX - 4), EMPTIED)
  {
    var k := 4;
    while k < OPEN_MAX - 1
      invariant 4 <= k <= OPEN_MAX - 1 && fs.Consistent() && fs.Valid() && fs.history == old(fs.history)
      invariant fs.tables == [Row(3, k, 0)] && fs.files == Entries(Used(k - 3), EMPTIED)
    {
      var r, _ := fs.Dup2(0, 3, k);
      EntriesUpdate(Used(k - 3), EMPTIED, Used(k - 2));
      assert fs.tables[0] == Row(3, k + 1, 0);
      k := k + 1;
    }
  }

  /** The next open takes the last descriptor and fails; the counts are wrong from then on. */
  method OpenLast() returns (fs: FileSystem, result: OpenResult)
    ensures fresh(fs) && fs.Consistent() && result == LastDescriptor && !fs.Valid()
    ensures fs.tables == [Row(3, OPEN_MAX - 1, 0)[OPEN_MAX - 1 := Some(1)]]
    ensures fs.files == Entries(Used(OPEN_MAX - 4), OpenFile(Some(THIRD), 0, true))
    ensures fs.history == BEGINNING + [Stranded(1, THIRD)]
  {
    fs := OpenTwo();
    CopyMany(fs);
    FirstFreeIs(fs.tables[0], OPEN_MAX - 1);
    FirstEntryIs(fs.files, 1);
    EntriesUpdate(Used(OPEN_MAX - 4), EMPTIED, OpenFile(Some(THIRD), 0, true));
    result := fs.Open(0, THIRD);
  }

  /** Closes the copies from lo on, the last of which closes the first vnode. */
  method CloseCopies(fs: FileSystem, lo: nat, ghost b: OpenFile)
    requires fs.Consistent() && 3 <= lo < OPEN_MAX - 1
    requires fs.tables == [Row(lo, OPEN_MAX - 1, 0)] && fs.files == Entries(Used(OPEN_MAX - 1 - lo), b)
    modifies fs
    ensures fs.Consistent() && NoSlot(fs.tables) && |fs.tables| == 1
    ensures fs.files == Entries(EMPTIED, b) && fs.history == old(fs.history) + [Closed(0, FIRST)]
  {
    var k := lo;
    while k < OPEN_MAX - 1
      invariant lo <= k <= OPEN_MAX - 1 && fs.Consistent() && fs.tables == [Row(k, OPEN_MAX - 1, 0)]
      invariant k < OPEN_MAX - 1 ==> fs.files == Entries(Used(OPEN_MAX - 1 - k), b) && fs.history == old(fs.history)
      invariant k == OPEN_MAX - 1 ==>
                  fs.files == Entries(EMPTIED, b) && fs.history == old(fs.history) + [Closed(0, FIRST)]
    {
      var r := fs.Close(0, k);
      EntriesUpdate(Used(OPEN_MAX - 1 - k), b, Dropped(Used(OPEN_MAX - 1 - k)));
      assert fs.tables[0] == Row(k + 1, OPEN_MAX - 1, 0);
      k := k + 1;
    }
  }

  lemma NoLeakIn(history: seq<Event>, more: seq<Event>)
    requires forall i :: 0 <= i < |history| ==> !history[i].Leaked?
    requires forall i :: 0 <= i < |more| ==> !more[i].Leaked?
    ensures Leaks(history + more) == multiset{}
  {
    NoLeaks(history + more);
  }

  /**
   * A run in which no vnode is lost to a full system table, all descriptors are
   * closed, and still a vnode is never closed: the zero count of the entry wrapped.
   */
  method NeverClosed() returns (fs: FileSystem)
    ensures fs.Consistent() && NoSlot(fs.tables) && Leaks(fs.history) == multiset{}
    ensures Opens(fs.history) != Closes(fs.history)
  {
    var result;
    fs, result := OpenLast();
    var r := fs.Close(0, OPEN_MAX - 1);
    ghost var b := OpenFile(Some(THIRD), Numerals.UINT_WRAP - 1, true);
    EntriesUpdate(Used(OPEN_MAX - 4), OpenFile(Some(THIRD), 0, true), b);
    assert fs.tables[0] == Row(3, OPEN_MAX - 1, 0);
    CloseCopies(fs, 3, b);
    HeldAt(fs.files, 1);
    NoLeakIn(BEGINNING + [Stranded(1, THIRD)], [Closed(0, FIRST)]);
    AllAccounted(fs.files, fs.history);
  }

  /**
   * A run with the same failed open in which all is closed after all: a copy of the
   * last descriptor counts once, although there are two, and its close is one too
   * many for the other.
   */
  method ClosedAfterAll() returns (fs: FileSystem)
    ensures fs.Consistent() && NoSlot(fs.tables) && !NoneStranded(fs.history)
    ensures Opens(fs.history) == Closes(fs.history)
  {
    var result;
    fs, result := OpenLast();
    CloseStranded(fs);
    ghost var b := OpenFile(None, Numerals.UINT_WRAP - 1, true);
    CloseCopies(fs, 4, b);
    NothingHeld(fs.files);
    NoLeakIn(BEGINNING + [Stranded(1, THIRD), Closed(1, THIRD)], [Closed(0, FIRST)]);
    AllAccounted(fs.files, fs.history);
    assert fs.history[|BEGINNING|] == Stranded(1, THIRD);
  }

  /** Descriptor 3 becomes a copy of the last one, and both are closed. */
  method CloseStranded(fs: FileSystem)
    requires fs.Consistent() && fs.tables == [Row(3, OPEN_MAX - 1, 0)[OPEN_MAX - 1 := Some(1)]]
    requires fs.files == Entries(Used(OPEN_MAX - 4), OpenFile(Some(THIRD), 0, true))
    requires fs.history == BEGINNING + [Stranded(1, THIRD)]
    modifies fs
    ensures fs.Consistent() && fs.tables == [Row(4, OPEN_MAX - 1, 0)]
    ensures fs.files == Entries(Used(OPEN_MAX - 5), OpenFile(None, Numerals.UINT_WRAP - 1, true))
    ensures fs.history == BEGINNING + [Stranded(1, THIRD), Closed(1, THIRD)]
  {
    CopyLast(fs);
    CloseLast(fs);
    EntriesUpdate(Used(OPEN_MAX - 5), EMPTIED, OpenFile(None, Numerals.UINT_WRAP - 1, true));
    var r := fs.Close(0, 3);
    assert fs.tables[0] == Row(4, OPEN_MAX - 1, 0);
  }

  method CloseLast(fs: FileSystem)
    requires fs.Consistent() && fs.tables == [Row(4, OPEN_MAX - 1, 0)[OPEN_MAX - 1 := Some(1)][3 := Some(1)]]
    requires fs.files == Entries(Used(OPEN_MAX - 5), OpenFile(Some(THIRD), 1, true))
    modifies fs
    ensures fs.Consistent() && fs.tables == [Row(4, OPEN_MAX - 1, 0)[3 := Some(1)]]
    ensures fs.files == Entries(Used(OPEN_MAX - 5), EMPTIED) && fs.history == old(fs.history) + [Closed(1, THIRD)]
  {
    EntriesUpdate(Used(OPEN_MAX - 5), OpenFile(Some(THIRD), 1, true), EMPTIED);
    var r := fs.Close(0, OPEN_MAX - 1);
    assert fs.tables[0] == Row(4, OPEN_MAX - 1, 0)[3 := Some(1)];
  }

  method CopyLast(fs: FileSystem)
    requires fs.Consistent() && fs.tables == [Row(3, OPEN_MAX - 1, 0)[OPEN_MAX - 1 := Some(1)]]
    requires fs.files == Entries(Used(OPEN_MAX - 4), OpenFile(Some(THIRD), 0, true))
    modifies fs
    ensures fs.Consistent() && fs.history == old(fs.history)
    ensures fs.tables == [Row(4, OPEN_MAX - 1, 0)[OPEN_MAX - 1 := Some(1)][3 := Some(1)]]
    ensures fs.files == Entries(Used(OPEN_MAX - 5), OpenFile(Some(THIRD), 1, true))
  {
    EntriesUpdate(Used(OPEN_MAX - 4), OpenFile(Some(THIRD), 0, true), Used(OPEN_MAX - 5));
    EntriesUpdate(Used(OPEN_MAX - 5), OpenFile(Some(THIRD), 0, true), OpenFile(Some(THIRD), 1, true));
    var r, _ := fs.Dup2(0, OPEN_MAX - 1, 3);
    assert fs.tables[0] == Row(4, OPEN_MAX - 1, 0)[OPEN_MAX - 1 := Some(1)][3 := Some(1)];
  }

  // ------------------------------------------------------------------------
  // A vnode lost to a full system table
  // ------------------------------------------------------------------------

  /** The first n entries of the system table are taken, and no others. */
  ghost predicate Taken(files: seq<OpenFile>, n: nat) {
    |files| == SYSTEM_OPEN_MAX >= n && forall f :: 0 <= f < |files| ==> (files[f].vn != None <==> f < n)
  }

  /** A new process opens m files. */
  method OpenMany(fs: FileSystem, n: nat, m: nat) returns (p: nat)
    requires fs.Consistent() && fs.Valid() && Taken(fs.files, n) && n + m <= SYSTEM_OPEN_MAX && m <= OPEN_MAX - 4
    modifies fs
    ensures fs.Consistent() && fs.Valid() && Taken(fs.files, n + m)
    ensures p == old(|fs.tables|) && |fs.tables| == p + 1
  {
    p := fs.AddProcess();
    var k := 0;
    while k < m
      invariant k <= m && fs.Consistent() && fs.Valid() && Taken(fs.files, n + k) && |fs.tables| == p + 1
      invariant forall fd :: 0 <= fd < OPEN_MAX ==> (fs.tables[p][fd] == None <==> fd < 3 || fd >= 3 + k)
    {
      FirstFreeIs(fs.tables[p], 3 + k);
      FirstEntryIs(fs.files, n + k);
      var r := fs.Open(p, k);
      k := k + 1;
    }
  }

  /** Eleven processes fill the system table, and the next vnode opened is lost. */
  method FillTable(v: Vnode) returns (fs: FileSystem, result: OpenResult)
    ensures fresh(fs) && fs.Consistent() && fs.Valid() && |fs.tables| == 11
    ensures result == SystemTableFull && Leaks(fs.history)[v] >= 1
  {
    fs := new FileSystem();
    var k := 0;
    while k < 10
      invariant k <= 10 && fresh(fs) && fs.Consistent() && fs.Valid() && |fs.tables| == k
      invariant Taken(fs.files, k * (OPEN_MAX - 4))
    {
      var _ := OpenMany(fs, k * (OPEN_MAX - 4), OPEN_MAX - 4);
      k := k + 1;
    }
    var p := OpenMany(fs, 10 * (OPEN_MAX - 4), SYSTEM_OPEN_MAX - 10 * (OPEN_MAX - 4));
    assert FirstEntry(fs.files, 0) == SYSTEM_OPEN_MAX;
    CallsSnoc(fs.history, Leaked(v), v);
    result := fs.Open(p, v);
  }

  /** Every descriptor of every process is closed. */
  method CloseAll(fs: FileSystem)
    requires fs.Consistent() && fs.Valid()
    modifies fs
    ensures fs.Consistent() && fs.Valid() && NoSlot(fs.tables) && |fs.tables| == old(|fs.tables|)
    ensures Leaks(fs.history) == Leaks(old(fs.history))
  {
    var p := 0;
    while p < |fs.tables|
      invariant p <= |fs.tables| == old(|fs.tables|) && fs.Consistent() && fs.Valid()
      invariant Leaks(fs.history) == Leaks(old(fs.history))
      invariant forall q, fd :: 0 <= q < p && 0 <= fd < OPEN_MAX ==> fs.tables[q][fd] == None
    {
      CloseRow(fs, p);
      p := p + 1;
    }
  }

  method CloseRow(fs: FileSystem, p: nat)
    requires fs.Consistent() && fs.Valid() && p < |fs.tables|
    modifies fs
    ensures fs.Consistent() && fs.Valid() && |fs.tables| == old(|fs.tables|)
    ensures Leaks(fs.history) == Leaks(old(fs.history))
    ensures forall fd :: 0 <= fd < OPEN_MAX ==> fs.tables[p][fd] == None
    ensures forall q :: 0 <= q < |fs.tables| && q != p ==> fs.tables[q] == old(fs.tables[q])
  {
    var k := 0;
    while k < OPEN_MAX
      invariant k <= OPEN_MAX && fs.Consistent() && fs.Valid() && |fs.tables| == old(|fs.tables|)
      invariant Leaks(fs.history) == Leaks(old(fs.history))
      invariant forall fd :: 0 <= fd < k ==> fs.tables[p][fd] == None
      invariant forall q :: 0 <= q < |fs.tables| && q != p ==> fs.tables[q] == old(fs.tables[q])
    {
      ghost var before := fs.history;
      var r := fs.Close(p, k);
      SameLeaks(before, fs.history);
      k := k + 1;
    }
  }

  lemma SameLeaks(history: seq<Event>, history': seq<Event>)
    requires AtMostCloses(history, history')
    ensures Leaks(history') == Leaks(history)
  {
    if history' != history {
      var e: Event :| e.Closed? && history' == history + [e];
      assert history'[..|history|] == history;
    }
  }

  /** A run in which every count stays right, all descriptors are closed, and the lost vnode never is. */
  method LostForEver(v: Vnode) returns (fs: FileSystem)
    ensures fs.Valid() && NoSlot(fs.tables) && NoneLeft(fs.files)
    ensures Opens(fs.history)[v] > Closes(fs.history)[v]
  {
    var result;
    fs, result := FillTable(v);
    CloseAll(fs);
    forall f | 0 <= f < |fs.files| ensures fs.files[f].vn == None {
      RefsBeyond(fs.tables, f);
      assert Counted(fs.files[f], 0);
    }
    assert Balanced(fs.files, fs.history, v);
  }

  ghost predicate NoneLeft(files: seq<OpenFile>) {
    forall f :: 0 <= f < |files| ==> files[f].vn == None
  }
}
