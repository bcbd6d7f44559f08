/**
 * Threads on several CPUs (thread.c): forking, switching, idling, waking, reaping
 * and migrating, as steps that any CPUs may interleave.  A run-queue lock is held
 * by its own CPU from the start of a switch until the thread switched to releases
 * it; every other use of a run queue is a critical section and so one step.
 */
module Threads {
  import opened Chains
  import opened Placement

  /**
   * Where a CPU is: running a thread, in thread_switch with the current thread
   * already placed, in cpu_idle, between choosing the next thread and leaving the
   * old stack, on the new stack with the lock still held, or in exorcise.
   */
  datatype Pc = Run | Pick | Idle | Switching | Entered | Reap

  datatype TState = Running | Ready | Sleeping | Zombie

  /** thread_consider_migration, run from the clock interrupt. */
  datatype Migration =
    | NoMigration
    | Counting(i: nat, total: nat, mine: nat)
    | Taking(left: nat, toSend: nat, share: nat)
    | Sending(i: nat, toSend: nat, share: nat)
    | Returning

  /** c_curthread, the thread whose stack is in use, and the control state. */
  datatype CpuState = CpuState(cur: Thread, stack: Thread, pc: Pc, mig: Migration)

  /** t_cpu, t_state, and whether the context has been saved by a switch. */
  datatype ThreadState = ThreadState(cpu: Cpu, state: TState, saved: bool)

  datatype State = State(cpus: seq<CpuState>, threads: map<Thread, ThreadState>, ls: Lists) {

    /** c_runqueue_lock of a CPU in the middle of a switch. */
    predicate Locked(c: Cpu)
      requires c < |cpus|
    {
      cpus[c].pc.Pick? || cpus[c].pc.Switching? || cpus[c].pc.Entered?
    }

    /** Thread code runs, with no migration in progress on top of it. */
    predicate InThread(c: Cpu) {
      c < |cpus| && cpus[c].pc.Run? && cpus[c].mig.NoMigration?
    }

    /** Thread code or an interrupt handler runs; handlers also run while the CPU idles. */
    predicate InThreadOrInterrupt(c: Cpu) {
      c < |cpus| && (cpus[c].pc.Run? || cpus[c].pc.Idle?) && cpus[c].mig.NoMigration?
    }

    predicate Migrating(c: Cpu) {
      c < |cpus| && !cpus[c].mig.NoMigration?
    }

    function WithCpu(c: Cpu, r: CpuState): State
      requires c < |cpus|
    {
      this.(cpus := cpus[c := r])
    }

    function WithThread(t: Thread, r: ThreadState): State {
      this.(threads := threads[t := r])
    }
  }

  // ------------------------------------------------------------------------
  // Steps
  // ------------------------------------------------------------------------

  datatype Purpose = Yield | Sleep(w: nat) | Exit

  datatype Step =
    | Fork(c: Cpu, t: Thread)
    | Switch(c: Cpu, why: Purpose)
    | PickNext(c: Cpu)
    | Wake(c: Cpu)
    | SwitchFrame(c: Cpu)
    | Enter(c: Cpu)
    | Exorcise(c: Cpu)
    | TakeWaiter(c: Cpu, w: nat)
    | QueueWaiter(c: Cpu)
    | StartMigration(c: Cpu)
    | Count(c: Cpu)
    | Decide(c: Cpu)
    | TakeVictim(c: Cpu)
    | Send(c: Cpu)
    | PutBack(c: Cpu)

  predicate Enabled(s: State, step: Step) {
    step.c < |s.cpus| &&
    var r := s.cpus[step.c];
    match step
    case Fork(c, t) => s.InThread(c) && t !in s.threads && t !in s.ls.place
    case Switch(c, _) => s.InThread(c) && r.cur in s.threads
    case PickNext(c) => r.pc.Pick?
    case Wake(c) => r.pc.Idle? && r.mig.NoMigration?
    case SwitchFrame(c) => r.pc.Switching? && r.stack in s.threads && r.cur in s.threads
    case Enter(c) => r.pc.Entered? && r.cur in s.threads
    case Exorcise(c) => r.pc.Reap?
    case TakeWaiter(c, w) => s.InThreadOrInterrupt(c) && s.ls.At(Channel(w)) != []
    case QueueWaiter(c) =>
      && s.InThreadOrInterrupt(c) && s.ls.At(Hand(c)) != []
      && var t := s.ls.At(Hand(c))[0];
         t in s.threads && s.threads[t].cpu < |s.cpus| && !s.Locked(s.threads[t].cpu)
    case StartMigration(c) => s.InThreadOrInterrupt(c)
    case Count(c) => r.mig.Counting? && r.mig.i < |s.cpus| && !s.Locked(r.mig.i)
    case Decide(c) => r.mig.Counting? && r.mig.i == |s.cpus|
    case TakeVictim(c) => r.mig.Taking?
    case Send(c) => r.mig.Sending? && r.mig.i < |s.cpus| && r.mig.toSend > 0 && !s.Locked(r.mig.i)
    case PutBack(c) => r.mig.Returning? || (r.mig.Sending? && (r.mig.i >= |s.cpus| || r.mig.toSend == 0))
  }

  /** thread_make_runnable. */
  function MakeRunnable(s: State, ls: Lists, t: Thread): State
    requires t in s.threads
  {
    s.(ls := ls.AddTail(RunQueue(s.threads[t].cpu), t)).WithThread(t, s.threads[t].(state := Ready))
  }

  /** The current thread of c goes on a list, in a new state; the CPU then picks another. */
  function Leave(s: State, c: Cpu, l: ListId, state: TState): State
    requires c < |s.cpus| && s.cpus[c].cur in s.threads
  {
    var cur := s.cpus[c].cur;
    State(s.cpus[c := s.cpus[c].(pc := Pick)], s.threads[cur := s.threads[cur].(state := state)], s.ls.AddTail(l, cur))
  }

  /** thread_switch up to its choice of a thread. */
  function SwitchAway(s: State, c: Cpu, why: Purpose): State
    requires s.InThread(c) && s.cpus[c].cur in s.threads
  {
    match why
    case Yield =>
      if s.ls.At(RunQueue(c)) == [] then s else Leave(s, c, RunQueue(s.threads[s.cpus[c].cur].cpu), Ready)
    case Sleep(w) => Leave(s, c, Channel(w), Sleeping)
    case Exit => Leave(s, c, Zombies(c), Zombie)
  }

  /** One step of thread_consider_migration's loop over the other CPUs. */
  function SendOne(s: State, c: Cpu, m: Migration): State
    requires c < |s.cpus| && m.Sending? && m.i < |s.cpus| && m.toSend > 0 && s.ls.At(Victims(c)) != []
    requires s.ls.At(Victims(c))[0] in s.threads
  {
    var t := s.ls.At(Victims(c))[0];
    var s' := s.WithCpu(c, s.cpus[c].(mig := Sending(m.i, m.toSend - 1, m.share)));
    if t == s.cpus[c].cur then s'.(ls := Requeue(s.ls, Victims(c), Victims(c)))
    else s'.(ls := Requeue(s.ls, Victims(c), RunQueue(m.i))).WithThread(t, s.threads[t].(cpu := m.i))
  }

  /** What the lists must provide for a step not to fail inside: a thread to take, a victim to send. */
  predicate Safe(s: State, step: Step) {
    Enabled(s, step) &&
    match step
    case Exorcise(c) =>
      s.ls.At(Zombies(c)) != [] ==>
        var z := s.ls.At(Zombies(c))[0];
        z in s.threads && z != s.cpus[c].cur && s.threads[z].state == Zombie
    case TakeVictim(c) => s.cpus[c].mig.left > 0 ==> s.ls.At(RunQueue(c)) != []
    case Decide(c) => |s.cpus| > 0
    case Send(c) =>
      && s.ls.At(Victims(c)) != []
      && s.ls.At(Victims(c))[0] in s.threads
    case _ => true
  }

  function Apply(s: State, step: Step): State
    requires Safe(s, step)
  {
    var c := step.c;
    var r := s.cpus[c];
    match step
    case Fork(_, t) =>
      State(s.cpus, s.threads[t := ThreadState(c, Ready, true)], s.ls.AddTail(RunQueue(c), t))
    case Switch(_, why) => SwitchAway(s, c, why)
    case PickNext(_) =>
      if s.ls.At(RunQueue(c)) == [] then s.WithCpu(c, r.(pc := Idle))
      else s.WithCpu(c, r.(cur := s.ls.At(RunQueue(c))[0], pc := Switching)).(ls := s.ls.RemHead(RunQueue(c)))
    case Wake(_) => s.WithCpu(c, r.(pc := Pick))
    case SwitchFrame(_) =>
      var left := s.WithThread(r.stack, s.threads[r.stack].(saved := true));
      left.WithThread(r.cur, left.threads[r.cur].(saved := false)).WithCpu(c, r.(stack := r.cur, pc := Entered))
    case Enter(_) => s.WithThread(r.cur, s.threads[r.cur].(state := Running)).WithCpu(c, r.(pc := Reap))
    case Exorcise(_) =>
      if s.ls.At(Zombies(c)) == [] then s.WithCpu(c, r.(pc := Run))
      else State(s.cpus, s.threads - {s.ls.At(Zombies(c))[0]}, s.ls.RemHead(Zombies(c)))
    case TakeWaiter(_, w) => s.(ls := Requeue(s.ls, Channel(w), Hand(c)))
    case QueueWaiter(_) => MakeRunnable(s, s.ls.RemHead(Hand(c)), s.ls.At(Hand(c))[0])
    case StartMigration(_) => s.WithCpu(c, r.(mig := Counting(0, 0, 0)))
    case Count(_) =>
      var n := |s.ls.At(RunQueue(r.mig.i))|;
      s.WithCpu(c, r.(mig := Counting(r.mig.i + 1, r.mig.total + n, if r.mig.i == c then n else r.mig.mine)))
    case Decide(_) =>
      var share := (r.mig.total + |s.cpus| - 1) / |s.cpus|;
      if r.mig.mine < share then s.WithCpu(c, r.(mig := NoMigration))
      else s.WithCpu(c, r.(mig := Taking(r.mig.mine - share, r.mig.mine - share, share)))
    case TakeVictim(_) =>
      if r.mig.left == 0 then s.WithCpu(c, r.(mig := Sending(0, r.mig.toSend, r.mig.share)))
      else s.WithCpu(c, r.(mig := Taking(r.mig.left - 1, r.mig.toSend, r.mig.share)))
            .(ls := TakeBack(s.ls, RunQueue(c), Victims(c)))
    case Send(_) =>
      if r.mig.i == c || |s.ls.At(RunQueue(r.mig.i))| >= r.mig.share then
        s.WithCpu(c, r.(mig := Sending(r.mig.i + 1, r.mig.toSend, r.mig.share)))
      else SendOne(s, c, r.mig)
    case PutBack(_) =>
      if s.ls.At(Victims(c)) == [] then s.WithCpu(c, r.(mig := NoMigration))
      else s.WithCpu(c, r.(mig := Returning)).(ls := Requeue(s.ls, Victims(c), RunQueue(c)))
  }

  // ------------------------------------------------------------------------
  // The invariant
  // ------------------------------------------------------------------------

  predicate MigrationOk(s: State, c: Cpu)
    requires c < |s.cpus|
  {
    var r := s.cpus[c];
    var queued, victims := |s.ls.At(RunQueue(c))|, |s.ls.At(Victims(c))|;
    match r.mig
    case NoMigration => victims == 0
    case Counting(i, total, mine) =>
      (r.pc.Run? || r.pc.Idle?) && victims == 0 && i <= |s.cpus| && (i > c ==> mine <= queued)
    case Taking(left, toSend, _) => (r.pc.Run? || r.pc.Idle?) && left <= queued && victims + left == toSend
    case Sending(_, toSend, _) => (r.pc.Run? || r.pc.Idle?) && toSend <= victims
    case Returning => r.pc.Run? || r.pc.Idle?
  }

  predicate CpuOk(s: State, c: Cpu)
    requires c < |s.cpus|
  {
    var r := s.cpus[c];
    && r.cur in s.threads && s.threads[r.cur].cpu == c
    && r.stack in s.threads && s.threads[r.stack].cpu == c && !s.threads[r.stack].saved
    && MigrationOk(s, c)
    && match r.pc
       case Run => r.stack == r.cur && r.cur !in s.ls.place && s.threads[r.cur].state == Running
       case Reap => r.stack == r.cur && r.cur !in s.ls.place && s.threads[r.cur].state == Running
       case Entered => r.stack == r.cur && r.cur !in s.ls.place
       case Switching => r.cur !in s.ls.place && (r.stack == r.cur || r.stack in s.ls.place)
       case Pick => r.stack == r.cur && r.cur in s.ls.place
       case Idle => r.stack == r.cur && r.cur in s.ls.place
  }

  predicate PlaceOk(l: ListId, r: ThreadState) {
    match l
    case RunQueue(c) => r.cpu == c && r.state == Ready
    case Victims(c) => r.cpu == c && r.state == Ready
    case Zombies(c) => r.cpu == c && r.state == Zombie
    case Channel(_) => r.state == Sleeping
    case Hand(_) => r.state == Sleeping
  }

  predicate ThreadOk(s: State, t: Thread)
    requires t in s.threads
  {
    var r := s.threads[t];
    && r.cpu < |s.cpus|
    && (!r.saved ==> s.cpus[r.cpu].stack == t)
    && (if t in s.ls.place then PlaceOk(s.ls.place[t], r) else s.cpus[r.cpu].cur == t)
  }

  ghost predicate Inv(s: State) {
    && s.ls.Ok()
    && (forall c :: 0 <= c < |s.cpus| ==> CpuOk(s, c))
    && (forall t :: t in s.threads ==> ThreadOk(s, t))
    && (forall t :: t in s.ls.place ==> t in s.threads)
  }

  // ------------------------------------------------------------------------
  // Every step keeps it
  // ------------------------------------------------------------------------

  /** Nothing a step relies on can be missing: no null thread, no failed assertion. */
  lemma StepSafe(s: State, step: Step)
    requires Inv(s) && Enabled(s, step)
    ensures Safe(s, step)
  {
    var c := step.c;
    assert CpuOk(s, c);
    match step
    case Exorcise(_) =>
      if s.ls.At(Zombies(c)) != [] {
        RemHeadOk(s.ls, Zombies(c));
        assert ThreadOk(s, s.ls.At(Zombies(c))[0]);
      }
    case Send(_) =>
      RemHeadOk(s.ls, Victims(c));
    case _ =>
  }

  lemma ForkInv(s: State, c: Cpu, t: Thread)
    requires Inv(s) && Enabled(s, Fork(c, t))
    ensures Inv(Apply(s, Fork(c, t)))
  {
    AddTailOk(s.ls, RunQueue(c), t);
    var s' := Apply(s, Fork(c, t));
    forall d | 0 <= d < |s.cpus| ensures CpuOk(s', d) {
      assert CpuOk(s, d);
    }
    forall u | u in s'.threads ensures ThreadOk(s', u) {
      assert u != t ==> ThreadOk(s, u);
    }
  }

  lemma LeaveInv(s: State, c: Cpu, l: ListId, state: TState)
    requires Inv(s) && s.InThread(c) && s.cpus[c].cur in s.threads
    requires PlaceOk(l, ThreadState(c, state, false)) && !l.Victims?
    ensures Inv(Leave(s, c, l, state))
  {
    assert CpuOk(s, c);
    AddTailOk(s.ls, l, s.cpus[c].cur);
    var s' := Leave(s, c, l, state);
    forall d | 0 <= d < |s.cpus| ensures CpuOk(s', d) {
      assert CpuOk(s, d);
    }
    forall u | u in s'.threads ensures ThreadOk(s', u) {
      assert ThreadOk(s, u);
    }
  }

  lemma SwitchInv(s: State, c: Cpu, why: Purpose)
    requires Inv(s) && Enabled(s, Switch(c, why))
    ensures Inv(Apply(s, Switch(c, why)))
  {
    assert CpuOk(s, c);
    match why
    case Yield => LeaveInv(s, c, RunQueue(c), Ready);
    case Sleep(w) => LeaveInv(s, c, Channel(w), Sleeping);
    case Exit => LeaveInv(s, c, Zombies(c), Zombie);
  }

  /** What a step of another CPU must leave alone. */
  lemma CpuKept(s: State, s': State, d: Cpu)
    requires d < |s.cpus| == |s'.cpus| && CpuOk(s, d) && s'.cpus[d] == s.cpus[d]
    requires var cur, stack := s.cpus[d].cur, s.cpus[d].stack;
             && cur in s'.threads && s'.threads[cur].cpu == d && (cur in s'.ls.place <==> cur in s.ls.place)
             && (cur !in s.ls.place ==> s'.threads[cur] == s.threads[cur])
             && stack in s'.threads && s'.threads[stack].cpu == d && !s'.threads[stack].saved
             && (stack in s.ls.place ==> stack in s'.ls.place)
    requires |s'.ls.At(RunQueue(d))| >= |s.ls.At(RunQueue(d))| && s'.ls.At(Victims(d)) == s.ls.At(Victims(d))
    ensures CpuOk(s', d)
  {
  }

  lemma PickNextInv(s: State, c: Cpu)
    requires Inv(s) && Enabled(s, PickNext(c))
    ensures Inv(Apply(s, PickNext(c)))
  {
    var s' := Apply(s, PickNext(c));
    assert CpuOk(s, c);
    if s.ls.At(RunQueue(c)) != [] {
      RemHeadOk(s.ls, RunQueue(c));
      assert ThreadOk(s, s.ls.At(RunQueue(c))[0]);
    }
    forall d | 0 <= d < |s.cpus| ensures CpuOk(s', d) {
      assert CpuOk(s, d);
      if d != c {
        CpuKept(s, s', d);
      }
    }
    forall u | u in s'.threads ensures ThreadOk(s', u) {
      assert ThreadOk(s, u);
    }
  }

  lemma SwitchFrameInv(s: State, c: Cpu)
    requires Inv(s) && Enabled(s, SwitchFrame(c))
    ensures Inv(Apply(s, SwitchFrame(c)))
  {
    var s' := Apply(s, SwitchFrame(c));
    forall d | 0 <= d < |s.cpus| ensures CpuOk(s', d) {
      assert CpuOk(s, d) && CpuOk(s, c);
    }
    forall u | u in s'.threads ensures ThreadOk(s', u) {
      assert ThreadOk(s, u) && CpuOk(s, c);
    }
  }

  lemma EnterInv(s: State, c: Cpu)
    requires Inv(s) && Enabled(s, Enter(c))
    ensures Inv(Apply(s, Enter(c)))
  {
    var s' := Apply(s, Enter(c));
    assert CpuOk(s, c);
    forall d | 0 <= d < |s.cpus| ensures CpuOk(s', d) {
      assert CpuOk(s, d);
    }
    forall u | u in s'.threads ensures ThreadOk(s', u) {
      assert ThreadOk(s, u);
    }
  }

  lemma ExorciseInv(s: State, c: Cpu)
    requires Inv(s) && Safe(s, Exorcise(c))
    ensures Inv(Apply(s, Exorcise(c)))
  {
    if s.ls.At(Zombies(c)) != [] {
      ReapInv(s, c);
    } else {
      var s' := Apply(s, Exorcise(c));
      forall d | 0 <= d < |s.cpus| ensures CpuOk(s', d) {
        assert CpuOk(s, d);
      }
      forall u | u in s'.threads ensures ThreadOk(s', u) {
        assert ThreadOk(s, u);
      }
    }
  }

  /** A zombie is destroyed. */
  lemma ReapInv(s: State, c: Cpu)
    requires Inv(s) && c < |s.cpus| && s.cpus[c].pc.Reap? && s.ls.At(Zombies(c)) != []
    ensures Inv(State(s.cpus, s.threads - {s.ls.At(Zombies(c))[0]}, s.ls.RemHead(Zombies(c))))
  {
    var z := s.ls.At(Zombies(c))[0];
    var s' := State(s.cpus, s.threads - {z}, s.ls.RemHead(Zombies(c)));
    RemHeadOk(s.ls, Zombies(c));
    assert ThreadOk(s, z);
    forall d | 0 <= d < |s.cpus| ensures CpuOk(s', d) {
      assert CpuOk(s, d);
      CpuKept(s, s', d);
    }
    forall u | u in s'.threads ensures ThreadOk(s', u) {
      assert ThreadOk(s, u);
    }
  }

  /** Steps that move one thread between lists and change nothing else but the progress of a migration. */
  lemma MoveInv(s: State, c: Cpu, m: Migration, ls: Lists, t: Thread, l: ListId)
    requires Inv(s) && c < |s.cpus| && ls.Ok() && t in s.ls.place && t in s.threads
    requires ls.place == s.ls.place[t := l] && PlaceOk(l, s.threads[t])
    requires forall d :: 0 <= d < |s.cpus| ==> MigrationOk(s.WithCpu(c, s.cpus[c].(mig := m)).(ls := ls), d)
    ensures Inv(s.WithCpu(c, s.cpus[c].(mig := m)).(ls := ls))
  {
    var s' := s.WithCpu(c, s.cpus[c].(mig := m)).(ls := ls);
    forall d | 0 <= d < |s.cpus| ensures CpuOk(s', d) {
      assert CpuOk(s, d);
    }
    forall u | u in s'.threads ensures ThreadOk(s', u) {
      assert ThreadOk(s, u);
    }
  }

  /** A move between lists of CPU c leaves the migrations of the others alone. */
  lemma OtherMigrations(s: State, s': State, c: Cpu)
    requires Inv(s) && c < |s.cpus| == |s'.cpus|
    requires forall d :: 0 <= d < |s.cpus| && d != c ==> s'.cpus[d] == s.cpus[d]
    requires forall d :: d != c ==> |s'.ls.At(RunQueue(d))| >= |s.ls.At(RunQueue(d))|
    requires forall d :: d != c ==> s'.ls.At(Victims(d)) == s.ls.At(Victims(d))
    ensures forall d :: 0 <= d < |s.cpus| && d != c ==> MigrationOk(s', d)
  {
    forall d | 0 <= d < |s.cpus| && d != c ensures MigrationOk(s', d) {
      assert CpuOk(s, d);
    }
  }

  /** A move between the lists of a migrating CPU. */
  lemma OwnMoveInv(s: State, c: Cpu, m: Migration, ls: Lists, t: Thread, l: ListId)
    requires Inv(s) && c < |s.cpus| && ls.Ok() && t in s.ls.place && t in s.threads
    requires ls.place == s.ls.place[t := l] && PlaceOk(l, s.threads[t])
    requires MigrationOk(s.WithCpu(c, s.cpus[c].(mig := m)).(ls := ls), c)
    requires forall d :: d != c ==>
               ls.At(RunQueue(d)) == s.ls.At(RunQueue(d)) && ls.At(Victims(d)) == s.ls.At(Victims(d))
    ensures Inv(s.WithCpu(c, s.cpus[c].(mig := m)).(ls := ls))
  {
    OtherMigrations(s, s.WithCpu(c, s.cpus[c].(mig := m)).(ls := ls), c);
    MoveInv(s, c, m, ls, t, l);
  }

  /** Steps that change only the progress of a migration. */
  lemma ProgressInv(s: State, c: Cpu, m: Migration)
    requires Inv(s) && c < |s.cpus| && MigrationOk(s.WithCpu(c, s.cpus[c].(mig := m)), c)
    ensures Inv(s.WithCpu(c, s.cpus[c].(mig := m)))
  {
    var s' := s.WithCpu(c, s.cpus[c].(mig := m));
    forall d | 0 <= d < |s.cpus| ensures CpuOk(s', d) {
      assert CpuOk(s, d);
    }
    forall u | u in s'.threads ensures ThreadOk(s', u) {
      assert ThreadOk(s, u);
    }
  }

  /** A thread moves between lists that no migration looks at. */
  lemma RelocateInv(s: State, ls: Lists, t: Thread, l: ListId)
    requires Inv(s) && ls.Ok() && t in s.ls.place && t in s.threads
    requires ls.place == s.ls.place[t := l] && PlaceOk(l, s.threads[t])
    requires forall d :: ls.At(RunQueue(d)) == s.ls.At(RunQueue(d)) && ls.At(Victims(d)) == s.ls.At(Victims(d))
    ensures Inv(s.(ls := ls))
  {
    var s' := s.(ls := ls);
    forall d | 0 <= d < |s.cpus| ensures CpuOk(s', d) {
      assert CpuOk(s, d);
    }
    forall u | u in s'.threads ensures ThreadOk(s', u) {
      assert ThreadOk(s, u);
    }
  }

  lemma TakeWaiterInv(s: State, c: Cpu, w: nat)
    requires Inv(s) && c < |s.cpus| && s.ls.At(Channel(w)) != []
    ensures Inv(s.(ls := Requeue(s.ls, Channel(w), Hand(c))))
  {
    var t := s.ls.At(Channel(w))[0];
    RequeueOk(s.ls, Channel(w), Hand(c));
    assert ThreadOk(s, t);
    RelocateInv(s, Requeue(s.ls, Channel(w), Hand(c)), t, Hand(c));
  }

  lemma QueueWaiterInv(s: State, c: Cpu)
    requires Inv(s) && Enabled(s, QueueWaiter(c))
    ensures Inv(Apply(s, QueueWaiter(c)))
  {
    var t := s.ls.At(Hand(c))[0];
    var l := RunQueue(s.threads[t].cpu);
    RequeueOk(s.ls, Hand(c), l);
    var s' := Apply(s, QueueWaiter(c));
    assert s'.ls == Requeue(s.ls, Hand(c), l);
    forall d | 0 <= d < |s.cpus| ensures CpuOk(s', d) {
      QueueWaiterCpu(s, c, t, d);
    }
    forall u | u in s'.threads ensures ThreadOk(s', u) {
      assert ThreadOk(s, u);
    }
  }

  lemma QueueWaiterCpu(s: State, c: Cpu, t: Thread, d: Cpu)
    requires Inv(s) && s.ls.At(Hand(c)) != [] && t == s.ls.At(Hand(c))[0] && t in s.threads && d < |s.cpus|
    ensures CpuOk(MakeRunnable(s, s.ls.RemHead(Hand(c)), t), d)
  {
    RequeueOk(s.ls, Hand(c), RunQueue(s.threads[t].cpu));
    assert CpuOk(s, d) && ThreadOk(s, t);
    CpuKept(s, MakeRunnable(s, s.ls.RemHead(Hand(c)), t), d);
  }

  lemma TakeOneInv(s: State, c: Cpu, m: Migration)
    requires Inv(s) && s.Migrating(c) && m == s.cpus[c].mig && m.Taking? && m.left > 0 && s.ls.At(RunQueue(c)) != []
    ensures Inv(s.WithCpu(c, s.cpus[c].(mig := Taking(m.left - 1, m.toSend, m.share)))
                 .(ls := TakeBack(s.ls, RunQueue(c), Victims(c))))
  {
    assert CpuOk(s, c);
    var t := s.ls.Last(RunQueue(c));
    var ls, m' := TakeBack(s.ls, RunQueue(c), Victims(c)), Taking(m.left - 1, m.toSend, m.share);
    TakeBackOk(s.ls, RunQueue(c), Victims(c));
    assert ThreadOk(s, t);
    OwnMoveInv(s, c, m', ls, t, Victims(c));
  }

  /** The shuffle that keeps the current thread from being migrated. */
  lemma SkipCurrentInv(s: State, c: Cpu, m: Migration)
    requires Inv(s) && c < |s.cpus| && m == s.cpus[c].mig && m.Sending? && m.toSend > 0 && s.ls.At(Victims(c)) != []
    ensures Inv(s.WithCpu(c, s.cpus[c].(mig := Sending(m.i, m.toSend - 1, m.share)))
                 .(ls := Requeue(s.ls, Victims(c), Victims(c))))
  {
    assert CpuOk(s, c);
    var t := s.ls.At(Victims(c))[0];
    RequeueOk(s.ls, Victims(c), Victims(c));
    assert ThreadOk(s, t);
    var ls, m' := Requeue(s.ls, Victims(c), Victims(c)), Sending(m.i, m.toSend - 1, m.share);
    OwnMoveInv(s, c, m', ls, t, Victims(c));
  }

  /** A victim other than the current thread is saved, so it may run elsewhere. */
  lemma VictimSaved(s: State, c: Cpu, t: Thread)
    requires Inv(s) && s.Migrating(c) && t in s.ls.At(Victims(c)) && t != s.cpus[c].cur
    ensures t in s.threads && s.threads[t].saved && s.threads[t].cpu == c && s.threads[t].state == Ready
    ensures forall d :: 0 <= d < |s.cpus| ==> s.cpus[d].cur != t && s.cpus[d].stack != t
  {
    assert CpuOk(s, c) && ThreadOk(s, t);
    forall d | 0 <= d < |s.cpus| ensures s.cpus[d].cur != t && s.cpus[d].stack != t {
      assert CpuOk(s, d);
    }
  }

  lemma MigrateCpus(s: State, c: Cpu, m: Migration, t: Thread)
    requires Inv(s) && s.Migrating(c) && m == s.cpus[c].mig && m.Sending? && m.toSend > 0 && c != m.i < |s.cpus|
    requires s.ls.At(Victims(c)) != [] && t == s.ls.At(Victims(c))[0] && t in s.threads && t != s.cpus[c].cur
    ensures forall d :: 0 <= d < |s.cpus| ==> CpuOk(SendOne(s, c, m), d)
  {
    var s' := SendOne(s, c, m);
    VictimSaved(s, c, t);
    OtherMigrations(s, s', c);
    forall d | 0 <= d < |s.cpus| ensures CpuOk(s', d) {
      assert CpuOk(s, d);
    }
  }

  lemma MigrateInv(s: State, c: Cpu, m: Migration, t: Thread)
    requires Inv(s) && s.Migrating(c) && m == s.cpus[c].mig && m.Sending? && m.toSend > 0 && c != m.i < |s.cpus|
    requires s.ls.At(Victims(c)) != [] && t == s.ls.At(Victims(c))[0] && t in s.threads && t != s.cpus[c].cur
    ensures Inv(SendOne(s, c, m))
  {
    var s' := SendOne(s, c, m);
    MigrateCpus(s, c, m, t);
    VictimSaved(s, c, t);
    RequeueOk(s.ls, Victims(c), RunQueue(m.i));
    forall u | u in s'.threads ensures ThreadOk(s', u) {
      assert ThreadOk(s, u);
    }
  }

  lemma SendOneInv(s: State, c: Cpu)
    requires Inv(s) && Safe(s, Send(c)) && s.cpus[c].mig.i != c
    ensures Inv(SendOne(s, c, s.cpus[c].mig))
  {
    var t := s.ls.At(Victims(c))[0];
    if t == s.cpus[c].cur {
      SkipCurrentInv(s, c, s.cpus[c].mig);
    } else {
      MigrateInv(s, c, s.cpus[c].mig, t);
    }
  }

  lemma ReturnOneInv(s: State, c: Cpu)
    requires Inv(s) && s.Migrating(c) && s.ls.At(Victims(c)) != []
    ensures Inv(s.WithCpu(c, s.cpus[c].(mig := Returning)).(ls := Requeue(s.ls, Victims(c), RunQueue(c))))
  {
    assert CpuOk(s, c);
    var t := s.ls.At(Victims(c))[0];
    var ls := Requeue(s.ls, Victims(c), RunQueue(c));
    RequeueOk(s.ls, Victims(c), RunQueue(c));
    assert ThreadOk(s, t);
    OwnMoveInv(s, c, Returning, ls, t, RunQueue(c));
  }

  lemma WakeInv(s: State, c: Cpu)
    requires Inv(s) && Enabled(s, Wake(c))
    ensures Inv(Apply(s, Wake(c)))
  {
    var s' := Apply(s, Wake(c));
    forall d | 0 <= d < |s.cpus| ensures CpuOk(s', d) {
      assert CpuOk(s, d);
    }
    forall u | u in s'.threads ensures ThreadOk(s', u) {
      assert ThreadOk(s, u);
    }
  }

  predicate IsMigration(step: Step) {
    step.StartMigration? || step.Count? || step.Decide? || step.TakeVictim? || step.Send? || step.PutBack?
  }

  /** The phases that look at the queues and decide. */
  lemma CountingStepInv(s: State, step: Step)
    requires Inv(s) && Safe(s, step) && (step.StartMigration? || step.Count? || step.Decide?)
    ensures Inv(Apply(s, step))
  {
    assert CpuOk(s, step.c);
    ProgressInv(s, step.c, Apply(s, step).cpus[step.c].mig);
  }

  /** The phases that move threads. */
  lemma MovingStepInv(s: State, step: Step)
    requires Inv(s) && Safe(s, step) && (step.TakeVictim? || step.Send? || step.PutBack?)
    ensures Inv(Apply(s, step))
  {
    match step
    case TakeVictim(c) => TakeVictimInv(s, c);
    case Send(c) => SendInv(s, c);
    case PutBack(c) => PutBackInv(s, c);
  }

  lemma TakeVictimInv(s: State, c: Cpu)
    requires Inv(s) && Safe(s, TakeVictim(c))
    ensures Inv(Apply(s, TakeVictim(c)))
  {
    assert CpuOk(s, c);
    var m := s.cpus[c].mig;
    if m.left == 0 {
      ProgressInv(s, c, Sending(0, m.toSend, m.share));
    } else {
      TakeOneInv(s, c, m);
    }
  }

  lemma SendInv(s: State, c: Cpu)
    requires Inv(s) && Safe(s, Send(c))
    ensures Inv(Apply(s, Send(c)))
  {
    assert CpuOk(s, c);
    var m := s.cpus[c].mig;
    if m.i == c || |s.ls.At(RunQueue(m.i))| >= m.share {
      ProgressInv(s, c, Sending(m.i + 1, m.toSend, m.share));
    } else {
      SendOneInv(s, c);
    }
  }

  lemma PutBackInv(s: State, c: Cpu)
    requires Inv(s) && Safe(s, PutBack(c))
    ensures Inv(Apply(s, PutBack(c)))
  {
    assert CpuOk(s, c);
    if s.ls.At(Victims(c)) == [] {
      ProgressInv(s, c, NoMigration);
    } else {
      ReturnOneInv(s, c);
    }
  }

  lemma MigrationStepInv(s: State, step: Step)
    requires Inv(s) && Safe(s, step) && IsMigration(step)
    ensures Inv(Apply(s, step))
  {
    if step.StartMigration? || step.Count? || step.Decide? {
      CountingStepInv(s, step);
    } else {
      MovingStepInv(s, step);
    }
  }

  /** Every step of every CPU keeps the invariant. */
  lemma StepInv(s: State, step: Step)
    requires Inv(s) && Enabled(s, step)
    ensures Safe(s, step) && Inv(Apply(s, step))
  {
    StepSafe(s, step);
    var c := step.c;
    match step
    case Fork(_, t) => ForkInv(s, c, t);
    case Switch(_, why) => SwitchInv(s, c, why);
    case PickNext(_) => PickNextInv(s, c);
    case Wake(_) => WakeInv(s, c);
    case SwitchFrame(_) => SwitchFrameInv(s, c);
    case Enter(_) => EnterInv(s, c);
    case Exorcise(_) => ExorciseInv(s, c);
    case TakeWaiter(_, w) => TakeWaiterInv(s, c, w);
    case QueueWaiter(_) => QueueWaiterInv(s, c);
    case _ => MigrationStepInv(s, step);
  }

  // ------------------------------------------------------------------------
  // Runs
  // ------------------------------------------------------------------------

  /** After boot: one thread per CPU, each running, and every list empty. */
  ghost predicate Init(s: State) {
    && s.ls == Lists(map[], map[])
    && (forall c :: 0 <= c < |s.cpus| ==>
          var r := s.cpus[c];
          r.pc == Run && r.mig == NoMigration && r.stack == r.cur &&
          r.cur in s.threads && s.threads[r.cur] == ThreadState(c, Running, false))
    && (forall t :: t in s.threads ==> s.threads[t].cpu < |s.cpus| && s.cpus[s.threads[t].cpu].cur == t)
  }

  /** Some interleaving: its states, with the step between each and the next. */
  datatype History = History(states: seq<State>, steps: seq<Step>)

  ghost predicate StepAt(h: History, i: nat)
    requires i < |h.steps| && |h.states| == |h.steps| + 1
  {
    Safe(h.states[i], h.steps[i]) && h.states[i + 1] == Apply(h.states[i], h.steps[i])
  }

  ghost predicate Behaviour(h: History) {
    |h.states| == |h.steps| + 1 && Init(h.states[0]) && forall i :: 0 <= i < |h.steps| ==> StepAt(h, i)
  }

  /** The invariant holds in every state of every interleaving, and no enabled step can fail there. */
  lemma {:induction false} BehaviourInv(h: History, n: nat)
    requires Behaviour(h) && n <= |h.steps|
    ensures var s := h.states[n];
            Inv(s) && forall step :: Enabled(s, step) ==> Safe(s, step)
  {
    if n == 0 {
      InitInv(h.states[0]);
    } else {
      BehaviourInv(h, n - 1);
      assert StepAt(h, n - 1);
      StepInv(h.states[n - 1], h.steps[n - 1]);
    }
    var s := h.states[n];
    forall step | Enabled(s, step) ensures Safe(s, step) {
      StepSafe(s, step);
    }
  }

  lemma InitInv(s: State)
    requires Init(s)
    ensures Inv(s)
  {
    forall c | 0 <= c < |s.cpus| ensures CpuOk(s, c) {
    }
  }

  // ------------------------------------------------------------------------
  // What it means
  // ------------------------------------------------------------------------

  /** A state some interleaving leads to. */
  ghost predicate Reachable(s: State) {
    exists h :: Behaviour(h) && h.states[|h.steps|] == s
  }

  lemma ReachableInv(s: State)
    requires Reachable(s)
    ensures Inv(s)
  {
    var h :| Behaviour(h) && h.states[|h.steps|] == s;
    BehaviourInv(h, |h.steps|);
  }

  /** After boot: every CPU runs the thread it was created with. */
  function Booted(n: nat): State {
    State(seq(n, (c: nat) => CpuState(c, c, Run, NoMigration)),
          map c: nat | c < n :: ThreadState(c, Running, false),
          Lists(map[], map[]))
  }

  /** There are runs on any number of CPUs, and any CPU may start a migration in them. */
  lemma BootReachable(n: nat)
    ensures Reachable(Booted(n))
    ensures forall c: Cpu :: c < n ==> Enabled(Booted(n), StartMigration(c))
    ensures forall c: Cpu :: c < n ==> Reachable(Apply(Booted(n), StartMigration(c)))
  {
    var s := Booted(n);
    assert Init(s);
    var none := History([s], []);
    assert Behaviour(none) && none.states[|none.steps|] == s;
    forall c: Cpu | c < n ensures Reachable(Apply(s, StartMigration(c))) {
      StepReachable(s, StartMigration(c));
    }
  }

  lemma StepReachable(s: State, step: Step)
    requires Reachable(s) && Safe(s, step)
    ensures Reachable(Apply(s, step))
  {
    var h :| Behaviour(h) && h.states[|h.steps|] == s;
    var more := History(h.states + [Apply(s, step)], h.steps + [step]);
    forall i | 0 <= i < |more.steps| ensures StepAt(more, i) {
      assert i < |h.steps| ==> StepAt(h, i);
    }
    assert Behaviour(more) && more.states[|more.steps|] == Apply(s, step);
  }

  /** No thread runs on two CPUs, and no stack is in use on two. */
  lemma OneCpuPerThread(s: State, c: Cpu, d: Cpu)
    requires Reachable(s) && c < |s.cpus| && d < |s.cpus| && c != d
    ensures s.cpus[c].cur != s.cpus[d].cur && s.cpus[c].stack != s.cpus[d].stack
  {
    ReachableInv(s);
    assert CpuOk(s, c) && CpuOk(s, d);
  }

  /**
   * A thread is on at most one list, once; one on no list is the current thread
   * of exactly its own CPU; and a current thread is on a list only while its CPU is
   * choosing a thread or idle.
   */
  lemma OnePlace(s: State, t: Thread, l: ListId, l': ListId)
    requires Reachable(s) && t in s.threads
    ensures s.threads[t].cpu < |s.cpus|
    ensures t in s.ls.At(l) && t in s.ls.At(l') ==> l == l'
    ensures Distinct(s.ls.At(l))
    ensures (forall k :: t !in s.ls.At(k)) ==> s.cpus[s.threads[t].cpu].cur == t
    ensures t in s.ls.At(l) && s.cpus[s.threads[t].cpu].cur == t ==>
              s.cpus[s.threads[t].cpu].pc in {Pick, Idle}
  {
    ReachableInv(s);
    assert ThreadOk(s, t) && CpuOk(s, s.threads[t].cpu);
    if t in s.ls.place {
      assert t in s.ls.At(s.ls.place[t]);
    }
  }

  /** A queued thread has its context saved, unless the CPU it is queued on is still using its stack. */
  lemma QueuedIsSaved(s: State, c: Cpu, t: Thread)
    requires Reachable(s) && t in s.ls.At(RunQueue(c))
    ensures t in s.threads && s.threads[t].cpu == c < |s.cpus|
    ensures s.threads[t].saved || s.cpus[c].stack == t
    ensures forall d :: 0 <= d < |s.cpus| && d != c ==> s.cpus[d].stack != t
  {
    ReachableInv(s);
    assert ThreadOk(s, t);
    forall d | 0 <= d < |s.cpus| && d != c ensures s.cpus[d].stack != t {
      assert CpuOk(s, d);
    }
  }

  /** The zombie about to be destroyed is on no CPU's stack. */
  lemma ReapedIsUnused(s: State, c: Cpu)
    requires Reachable(s) && Enabled(s, Exorcise(c)) && s.ls.At(Zombies(c)) != []
    ensures var z := s.ls.At(Zombies(c))[0];
            forall d :: 0 <= d < |s.cpus| ==> s.cpus[d].stack != z && s.cpus[d].cur != z
  {
    ReachableInv(s);
    RemHeadOk(s.ls, Zombies(c));
    var z := s.ls.At(Zombies(c))[0];
    assert ThreadOk(s, z);
    forall d | 0 <= d < |s.cpus| ensures s.cpus[d].stack != z && s.cpus[d].cur != z {
      assert CpuOk(s, d) && CpuOk(s, c);
    }
  }

  /** A thread queued to run, on a run queue or among the victims of a migration. */
  predicate Queued(s: State, t: Thread) {
    t in s.ls.place && (s.ls.place[t].RunQueue? || s.ls.place[t].Victims?)
  }

  /** A migration never touches its own CPU's current thread. */
  lemma MigrationKeepsCurrent(s: State, step: Step)
    requires Reachable(s) && Enabled(s, step) && IsMigration(step)
    ensures Safe(s, step)
    ensures Apply(s, step).threads.Keys == s.threads.Keys && s.cpus[step.c].cur in s.threads
    ensures Apply(s, step).threads[s.cpus[step.c].cur] == s.threads[s.cpus[step.c].cur]
  {
    ReachableInv(s);
    StepSafe(s, step);
    assert CpuOk(s, step.c);
  }

  lemma ListMovesConserve(s: State, step: Step, t: Thread)
    requires Inv(s) && Safe(s, step) && IsMigration(step)
    ensures Queued(Apply(s, step), t) <==> Queued(s, t)
  {
    var c := step.c;
    match step
    case TakeVictim(_) =>
      if s.cpus[c].mig.left > 0 {
        TakeBackOk(s.ls, RunQueue(c), Victims(c));
      }
    case Send(_) => SendConserves(s, c, t);
    case PutBack(_) =>
      if s.ls.At(Victims(c)) != [] {
        RequeueOk(s.ls, Victims(c), RunQueue(c));
      }
    case _ =>
  }

  lemma SendConserves(s: State, c: Cpu, t: Thread)
    requires Inv(s) && Safe(s, Send(c))
    ensures Queued(Apply(s, Send(c)), t) <==> Queued(s, t)
  {
    RequeueOk(s.ls, Victims(c), Victims(c));
    RequeueOk(s.ls, Victims(c), RunQueue(s.cpus[c].mig.i));
  }

  /** Whatever the counts it worked from, a migration loses and invents no queued thread. */
  lemma MigrationConserves(s: State, step: Step, t: Thread)
    requires Reachable(s) && Enabled(s, step) && IsMigration(step)
    ensures Safe(s, step)
    ensures Queued(Apply(s, step), t) <==> Queued(s, t)
  {
    ReachableInv(s);
    StepSafe(s, step);
    ListMovesConserve(s, step, t);
  }
}
