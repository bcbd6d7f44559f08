/**
 * What becomes of a thread over a run of the machine in module Threads: how it
 * leaves a CPU, where it waits, and what brings it back.
 */
module ThreadRuns {
  import opened Chains
  import opened Placement
  import opened Threads
  import Queues

  /** The list a thread is on, if any. */
  function Place(s: State, t: Thread): Option<ListId> {
    if t in s.ls.place then Some(s.ls.place[t]) else None
  }

  lemma PlaceIsList(s: State, t: Thread, l: ListId)
    requires Inv(s)
    ensures Place(s, t) == Some(l) <==> t in s.ls.At(l)
  {
  }

  /** Where thread_switch puts the thread it leaves, and in which state. */
  function Goal(c: Cpu, why: Purpose): ListId {
    match why
    case Yield => RunQueue(c)
    case Sleep(w) => Channel(w)
    case Exit => Zombies(c)
  }

  function GoalState(why: Purpose): TState {
    match why
    case Yield => Ready
    case Sleep(_) => Sleeping
    case Exit => Zombie
  }

  /** t goes from the front of one list, if any, to the end of another, if any; no other list changes. */
  ghost predicate Carried(s: State, s': State, t: Thread, from: Option<ListId>, to: Option<ListId>) {
    && (from.Some? ==> s.ls.At(from.value) == [t] + s'.ls.At(from.value))
    && (to.Some? ==> s'.ls.At(to.value) == s.ls.At(to.value) + [t])
    && (forall l :: Some(l) != from && Some(l) != to ==> s'.ls.At(l) == s.ls.At(l))
  }

  /**
   * thread_switch puts the current thread at the end of the list asked for and in its
   * state, and touches no other list, thread or CPU; a yield with nobody waiting does nothing.
   */
  lemma SwitchEffect(s: State, c: Cpu, why: Purpose)
    requires Reachable(s) && Enabled(s, Switch(c, why))
    ensures Safe(s, Switch(c, why))
    ensures var s', t, l := Apply(s, Switch(c, why)), s.cpus[c].cur, Goal(c, why);
            if why.Yield? && s.ls.At(l) == [] then s' == s
            else
              && Carried(s, s', t, None, Some(l))
              && t in s.threads && s'.threads == s.threads[t := s.threads[t].(state := GoalState(why))]
              && s'.cpus == s.cpus[c := s.cpus[c].(pc := Pick)]
  {
    ReachableInv(s);
    assert CpuOk(s, c);
  }

  /** The next thread is the first of the queue, and a CPU idles only if there is none. */
  lemma PickEffect(s: State, c: Cpu)
    requires Reachable(s) && Enabled(s, PickNext(c))
    ensures Safe(s, PickNext(c))
    ensures var s' := Apply(s, PickNext(c));
            && s'.threads == s.threads
            && if s.ls.At(RunQueue(c)) == [] then s'.ls == s.ls && s'.cpus == s.cpus[c := s.cpus[c].(pc := Idle)]
               else
                 && Carried(s, s', s'.cpus[c].cur, Some(RunQueue(c)), None)
                 && s'.cpus == s.cpus[c := s.cpus[c].(cur := s'.cpus[c].cur, pc := Switching)]
  {
  }

  /** thread_fork leaves a new thread, ready, at the end of its CPU's queue. */
  lemma ForkEffect(s: State, c: Cpu, t: Thread)
    requires Reachable(s) && Enabled(s, Fork(c, t))
    ensures var s' := Apply(s, Fork(c, t));
            && Carried(s, s', t, None, Some(RunQueue(c))) && s'.cpus == s.cpus
            && t !in s.threads && s'.threads == s.threads[t := ThreadState(c, Ready, true)]
  {
  }

  /** A waker takes the first sleeper, and then queues what it took, first come first served, on each one's CPU. */
  lemma WakeEffect(s: State, c: Cpu, w: nat)
    requires Reachable(s)
    ensures Enabled(s, TakeWaiter(c, w)) ==>
              var s' := Apply(s, TakeWaiter(c, w));
              && Carried(s, s', s.ls.At(Channel(w))[0], Some(Channel(w)), Some(Hand(c)))
              && s'.threads == s.threads && s'.cpus == s.cpus
    ensures Enabled(s, QueueWaiter(c)) ==>
              var s', t := Apply(s, QueueWaiter(c)), s.ls.At(Hand(c))[0];
              && Carried(s, s', t, Some(Hand(c)), Some(RunQueue(s.threads[t].cpu)))
              && s'.threads == s.threads[t := s.threads[t].(state := Ready)] && s'.cpus == s.cpus
  {
  }

  // ------------------------------------------------------------------------
  // From being picked to running
  // ------------------------------------------------------------------------

  /** How many steps a CPU that has picked a thread takes until it runs it. */
  function StepsToRun(s: State, c: Cpu): nat
    requires c < |s.cpus| && s.cpus[c].pc in {Switching, Entered, Reap, Run}
  {
    var pc, zombies := s.cpus[c].pc, |s.ls.At(Zombies(c))|;
    if pc.Switching? then 3 + zombies else if pc.Entered? then 2 + zombies else if pc.Reap? then 1 + zombies else 0
  }

  lemma OwnProgress(s: State, step: Step)
    requires Inv(s) && Safe(s, step) && s.cpus[step.c].pc in {Switching, Entered, Reap}
    ensures var s', c := Apply(s, step), step.c;
            && |s'.cpus| == |s.cpus| && s'.cpus[c].cur == s.cpus[c].cur
            && s'.cpus[c].pc in {Entered, Reap, Run} && StepsToRun(s', c) == StepsToRun(s, c) - 1
  {
    assert CpuOk(s, step.c);
  }

  lemma MigrationZombies(s: State, step: Step, c: Cpu)
    requires Safe(s, step) && IsMigration(step) && c < |s.cpus|
    ensures var s' := Apply(s, step);
            && s'.ls.At(Zombies(c)) == s.ls.At(Zombies(c)) && |s'.cpus| == |s.cpus|
            && s'.cpus[c] == if step.c == c then s.cpus[c].(mig := s'.cpus[c].mig) else s.cpus[c]
  {
  }

  lemma OthersProgress(s: State, step: Step, c: Cpu)
    requires Safe(s, step) && c < |s.cpus| && step.c != c && !IsMigration(step)
    ensures var s' := Apply(s, step);
            |s'.cpus| == |s.cpus| && s'.cpus[c] == s.cpus[c] && s'.ls.At(Zombies(c)) == s.ls.At(Zombies(c))
  {
  }

  /**
   * A CPU that has picked a thread is some steps from running it: each of its own steps
   * brings it one nearer, and those of other CPUs no further away.
   */
  lemma PickedRuns(s: State, step: Step, c: Cpu)
    requires Reachable(s) && Enabled(s, step) && c < |s.cpus| && s.cpus[c].pc in {Switching, Entered, Reap}
    ensures Safe(s, step)
    ensures var s' := Apply(s, step);
            && |s'.cpus| == |s.cpus| && s'.cpus[c].cur == s.cpus[c].cur
            && s'.cpus[c].pc in {Switching, Entered, Reap, Run}
            && StepsToRun(s', c) == StepsToRun(s, c) - if step.c == c then 1 else 0
  {
    ReachableInv(s);
    StepSafe(s, step);
    if step.c == c {
      OwnProgress(s, step);
    } else if IsMigration(step) {
      MigrationZombies(s, step, c);
    } else {
      OthersProgress(s, step, c);
    }
  }

  // ------------------------------------------------------------------------
  // How threads move
  // ------------------------------------------------------------------------

  /** The only ways for a thread to change lists. */
  ghost predicate Moved(s: State, step: Step, s': State, t: Thread)
    requires Safe(s, step) && |s'.cpus| == |s.cpus|
  {
    var c, from, to := step.c, Place(s, t), Place(s', t);
    match step
    case Fork(_, u) => u == t && from == None && to == Some(RunQueue(c))
    case Switch(_, why) => t == s.cpus[c].cur && from == None && to == Some(Goal(c, why))
    case PickNext(_) =>
      from == Some(RunQueue(c)) && [t] <= s.ls.At(RunQueue(c)) && to == None && s'.cpus[c].cur == t
    case Exorcise(_) => from == Some(Zombies(c)) && to == None && t !in s'.threads
    case TakeWaiter(_, w) => from == Some(Channel(w)) && [t] <= s.ls.At(Channel(w)) && to == Some(Hand(c))
    case QueueWaiter(_) =>
      from == Some(Hand(c)) && t in s.threads && to == Some(RunQueue(s.threads[t].cpu))
    case TakeVictim(_) => from == Some(RunQueue(c)) && to == Some(Victims(c))
    case Send(_) => from == Some(Victims(c)) && t != s.cpus[c].cur && to.Some? && to.value.RunQueue?
    case PutBack(_) => from == Some(Victims(c)) && to == Some(RunQueue(c))
    case _ => false
  }

  predicate Stays(s: State, s': State, t: Thread) {
    Place(s', t) == Place(s, t)
  }

  lemma MigrationMoves(s: State, step: Step, t: Thread)
    requires Inv(s) && Safe(s, step) && IsMigration(step)
    ensures var s' := Apply(s, step); |s'.cpus| == |s.cpus| && (Stays(s, s', t) || Moved(s, step, s', t))
  {
    var c := step.c;
    match step
    case TakeVictim(_) =>
      if s.cpus[c].mig.left > 0 {
        TakeBackOk(s.ls, RunQueue(c), Victims(c));
      }
    case Send(_) =>
      RequeueOk(s.ls, Victims(c), Victims(c));
      RequeueOk(s.ls, Victims(c), RunQueue(s.cpus[c].mig.i));
    case PutBack(_) =>
      if s.ls.At(Victims(c)) != [] {
        RequeueOk(s.ls, Victims(c), RunQueue(c));
      }
    case _ =>
  }

  lemma SchedulingMoves(s: State, step: Step, t: Thread)
    requires Inv(s) && Safe(s, step) && !IsMigration(step)
    ensures var s' := Apply(s, step); |s'.cpus| == |s.cpus| && (Stays(s, s', t) || Moved(s, step, s', t))
  {
    var c := step.c;
    match step
    case Switch(_, _) => assert CpuOk(s, c);
    case PickNext(_) =>
      if s.ls.At(RunQueue(c)) != [] {
        RemHeadOk(s.ls, RunQueue(c));
      }
    case Exorcise(_) =>
      if s.ls.At(Zombies(c)) != [] {
        RemHeadOk(s.ls, Zombies(c));
      }
    case TakeWaiter(_, w) => RequeueOk(s.ls, Channel(w), Hand(c));
    case QueueWaiter(_) => RemHeadOk(s.ls, Hand(c));
    case _ =>
  }

  /** Every step of every run leaves a thread where it is or moves it in one of those ways. */
  lemma MovesAt(h: History, k: nat, t: Thread)
    requires Behaviour(h) && k < |h.steps|
    ensures Safe(h.states[k], h.steps[k]) && |h.states[k + 1].cpus| == |h.states[k].cpus|
    ensures Stays(h.states[k], h.states[k + 1], t) || Moved(h.states[k], h.steps[k], h.states[k + 1], t)
  {
    assert StepAt(h, k);
    BehaviourInv(h, k);
    if IsMigration(h.steps[k]) {
      MigrationMoves(h.states[k], h.steps[k], t);
    } else {
      SchedulingMoves(h.states[k], h.steps[k], t);
    }
  }

  // ------------------------------------------------------------------------
  // Zombies
  // ------------------------------------------------------------------------

  /** Step i is t itself leaving its CPU. */
  ghost predicate LeavesAt(h: History, i: nat, t: Thread, c: Cpu, why: Purpose)
    requires |h.states| == |h.steps| + 1
  {
    i < |h.steps| && h.steps[i] == Switch(c, why) && c < |h.states[i].cpus| && h.states[i].cpus[c].cur == t
  }

  /** A thread on a zombie list has exited, on that CPU and as its current thread, and is there since. */
  lemma {:induction false} ZombieExited(h: History, n: nat, t: Thread, c: Cpu) returns (i: nat)
    requires Behaviour(h) && n <= |h.steps| && Place(h.states[n], t) == Some(Zombies(c))
    ensures i < n && LeavesAt(h, i, t, c, Exit)
    ensures forall m :: i < m <= n ==> Place(h.states[m], t) == Some(Zombies(c))
    decreases n
  {
    if n == 0 {
      assert false;
    } else {
      MovesAt(h, n - 1, t);
      if Stays(h.states[n - 1], h.states[n], t) {
        i := ZombieExited(h, n - 1, t, c);
      } else {
        i := n - 1;
      }
    }
  }

  /** Threads come by a fork and go by being reaped. */
  lemma ThreadsChange(s: State, step: Step, t: Thread)
    requires Inv(s) && Safe(s, step)
    ensures var s' := Apply(s, step);
            && (t in s'.threads && t !in s.threads ==> step == Fork(step.c, t))
            && (t in s.threads && t !in s'.threads ==> step.Exorcise? && [t] <= s.ls.At(Zombies(step.c)))
  {
  }

  /** A thread that is gone has exited. */
  lemma {:induction false} GoneExited(h: History, i: nat, n: nat, t: Thread) returns (k: nat, c: Cpu)
    requires Behaviour(h) && i < n <= |h.steps| && t in h.states[i].threads && t !in h.states[n].threads
    ensures k < n && LeavesAt(h, k, t, c, Exit)
    decreases n
  {
    if t in h.states[n - 1].threads {
      assert StepAt(h, n - 1);
      BehaviourInv(h, n - 1);
      ThreadsChange(h.states[n - 1], h.steps[n - 1], t);
      c := h.steps[n - 1].c;
      PlaceIsList(h.states[n - 1], t, Zombies(c));
      k := ZombieExited(h, n - 1, t, c);
    } else {
      k, c := GoneExited(h, i, n - 1, t);
    }
  }

  /** At most one zombie waits on a CPU, and none while it runs thread code. */
  ghost predicate FewZombies(s: State) {
    forall c :: 0 <= c < |s.cpus| ==> |s.ls.At(Zombies(c))| <= if s.cpus[c].pc.Run? then 0 else 1
  }

  lemma SchedulingZombies(s: State, step: Step, c: Cpu)
    requires Safe(s, step) && !IsMigration(step) && c < |s.cpus|
    requires |s.ls.At(Zombies(c))| <= if s.cpus[c].pc.Run? then 0 else 1
    ensures var s' := Apply(s, step);
            |s'.cpus| == |s.cpus| && |s'.ls.At(Zombies(c))| <= if s'.cpus[c].pc.Run? then 0 else 1
  {
  }

  lemma StepFewZombies(s: State, step: Step)
    requires Safe(s, step) && FewZombies(s)
    ensures FewZombies(Apply(s, step))
  {
    var s' := Apply(s, step);
    forall c | 0 <= c < |s'.cpus| ensures |s'.ls.At(Zombies(c))| <= if s'.cpus[c].pc.Run? then 0 else 1 {
      CpusKept(s, step);
      if IsMigration(step) {
        MigrationZombies(s, step, c);
      } else {
        SchedulingZombies(s, step, c);
      }
    }
  }

  lemma CpusKept(s: State, step: Step)
    requires Safe(s, step)
    ensures |Apply(s, step).cpus| == |s.cpus|
  {
  }

  lemma {:induction false} ReapedBeforeRunning(h: History, n: nat)
    requires Behaviour(h) && n <= |h.steps|
    ensures FewZombies(h.states[n])
  {
    if n > 0 {
      ReapedBeforeRunning(h, n - 1);
      assert StepAt(h, n - 1);
      BehaviourInv(h, n - 1);
      StepFewZombies(h.states[n - 1], h.steps[n - 1]);
    }
  }

  // ------------------------------------------------------------------------
  // Away from the CPU and back
  // ------------------------------------------------------------------------

  /** The steps that move t between lists, from state i to state j. */
  ghost function Story(h: History, t: Thread, i: nat, j: nat): seq<Step>
    requires i <= j <= |h.steps| && |h.states| == |h.steps| + 1
  {
    if i == j then []
    else Story(h, t, i, j - 1) + (if Stays(h.states[j - 1], h.states[j], t) then [] else [h.steps[j - 1]])
  }

  /** Only moved about by migrations. */
  ghost predicate Migrated(st: seq<Step>) {
    forall step :: step in st ==> step.TakeVictim? || step.Send? || step.PutBack?
  }

  /** Taken off the channel and queued by the same CPU. */
  ghost predicate Woken(st: seq<Step>, w: nat) {
    |st| >= 2 && st[1].QueueWaiter? && st[0] == TakeWaiter(st[1].c, w) && Migrated(st[2..])
  }

  /** Away, and where: p is its list and st what moved it there since it left. */
  ghost predicate Away(p: Option<ListId>, st: seq<Step>, c: Cpu, why: Purpose) {
    p.Some? &&
    match why
    case Exit => p.value == Zombies(c) && st == []
    case Yield => (p.value.RunQueue? || p.value.Victims?) && Migrated(st)
    case Sleep(w) =>
      match p.value
      case Channel(v) => v == w && st == []
      case Hand(d) => st == [TakeWaiter(d, w)]
      case RunQueue(_) => Woken(st, w)
      case Victims(_) => Woken(st, w)
      case Zombies(_) => false
  }

  /** Back on a CPU as the thread picked there, or destroyed if it had exited. */
  ghost predicate Back(s: State, t: Thread, st: seq<Step>, c: Cpu, why: Purpose) {
    && Place(s, t) == None && st != []
    && var last, before := st[|st| - 1], st[..|st| - 1];
       match why
       case Exit => st == [Exorcise(c)] && t !in s.threads
       case Yield => Picked(s, t, last) && Migrated(before)
       case Sleep(w) => Picked(s, t, last) && Woken(before, w)
  }

  predicate Picked(s: State, t: Thread, step: Step) {
    step.PickNext? && step.c < |s.cpus| && s.cpus[step.c].cur == t
  }

  lemma StillMigrated(st: seq<Step>, step: Step)
    requires Migrated(st) && (step.TakeVictim? || step.Send? || step.PutBack?)
    ensures Migrated(st + [step])
  {
  }

  lemma StillWoken(st: seq<Step>, step: Step, w: nat)
    requires Woken(st, w) && (step.TakeVictim? || step.Send? || step.PutBack?)
    ensures Woken(st + [step], w)
  {
    assert (st + [step])[2..] == st[2..] + [step];
  }

  lemma AwayStep(s: State, step: Step, s': State, t: Thread, st: seq<Step>, c: Cpu, why: Purpose)
    requires Safe(s, step) && |s'.cpus| == |s.cpus| && Moved(s, step, s', t) && Away(Place(s, t), st, c, why)
    ensures if Place(s', t) == None then Back(s', t, st + [step], c, why)
            else Away(Place(s', t), st + [step], c, why)
  {
    if Place(s', t) == None {
      assert (st + [step])[..|st|] == st;
    } else if step.TakeVictim? || step.Send? || step.PutBack? {
      match why
      case Yield => StillMigrated(st, step);
      case Sleep(w) => StillWoken(st, step, w);
    } else {
      var w := why.w;
      assert step.QueueWaiter? ==> Woken(st + [step], w);
    }
  }

  /** Step i takes t off its CPU, or creates it. */
  ghost predicate Departs(h: History, i: nat, t: Thread, c: Cpu, why: Purpose)
    requires |h.states| == |h.steps| + 1
  {
    && i < |h.steps| && Place(h.states[i + 1], t) != None
    && (LeavesAt(h, i, t, c, why) || (why == Yield && h.steps[i] == Fork(c, t)))
  }

  lemma {:induction false} WhileAway(h: History, t: Thread, c: Cpu, why: Purpose, i: nat, k: nat)
    requires Behaviour(h) && Departs(h, i, t, c, why) && i < k <= |h.steps|
    requires forall m :: i < m < k ==> Place(h.states[m], t) != None
    ensures var st := Story(h, t, i + 1, k);
            Away(Place(h.states[k], t), st, c, why) || Back(h.states[k], t, st, c, why)
  {
    if k == i + 1 {
      DepartsTo(h, t, c, why, i);
    } else {
      WhileAway(h, t, c, why, i, k - 1);
      MovesAt(h, k - 1, t);
      var st := Story(h, t, i + 1, k - 1);
      if Stays(h.states[k - 1], h.states[k], t) {
        assert st + [] == st;
      } else {
        AwayStep(h.states[k - 1], h.steps[k - 1], h.states[k], t, st, c, why);
      }
    }
  }

  lemma DepartsTo(h: History, t: Thread, c: Cpu, why: Purpose, i: nat)
    requires Behaviour(h) && Departs(h, i, t, c, why)
    ensures Place(h.states[i + 1], t) == Some(Goal(c, why))
  {
    MovesAt(h, i, t);
    BehaviourInv(h, i);
    assert h.steps[i].Switch? ==> CpuOk(h.states[i], c);
  }

  /**
   * A thread that yields, or is created, is picked from a run queue after nothing but
   * migrations. One that goes to sleep on w is first taken off w and queued by a waker.
   * One that exits is destroyed by its own CPU and by nothing else.
   */
  lemma ComesBack(h: History, t: Thread, c: Cpu, why: Purpose, i: nat, n: nat)
    requires Behaviour(h) && Departs(h, i, t, c, why) && i < n <= |h.steps| && Place(h.states[n], t) == None
    requires forall m :: i < m < n ==> Place(h.states[m], t) != None
    ensures Back(h.states[n], t, Story(h, t, i + 1, n), c, why)
  {
    WhileAway(h, t, c, why, i, n);
  }

  /** By the time its CPU runs thread code again, a thread that exited there has been destroyed. */
  lemma ExitedIsGone(h: History, t: Thread, c: Cpu, i: nat, n: nat) returns (k: nat)
    requires Behaviour(h) && Departs(h, i, t, c, Exit) && i < n <= |h.steps|
    requires c < |h.states[n].cpus| && h.states[n].cpus[c].pc.Run?
    ensures i < k <= n && t !in h.states[k].threads && Story(h, t, i + 1, k) == [Exorcise(c)]
  {
    k := i + 1;
    while k <= n && Place(h.states[k], t) != None
      invariant i < k <= n + 1
      invariant forall m :: i < m < k ==> Place(h.states[m], t) != None
    {
      k := k + 1;
    }
    if k <= n {
      ComesBack(h, t, c, Exit, i, k);
    } else {
      WhileAway(h, t, c, Exit, i, n);
      BehaviourInv(h, n);
      PlaceIsList(h.states[n], t, Zombies(c));
      ReapedBeforeRunning(h, n);
      assert false;
    }
  }

  // ------------------------------------------------------------------------
  // Order
  // ------------------------------------------------------------------------

  /** A list through a run. */
  ghost function Through(h: History, l: ListId): seq<seq<Thread>> {
    seq(|h.states|, i requires 0 <= i < |h.states| => h.states[i].ls.At(l))
  }

  lemma MigrationShifts(s: State, step: Step, l: ListId)
    requires Inv(s) && Safe(s, step) && IsMigration(step) && (l.RunQueue? || l.Channel?)
    ensures Queues.Shifts(s.ls.At(l), Apply(s, step).ls.At(l))
    ensures l.Channel? ==> Apply(s, step).ls.At(l) == s.ls.At(l)
  {
    var c := step.c;
    match step
    case Send(_) => SendShifts(s, c, l);
    case PutBack(_) =>
      if s.ls.At(Victims(c)) != [] {
        DealShifts(s.ls, c, RunQueue(c), l);
      }
    case _ =>
  }

  lemma SendShifts(s: State, c: Cpu, l: ListId)
    requires Inv(s) && Safe(s, Send(c)) && (l.RunQueue? || l.Channel?)
    ensures Queues.Moves(s.ls.At(l), Apply(s, Send(c)).ls.At(l))
    ensures l.Channel? ==> Apply(s, Send(c)).ls.At(l) == s.ls.At(l)
  {
    SentShifts(s.ls, Apply(s, Send(c)).ls, c, s.cpus[c].mig.i, l);
  }

  lemma SentShifts(ls: Lists, ls': Lists, c: Cpu, d: Cpu, l: ListId)
    requires ls.Ok() && ls.At(Victims(c)) != [] && (l.RunQueue? || l.Channel?)
    requires ls' == ls || ls' == Requeue(ls, Victims(c), Victims(c)) || ls' == Requeue(ls, Victims(c), RunQueue(d))
    ensures Queues.Moves(ls.At(l), ls'.At(l))
    ensures l.Channel? ==> ls'.At(l) == ls.At(l)
  {
    DealShifts(ls, c, RunQueue(d), l);
    DealShifts(ls, c, Victims(c), l);
  }

  lemma DealShifts(ls: Lists, c: Cpu, k: ListId, l: ListId)
    requires ls.Ok() && ls.At(Victims(c)) != [] && !l.Victims?
    ensures Queues.Moves(ls.At(l), Requeue(ls, Victims(c), k).At(l))
    ensures k != l ==> Requeue(ls, Victims(c), k).At(l) == ls.At(l)
  {
    RemHeadOk(ls, Victims(c));
  }

  /** A thread on no list goes to the end of one. */
  lemma JoinMoves(s: State, l: ListId, k: ListId, t: Thread)
    requires s.ls.Ok() && t !in s.ls.place
    ensures Queues.Moves(s.ls.At(l), s.ls.AddTail(k, t).At(l)) && |s.ls.AddTail(k, t).At(l)| >= |s.ls.At(l)|
  {
  }

  lemma SchedulingShifts(s: State, step: Step, l: ListId)
    requires Inv(s) && Safe(s, step) && !IsMigration(step) && (l.RunQueue? || l.Channel?)
    ensures Queues.Moves(s.ls.At(l), Apply(s, step).ls.At(l))
    ensures |Apply(s, step).ls.At(l)| >= |s.ls.At(l)| - 1
  {
    var c := step.c;
    match step
    case Fork(_, t) => JoinMoves(s, l, RunQueue(c), t);
    case Switch(_, why) => SwitchShifts(s, c, why, l);
    case QueueWaiter(_) => QueueWaiterShifts(s, c, l);
    case _ =>
  }

  lemma SwitchShifts(s: State, c: Cpu, why: Purpose, l: ListId)
    requires Inv(s) && Enabled(s, Switch(c, why))
    ensures Queues.Moves(s.ls.At(l), Apply(s, Switch(c, why)).ls.At(l))
    ensures |Apply(s, Switch(c, why)).ls.At(l)| >= |s.ls.At(l)|
  {
    assert CpuOk(s, c);
    JoinMoves(s, l, Goal(c, why), s.cpus[c].cur);
  }

  lemma QueueWaiterShifts(s: State, c: Cpu, l: ListId)
    requires Inv(s) && Enabled(s, QueueWaiter(c)) && l != Hand(c)
    ensures Queues.Moves(s.ls.At(l), Apply(s, QueueWaiter(c)).ls.At(l))
    ensures |Apply(s, QueueWaiter(c)).ls.At(l)| >= |s.ls.At(l)|
  {
    var t := s.ls.At(Hand(c))[0];
    RemHeadOk(s.ls, Hand(c));
    JoinMoves(s.(ls := s.ls.RemHead(Hand(c))), l, RunQueue(s.threads[t].cpu), t);
  }

  lemma ListHistory(h: History, l: ListId)
    requires Behaviour(h) && (l.RunQueue? || l.Channel?)
    ensures Queues.History(Through(h, l))
  {
    var q := Through(h, l);
    forall i | 0 <= i < |q| ensures Distinct(q[i]) {
      BehaviourInv(h, i);
    }
    forall i | 0 <= i < |q| - 1 ensures Queues.Shifts(q[i], q[i + 1]) {
      ShiftsAt(h, i, l);
    }
  }

  lemma ShiftsAt(h: History, k: nat, l: ListId)
    requires Behaviour(h) && k < |h.steps| && (l.RunQueue? || l.Channel?)
    ensures Queues.Shifts(h.states[k].ls.At(l), h.states[k + 1].ls.At(l))
    ensures l.Channel? ==> Queues.Moves(h.states[k].ls.At(l), h.states[k + 1].ls.At(l))
    ensures l.Channel? ==> |h.states[k + 1].ls.At(l)| >= |h.states[k].ls.At(l)| - 1
  {
    assert StepAt(h, k);
    BehaviourInv(h, k);
    if IsMigration(h.steps[k]) {
      MigrationShifts(h.states[k], h.steps[k], l);
    } else {
      SchedulingShifts(h.states[k], h.steps[k], l);
    }
  }

  /** Nobody is taken off a wait channel before a thread that went to sleep on it earlier. */
  lemma SleepersInOrder(h: History, w: nat, t: Thread, u: Thread, i: nat, j: nat, k: nat)
    requires Behaviour(h) && i < j < k < |h.steps|
    requires Queues.Since(Through(h, Channel(w)), t, i, k) && Queues.Since(Through(h, Channel(w)), u, j, k)
    ensures u in h.states[k + 1].ls.At(Channel(w))
  {
    ListHistory(h, Channel(w));
    Queues.InOrder(Through(h, Channel(w)), t, u, i, j, k);
    ShiftsAt(h, k, Channel(w));
    BehaviourInv(h, k);
    Queues.MovesKeep(h.states[k].ls.At(Channel(w)), h.states[k + 1].ls.At(Channel(w)), t, u);
  }

  /** Nobody is picked from a run queue before a thread that was queued earlier and is still there. */
  lemma PickedInOrder(h: History, c: Cpu, t: Thread, u: Thread, i: nat, j: nat, k: nat)
    requires Behaviour(h) && i < j < k < |h.steps| && h.steps[k] == PickNext(c)
    requires Queues.Since(Through(h, RunQueue(c)), t, i, k) && Queues.Since(Through(h, RunQueue(c)), u, j, k)
    ensures c < |h.states[k + 1].cpus| && h.states[k + 1].cpus[c].cur != u
  {
    ListHistory(h, RunQueue(c));
    Queues.InOrder(Through(h, RunQueue(c)), t, u, i, j, k);
    BehaviourInv(h, k);
    Queues.BeforeTail(h.states[k].ls.At(RunQueue(c)), t, u);
    assert StepAt(h, k);
  }
}
