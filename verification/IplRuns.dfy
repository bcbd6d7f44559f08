/** Runs of several CPUs through spinlocks, switches and interrupts, from boot. */
module IplRuns {
  import opened Chains
  import opened Ipl

  datatype LockStep = SpinFor(lock: nat) | EndSpin | GiveBack(lock: nat)

  datatype SwitchStep =
    | Leave(sleepLock: Option<nat>)
    | ParkThread
    | KeepThread
    | BeginIdle
    | EndIdle
    | LockAgain
    | Take(next: nat)
    | Enter

  datatype LevelStep = Change(spl: nat) | TakeInterrupt | EndInterrupt

  /** A thread is forked, or CPU i goes on by one step. */
  datatype Step =
    | ForkOne
    | Lock(i: nat, lock: LockStep)
    | Switch(i: nat, switch: SwitchStep)
    | Level(i: nat, level: LevelStep)

  /** In a thread, or in a handler that ends the idling; locks are given back only by their holder. */
  predicate LockPossible(m: Machine, i: nat, step: LockStep)
    requires i < |m.cpus|
    reads m.cpus, m.locks
  {
    var c := m.cpus[i];
    && c.mode in {Normal, Idling}
    && match step
       case SpinFor(l) => l < |m.locks| && c.wanted == null
       case EndSpin => c.wanted in m.locks && c.wanted.holder == null
       case GiveBack(l) => l < |m.locks| && m.locks[l].holder == c && c.wanted == null
  }

  /** The run-queue lock of c is free. */
  predicate Free(m: Machine, c: Cpu)
    reads m.locks
  {
    c.runqueueLock in m.locks && c.runqueueLock.holder == null
  }

  /** A thread leaves holding no lock but the one it passes, and any thread may be taken that no other CPU runs. */
  predicate SwitchPossible(m: Machine, i: nat, step: SwitchStep)
    requires i < |m.cpus|
    reads m, m.cpus, m.locks
  {
    var c := m.cpus[i];
    match step
    case Leave(None) => c.mode == Normal && c.wanted == null && c.spinlocks == 0
    case Leave(Some(l)) =>
      && c.mode == Normal && c.wanted == null && c.spinlocks == 1
      && l < |m.locks| && m.locks[l].holder == c && m.locks[l] != c.runqueueLock
    case ParkThread => c.mode == Locking && Free(m, c)
    case KeepThread => c.mode == Locking && Free(m, c) && c.sleepLock == null
    case BeginIdle => c.mode == Picking
    case EndIdle => c.mode == Idling && c.spinlocks == 0
    case LockAgain => c.mode == Waking && Free(m, c)
    case Take(t) => c.mode == Picking && t < |m.threads| && (m.threads[t] == c.curthread || m.Off(m.threads[t]))
    case Enter => c.mode == Entered
  }

  /** No handler turns interrupts on, or returns with a spinlock. */
  predicate LevelPossible(m: Machine, i: nat, step: LevelStep)
    requires i < |m.cpus|
    reads m, m.cpus, m.threads
  {
    var c := m.cpus[i];
    && c.mode == Normal && c.curthread in m.threads
    && match step
       case Change(spl) => c.wanted == null && spl <= IPL_HIGH && (c.curthread.adjusted ==> spl == IPL_HIGH)
       case TakeInterrupt => c.irqOn
       case EndInterrupt => c.wanted == null && c.spinlocks == 0 && c.curthread.adjusted
  }

  predicate Possible(m: Machine, step: Step)
    reads m, m.cpus, m.locks, m.threads
  {
    match step
    case ForkOne => true
    case Lock(i, l) => i < |m.cpus| && LockPossible(m, i, l)
    case Switch(i, s) => i < |m.cpus| && SwitchPossible(m, i, s)
    case Level(i, l) => i < |m.cpus| && LevelPossible(m, i, l)
  }

  method PerformLock(m: Machine, i: nat, step: LockStep) returns (deadlock: bool)
    requires m.Valid() && i < |m.cpus| && LockPossible(m, i, step)
    modifies m.cpus, m.locks, m.threads`iplhigh
    ensures !deadlock ==> m.Valid()
    ensures deadlock <==> step.SpinFor? && old(m.locks[step.lock].holder) == m.cpus[i]
    ensures var c := m.cpus[i];
            match step
            case SpinFor(l) => deadlock || c.wanted == m.locks[l]
            case EndSpin => c.wanted == null && c.held == old(c.held) + {old(c.wanted)}
            case GiveBack(l) => c.held == old(c.held) - {m.locks[l]}
  {
    deadlock := false;
    match step
    case SpinFor(l) =>
      deadlock := m.Acquire(i, m.locks[l]);
    case EndSpin =>
      m.Acquired(i);
    case GiveBack(l) =>
      m.Release(i, m.locks[l]);
  }

  /** Where a switch goes on. */
  function ModeAfter(step: SwitchStep): Mode {
    match step
    case Leave(_) => Locking
    case ParkThread | LockAgain => Picking
    case BeginIdle => Idling
    case EndIdle => Waking
    case Take(_) => Mode.Entered
    case KeepThread | Enter => Normal
  }

  /** Whatever it does, every thread keeps the level it asked for. */
  method PerformSwitch(m: Machine, i: nat, step: SwitchStep)
    requires m.Valid() && i < |m.cpus| && SwitchPossible(m, i, step)
    modifies m.cpus, m.locks, m.threads`iplhigh, m.threads`curspl, m.threads`resumeSpl
    ensures m.Valid() && m.cpus[i].mode == ModeAfter(step)
    ensures m.cpus[i].curthread == if step.Take? then m.threads[step.next] else old(m.cpus[i].curthread)
  {
    match step
    case Leave(None) =>
      m.StartSwitch(i, null);
    case Leave(Some(l)) =>
      m.StartSwitch(i, m.locks[l]);
    case ParkThread =>
      m.Park(i);
    case KeepThread =>
      m.StayOn(i);
    case BeginIdle =>
      m.GoIdle(i);
    case EndIdle =>
      m.Wake(i);
    case LockAgain =>
      m.Relock(i);
    case Take(t) =>
      m.SwitchTo(i, m.threads[t]);
    case Enter =>
      m.SwitchIn(i);
  }

  /** The assertions at the end of a handler hold, whatever ran since its start. */
  method PerformLevel(m: Machine, i: nat, step: LevelStep) returns (ok: bool)
    requires m.Valid() && i < |m.cpus| && LevelPossible(m, i, step)
    modifies m.cpus, m.threads
    ensures ok && m.Valid()
    ensures match step
            case Change(spl) => m.cpus[i].curthread.level == spl
            case TakeInterrupt => m.cpus[i].curthread.adjusted
            case EndInterrupt => !m.cpus[i].curthread.adjusted && m.cpus[i].irqOn
  {
    ok := true;
    match step
    case Change(spl) =>
      var _ := m.SetLevel(i, spl);
    case TakeInterrupt =>
      m.Interrupt(i);
    case EndInterrupt =>
      ok := m.Return(i);
  }

  /** A CPU that acquires a lock it holds panics; a handler that leaked a lock or a level would fail an assertion. */
  datatype Outcome = GoesOn | Deadlocked | HandlerLeaked

  method Perform(m: Machine, step: Step) returns (outcome: Outcome)
    requires m.Valid() && Possible(m, step)
    modifies m, m.cpus, m.locks, m.threads
    ensures outcome == GoesOn ==> m.Valid()
    ensures outcome == Deadlocked <==>
              step.Lock? && step.lock.SpinFor? && old(m.locks[step.lock.lock].holder) == m.cpus[step.i]
    ensures outcome != HandlerLeaked
    ensures forall i :: 0 <= i < |m.threads| ==> m.threads[i] in old(m.threads) || fresh(m.threads[i])
  {
    outcome := GoesOn;
    match step
    case ForkOne =>
      m.Fork();
    case Lock(i, l) =>
      var deadlock := PerformLock(m, i, l);
      outcome := if deadlock then Deadlocked else GoesOn;
    case Switch(i, s) =>
      PerformSwitch(m, i, s);
    case Level(i, l) =>
      var ok := PerformLevel(m, i, l);
      outcome := if ok then GoesOn else HandlerLeaked;
  }

  method MakeLocks(n: nat) returns (locks: seq<Spinlock>)
    ensures |locks| == n && forall i :: 0 <= i < n ==> fresh(locks[i]) && locks[i].holder == null
  {
    locks := [];
    while |locks| < n
      invariant |locks| <= n && forall i :: 0 <= i < |locks| ==> fresh(locks[i]) && locks[i].holder == null
    {
      var l := new Spinlock();
      locks := locks + [l];
    }
  }

  /** A CPU just created, with its first thread. */
  ghost predicate NewCpu(c: Cpu, lock: Spinlock)
    reads c, c.held, c.curthread
  {
    c.Valid() && c.held == {} && c.wanted == c.sleepLock == null && c.runqueueLock == lock
  }

  method MakeCpus(locks: seq<Spinlock>, n: nat) returns (cpus: seq<Cpu>)
    requires n <= |locks|
    ensures |cpus| == n
    ensures forall i :: 0 <= i < n ==> fresh(cpus[i]) && fresh(cpus[i].curthread) && NewCpu(cpus[i], locks[i])
    ensures forall i, j :: 0 <= i < j < n ==> cpus[i] != cpus[j] && cpus[i].curthread != cpus[j].curthread
  {
    cpus := [];
    while |cpus| < n
      invariant |cpus| <= n
      invariant forall i :: 0 <= i < |cpus| ==>
                  fresh(cpus[i]) && fresh(cpus[i].curthread) && NewCpu(cpus[i], locks[i])
      invariant forall i, j :: 0 <= i < j < |cpus| ==> cpus[i] != cpus[j] && cpus[i].curthread != cpus[j].curthread
    {
      var c := new Cpu(locks[|cpus|]);
      cpus := cpus + [c];
    }
  }

  /** n CPUs, each with its first thread and its run-queue lock, and some more locks. */
  method Boot(n: nat, more: nat) returns (m: Machine)
    ensures m.Valid() && |m.cpus| == n && |m.locks| == n + more && |m.threads| == n && fresh(m)
    ensures forall i :: 0 <= i < n ==> fresh(m.cpus[i]) && fresh(m.threads[i])
    ensures forall i :: 0 <= i < n + more ==> fresh(m.locks[i])
  {
    var locks := MakeLocks(n + more);
    var cpus := MakeCpus(locks, n);
    forall i | 0 <= i < n ensures cpus[i].runqueueLock in locks {
      assert NewCpu(cpus[i], locks[i]);
    }
    m := new Machine(cpus, locks);
  }

  /**
   * No lock has two holders; a thread off every CPU is raised twice and will be resumed
   * at the level it asked for; one that runs is at that level, raised once more for
   * every spinlock of its CPU, and has interrupts on when it should.
   */
  ghost predicate Sound(m: Machine)
    reads m, m.cpus, m.threads
  {
    && (forall i, j :: 0 <= i < j < |m.cpus| ==> m.cpus[i].held !! m.cpus[j].held)
    && (forall t :: t in m.threads && m.Off(t) ==> t.iplhigh == 2 && t.resumeSpl == t.level)
    && (forall i :: 0 <= i < |m.cpus| ==> m.cpus[i].curthread in m.threads && (m.cpus[i].mode == Normal ==>
          var c, t := m.cpus[i], m.cpus[i].curthread;
          && t.curspl == t.level && t.iplhigh == c.spinlocks + t.level
          && (c.irqOn <==> c.spinlocks == 0 && t.level == IPL_NONE)))
  }

  lemma ValidIsSound(m: Machine)
    requires m.Valid()
    ensures Sound(m)
  {
    forall i, j | 0 <= i < j < |m.cpus| ensures m.cpus[i].held !! m.cpus[j].held {
      assert m.CpuOk(m.cpus[i]) && m.CpuOk(m.cpus[j]);
    }
  }

  /** Every run of any number of CPUs; only a CPU that acquires a lock it holds ends it with a panic. */
  method Run(n: nat, more: nat, steps: seq<Step>) returns (m: Machine, outcome: Outcome)
    ensures outcome != HandlerLeaked && (outcome == GoesOn ==> m.Valid() && Sound(m))
  {
    m := Boot(n, more);
    outcome := GoesOn;
    var k := 0;
    while k < |steps| && outcome == GoesOn
      invariant k <= |steps| && fresh(m) && outcome != HandlerLeaked && (outcome == GoesOn ==> m.Valid())
      invariant forall i :: 0 <= i < |m.cpus| ==> fresh(m.cpus[i])
      invariant forall i :: 0 <= i < |m.locks| ==> fresh(m.locks[i])
      invariant forall i :: 0 <= i < |m.threads| ==> fresh(m.threads[i])
    {
      if Possible(m, steps[k]) {
        outcome := Perform(m, steps[k]);
      }
      k := k + 1;
    }
    if outcome == GoesOn {
      ValidIsSound(m);
    }
  }
}
