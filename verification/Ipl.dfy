/**
 * Interrupt priority (spl.c), spinlocks (spinlock.c), interrupts (trap.c) and the
 * places where thread.c carries a spinlock from one thread to another.  The count of
 * raises belongs to a thread, the count of spinlocks to a CPU.
 */
module Ipl {

  const IPL_NONE: nat := 0
  const IPL_HIGH: nat := 1

  class Thread {
    var curspl: nat
    var iplhigh: int
    /** The level that thread_switch, or thread_startup, restores when the thread next runs. */
    var resumeSpl: nat
    /** It was interrupted with interrupts on, and the handler has yet to return. */
    var adjusted: bool
    /** The level its own code has asked for, and counts on. */
    ghost var level: nat

    /** thread_create alone, as for the first thread of a CPU. */
    constructor Boot()
      ensures curspl == level == IPL_HIGH && iplhigh == 1 && !adjusted
    {
      curspl, iplhigh, resumeSpl, adjusted, level := IPL_HIGH, 1, IPL_NONE, false, IPL_HIGH;
    }

    /** thread_create followed by the adjustment in thread_fork. */
    constructor ()
      ensures Parked() && level == IPL_NONE
    {
      curspl, iplhigh, resumeSpl, adjusted, level := IPL_HIGH, 1, IPL_NONE, false, IPL_NONE;
      new;
      iplhigh := iplhigh + 1;
    }

    ghost predicate LevelOk()
      reads this
    {
      curspl <= IPL_HIGH && level <= IPL_HIGH && (adjusted ==> level == IPL_HIGH)
    }

    /** In thread_switch: raised for itself, and its own level kept for later. */
    ghost predicate Switching()
      reads this
    {
      LevelOk() && curspl == IPL_HIGH && resumeSpl == level
    }

    /** Every thread that is not running is raised once for itself and once for the lock it will release. */
    ghost predicate Parked()
      reads this
    {
      Switching() && iplhigh == 2
    }
  }

  class Spinlock {
    var holder: Cpu?

    constructor ()
      ensures holder == null
    {
      holder := null;
    }
  }

  /**
   * Where a CPU is: running its thread or an interrupt handler; in thread_switch,
   * spinning for the run-queue lock, choosing the next thread, idle with the lock
   * given up, spinning for it again; or on the next thread's stack with it.
   */
  datatype Mode = Normal | Locking | Picking | Idling | Waking | Entered

  function Only(lk: Spinlock?): set<Spinlock> {
    if lk == null then {} else {lk}
  }

  class Cpu {
    var curthread: Thread
    var spinlocks: nat
    var irqOn: bool
    var mode: Mode
    const runqueueLock: Spinlock
    /** The lock of the wait channel that thread_switch was given, if any. */
    var sleepLock: Spinlock?
    /** The lock spinlock_acquire spins for, counted already. */
    var wanted: Spinlock?
    ghost var held: set<Spinlock>

    constructor (lock: Spinlock)
      ensures Valid() && mode == Normal && held == {} && wanted == sleepLock == null
      ensures runqueueLock == lock && fresh(curthread)
    {
      curthread := new Thread.Boot();
      spinlocks, irqOn, mode, held, runqueueLock := 0, false, Normal, {}, lock;
      sleepLock, wanted := null, null;
    }

    /**
     * The raises of the current thread are the spinlocks of this CPU, held or spun
     * for, and its own spl; interrupts are on when there are none.
     */
    ghost predicate Counts()
      reads this, held, curthread
    {
      && (forall l :: l in held ==> l.holder == this)
      && (wanted != null ==> wanted !in held)
      && spinlocks == |held| + |Only(wanted)|
      && curthread.LevelOk()
      && curthread.iplhigh == spinlocks + curthread.curspl
      && (irqOn <==> curthread.iplhigh == 0)
    }

    ghost predicate ModeOk()
      reads this, curthread
    {
      match mode
      case Normal => curthread.curspl == curthread.level
      case Locking => curthread.Switching() && held == Only(sleepLock) && wanted == runqueueLock && sleepLock != wanted
      case Picking => curthread.Switching() && held == {runqueueLock} && wanted == null
      case Idling => curthread.Switching()
      case Waking => curthread.Switching() && held == {} && wanted == runqueueLock
      case Entered => curthread.Switching() && held == {runqueueLock} && wanted == null
    }

    ghost predicate Valid()
      reads this, held, curthread
    {
      Counts() && ModeOk()
    }

    /** No lock, or only the one given, is held: the count is enough to tell. */
    lemma HeldIs(lk: Spinlock?)
      requires Counts() && wanted == null && spinlocks == |Only(lk)| && (lk != null ==> lk in held)
      ensures held == Only(lk)
    {
      if lk != null {
        assert |held - {lk}| == 0;
      }
    }

    method Splraise()
      modifies `irqOn, curthread`iplhigh
      ensures curthread.iplhigh == old(curthread.iplhigh) + 1
      ensures irqOn == (old(irqOn) && old(curthread.iplhigh) != 0)
    {
      if curthread.iplhigh == 0 {
        irqOn := false;
      }
      curthread.iplhigh := curthread.iplhigh + 1;
    }

    method Spllower()
      modifies `irqOn, curthread`iplhigh
      ensures curthread.iplhigh == old(curthread.iplhigh) - 1
      ensures irqOn == (old(irqOn) || curthread.iplhigh == 0)
    {
      curthread.iplhigh := curthread.iplhigh - 1;
      if curthread.iplhigh == 0 {
        irqOn := true;
      }
    }

    /** splx: sets the level and returns the one before, whatever spinlocks are held. */
    method Splx(spl: nat) returns (was: nat)
      requires Counts() && spl <= IPL_HIGH
      modifies `irqOn, curthread`iplhigh, curthread`curspl
      ensures Counts() && curthread.curspl == spl && was == old(curthread.curspl)
    {
      if curthread.curspl < spl {
        Splraise();
        was := curthread.curspl;
        curthread.curspl := spl;
      } else if curthread.curspl > spl {
        was := curthread.curspl;
        curthread.curspl := spl;
        Spllower();
      } else {
        was := spl;
      }
    }

    /** spinlock_acquire up to its spin; a CPU that holds the lock panics instead. */
    method Acquire(lk: Spinlock) returns (deadlock: bool)
      requires Counts() && wanted == null && (lk.holder == this <==> lk in held)
      modifies `irqOn, `spinlocks, `wanted, curthread`iplhigh
      ensures deadlock <==> lk.holder == this
      ensures !deadlock ==> Counts() && wanted == lk
    {
      Splraise();
      if lk.holder == this {
        return true;
      }
      spinlocks := spinlocks + 1;
      wanted := lk;
      return false;
    }

    /** Its test-and-set that finds the lock free. */
    method Acquired()
      requires Counts() && wanted != null && wanted.holder == null
      modifies `held, `wanted, wanted
      ensures Counts() && wanted == null && held == old(held) + {old(wanted)} && old(wanted).holder == this
    {
      wanted.holder := this;
      held := held + {wanted};
      wanted := null;
    }

    /** spinlock_release: locks may go in any order, not only the reverse of their acquisition. */
    method Release(lk: Spinlock)
      requires Counts() && wanted == null && lk in held
      modifies `irqOn, `spinlocks, `held, curthread`iplhigh, lk
      ensures Counts() && held == old(held) - {lk} && lk.holder == null
    {
      assert lk.holder == this && spinlocks > 0;
      spinlocks := spinlocks - 1;
      lk.holder := null;
      held := held - {lk};
      Spllower();
    }

    // ----------------------------------------------------------------------
    // thread_switch
    // ----------------------------------------------------------------------

    /** Its start, with no spinlock held or, to sleep, with the one of the wait channel. */
    method StartSwitch(lk: Spinlock?)
      requires Valid() && mode == Normal && wanted == null && held == Only(lk) && lk != runqueueLock
      requires runqueueLock.holder != this
      modifies this, curthread`iplhigh, curthread`curspl, curthread`resumeSpl
      ensures Valid() && mode == Locking && held == old(held) && curthread == old(curthread) && sleepLock == lk
    {
      var spl := Splx(IPL_HIGH);
      curthread.resumeSpl := spl;
      var deadlock := Acquire(runqueueLock);
      mode, sleepLock := Locking, lk;
    }

    /** It has the run-queue lock: the thread goes on its list, and the wait channel is unlocked. */
    method Park()
      requires Valid() && mode == Locking && runqueueLock.holder == null
      modifies `irqOn, `spinlocks, `mode, `wanted, `held, curthread`iplhigh, runqueueLock, held
      ensures Valid() && mode == Picking && curthread.Parked()
      ensures sleepLock != null ==> sleepLock.holder == null
    {
      Acquired();
      if sleepLock != null {
        Release(sleepLock);
      }
      mode := Picking;
    }

    /** Nothing else is ready, and the thread is: it goes on at its own level. */
    method StayOn()
      requires Valid() && mode == Locking && sleepLock == null && runqueueLock.holder == null
      modifies `irqOn, `spinlocks, `mode, `wanted, `held, curthread`iplhigh, curthread`curspl, runqueueLock
      ensures Valid() && mode == Normal && held == {} && wanted == null
      ensures runqueueLock.holder == null
    {
      Acquired();
      Release(runqueueLock);
      var _ := Splx(curthread.resumeSpl);
      mode := Normal;
    }

    /** The run queue is empty: the lock is given up while the CPU idles. */
    method GoIdle()
      requires Valid() && mode == Picking
      modifies `irqOn, `spinlocks, `mode, `wanted, `held, curthread`iplhigh, runqueueLock
      ensures Valid() && mode == Idling && held == {} && wanted == null
      ensures runqueueLock.holder == null
    {
      Release(runqueueLock);
      mode := Idling;
    }

    /** The interrupt that ended the idling has been handled; the lock is wanted again. */
    method Wake()
      requires Valid() && mode == Idling && held == {} && wanted == null && runqueueLock.holder != this
      modifies `irqOn, `spinlocks, `mode, `wanted, `held, curthread`iplhigh
      ensures Valid() && mode == Waking && held == {}
    {
      var deadlock := Acquire(runqueueLock);
      mode := Waking;
    }

    method Relock()
      requires Valid() && mode == Waking && runqueueLock.holder == null
      modifies `irqOn, `spinlocks, `mode, `wanted, `held, runqueueLock
      ensures Valid() && mode == Picking && curthread.Parked()
    {
      Acquired();
      mode := Picking;
    }

    /**
     * switchframe_switch: the next thread takes over with the lock the old one
     * acquired, and the counts still agree because both are raised exactly twice.
     */
    method SwitchTo(next: Thread)
      requires Valid() && mode == Picking && (next == curthread || next.Parked())
      modifies `curthread, `mode
      ensures Valid() && mode == Entered && curthread == next && old(curthread).Parked()
    {
      curthread, mode := next, Entered;
    }

    /** The tail of thread_switch, and of thread_startup, in the thread switched to. */
    method SwitchIn()
      requires Valid() && mode == Entered
      modifies `irqOn, `spinlocks, `mode, `wanted, `held, curthread`iplhigh, curthread`curspl, runqueueLock
      ensures Valid() && mode == Normal && held == {} && wanted == null
      ensures runqueueLock.holder == null && (irqOn <==> curthread.level == IPL_NONE)
    {
      Release(runqueueLock);
      var _ := Splx(curthread.resumeSpl);
      mode := Normal;
    }

    // ----------------------------------------------------------------------
    // Level changes and interrupts
    // ----------------------------------------------------------------------

    /** splhigh, spl0 and splx in the kernel; a handler may not turn interrupts on. */
    method SetLevel(spl: nat) returns (was: nat)
      requires Valid() && mode == Normal && wanted == null && spl <= IPL_HIGH
      requires curthread.adjusted ==> spl == IPL_HIGH
      modifies `irqOn, curthread`iplhigh, curthread`curspl, curthread`level
      ensures Valid() && was == old(curthread.level) && curthread.level == spl
    {
      was := Splx(spl);
      curthread.level := spl;
    }

    /** An interrupt: the processor turns interrupts off, and the recorded state is made to match. */
    method Interrupt()
      requires Valid() && mode == Normal && irqOn
      modifies `irqOn, curthread
      ensures Valid() && curthread.adjusted && curthread.level == IPL_HIGH && !irqOn
    {
      irqOn := false;
      assert curthread.curspl == IPL_NONE && curthread.iplhigh == 0;
      curthread.curspl, curthread.iplhigh := IPL_HIGH, curthread.iplhigh + 1;
      curthread.adjusted, curthread.level := true, IPL_HIGH;
    }

    /**
     * The handler returns, perhaps after other threads have run: it has left neither a
     * spinlock nor an splhigh behind.
     */
    method Return() returns (ok: bool)
      requires Valid() && mode == Normal && curthread.adjusted && wanted == null && spinlocks == 0
      modifies `irqOn, curthread
      ensures ok && Valid() && !curthread.adjusted && curthread.level == IPL_NONE && irqOn
    {
      HeldIs(null);
      ok := curthread.curspl == IPL_HIGH && curthread.iplhigh == 1;
      curthread.iplhigh, curthread.curspl := curthread.iplhigh - 1, IPL_NONE;
      curthread.adjusted, curthread.level := false, IPL_NONE;
      irqOn := true;
    }
  }

  // ------------------------------------------------------------------------
  // Several CPUs
  // ------------------------------------------------------------------------

  /** The CPUs, all the spinlocks and all the threads. */
  class Machine {
    const cpus: seq<Cpu>
    const locks: seq<Spinlock>
    var threads: seq<Thread>

    /** The thread is current on no CPU. */
    predicate Off(t: Thread)
      reads cpus
    {
      forall i :: 0 <= i < |cpus| ==> cpus[i].curthread != t
    }

    ghost predicate CpuOk(c: Cpu)
      reads this, c, locks, threads
    {
      && c.runqueueLock in locks && (forall l :: l in c.held ==> l in locks) && c.curthread in threads
      && (c.wanted != null ==> c.wanted in locks) && (c.sleepLock != null ==> c.sleepLock in locks)
      && c.Valid()
    }

    /** The counts of every CPU agree, and every thread that is off a CPU is raised exactly twice. */
    ghost predicate Valid()
      reads this, cpus, locks, threads
    {
      && (forall i, j :: 0 <= i < j < |cpus| ==> cpus[i] != cpus[j] && cpus[i].curthread != cpus[j].curthread)
      && (forall i :: 0 <= i < |cpus| ==> CpuOk(cpus[i]))
      && (forall t :: t in threads && Off(t) ==> t.Parked())
      && (forall l :: l in locks && l.holder != null ==> l.holder in cpus && l in l.holder.held)
    }

    /** CPUs just created, each with its first thread, and locks that are free. */
    constructor (cpus: seq<Cpu>, locks: seq<Spinlock>)
      requires forall i, j :: 0 <= i < j < |cpus| ==> cpus[i] != cpus[j] && cpus[i].curthread != cpus[j].curthread
      requires forall i :: 0 <= i < |cpus| ==>
                 && cpus[i].Valid() && cpus[i].held == {} && cpus[i].wanted == cpus[i].sleepLock == null
                 && cpus[i].runqueueLock in locks
      requires forall l :: l in locks ==> l.holder == null
      ensures Valid() && this.cpus == cpus && this.locks == locks && |threads| == |cpus|
      ensures forall i :: 0 <= i < |cpus| ==> threads[i] == cpus[i].curthread
    {
      this.cpus, this.locks := cpus, locks;
      threads := seq(|cpus|, i requires 0 <= i < |cpus| reads cpus => cpus[i].curthread);
      new;
      forall i | 0 <= i < |cpus| ensures CpuOk(cpus[i]) {
        assert cpus[i].curthread == threads[i];
      }
      forall t | t in threads ensures !Off(t) {
        var i :| 0 <= i < |threads| && threads[i] == t;
        assert cpus[i].curthread == t;
      }
    }

    /** What CPU i works on is nobody else's. */
    lemma Apart(i: nat)
      requires Valid() && i < |cpus|
      ensures CpuOk(cpus[i])
      ensures forall j :: 0 <= j < |cpus| && j != i ==>
                && cpus[j] != cpus[i] && cpus[j].curthread != cpus[i].curthread
                && forall l :: l in cpus[j].held ==> l.holder == cpus[j]
    {
      forall j | 0 <= j < |cpus| ensures forall l :: l in cpus[j].held ==> l.holder == cpus[j] {
        assert CpuOk(cpus[j]);
      }
    }

    /**
     * When only CPU i, threads no other CPU runs and locks no other CPU holds have
     * changed, it is enough to look at those.
     */
    twostate lemma Kept(i: nat)
      requires old(Valid()) && i < |cpus| && unchanged(this)
      requires forall j :: 0 <= j < |cpus| && j != i ==>
                 unchanged(cpus[j]) && unchanged(cpus[j].curthread) && unchanged(cpus[j].held)
      requires forall j :: 0 <= j < |cpus| && j != i ==> cpus[j].curthread != cpus[i].curthread
      requires CpuOk(cpus[i])
      requires forall t :: t in threads && Off(t) ==> t.Parked()
      requires forall l :: l in locks && l.holder != null ==> l.holder in cpus && l in l.holder.held
      ensures Valid()
    {
      forall j | 0 <= j < |cpus| && j != i ensures CpuOk(cpus[j]) {
        assert old(CpuOk(cpus[j]));
      }
    }

    /** thread_fork. */
    method Fork()
      requires Valid()
      modifies `threads
      ensures Valid() && |threads| == |old(threads)| + 1 && threads[..|old(threads)|] == old(threads)
      ensures fresh(threads[|threads| - 1]) && Off(threads[|threads| - 1])
    {
      var t := new Thread();
      threads := threads + [t];
      forall i | 0 <= i < |cpus| ensures CpuOk(cpus[i]) && cpus[i].curthread != t {
        assert old(CpuOk(cpus[i]));
      }
      forall u | u in threads && Off(u) ensures u.Parked() {
        assert u != t ==> u in old(threads) && old(Off(u));
      }
    }

    /** spinlock_acquire on CPU i, up to its spin: in a thread, or in a handler that ends its idling. */
    method Acquire(i: nat, lk: Spinlock) returns (deadlock: bool)
      requires Valid() && i < |cpus| && lk in locks && cpus[i].wanted == null && cpus[i].mode in {Normal, Idling}
      modifies cpus, threads`iplhigh
      ensures deadlock <==> lk.holder == cpus[i]
      ensures !deadlock ==> Valid() && cpus[i].wanted == lk
    {
      Apart(i);
      deadlock := cpus[i].Acquire(lk);
      if !deadlock {
        Kept(i);
      }
    }

    /** Its spin ends. */
    method Acquired(i: nat)
      requires Valid() && i < |cpus| && cpus[i].wanted != null && cpus[i].wanted.holder == null
      requires cpus[i].mode in {Normal, Idling}
      modifies cpus, locks
      ensures Valid() && cpus[i].wanted == null && cpus[i].held == old(cpus[i].held) + {old(cpus[i].wanted)}
    {
      Apart(i);
      cpus[i].Acquired();
      Kept(i);
    }

    /** spinlock_release on CPU i. */
    method Release(i: nat, lk: Spinlock)
      requires Valid() && i < |cpus| && lk in locks && lk.holder == cpus[i] && cpus[i].wanted == null
      requires cpus[i].mode in {Normal, Idling}
      modifies cpus, locks, threads`iplhigh
      ensures Valid() && cpus[i].held == old(cpus[i].held) - {lk}
    {
      Apart(i);
      cpus[i].Release(lk);
      Kept(i);
    }

    /** thread_switch on CPU i begins, with no spinlock held but the one of the wait channel. */
    method StartSwitch(i: nat, lk: Spinlock?)
      requires Valid() && i < |cpus| && cpus[i].mode == Normal && cpus[i].wanted == null
      requires cpus[i].spinlocks == |Only(lk)| && (lk != null ==> lk in locks && lk.holder == cpus[i])
      requires lk != cpus[i].runqueueLock
      modifies cpus, threads`iplhigh, threads`curspl, threads`resumeSpl
      ensures Valid() && cpus[i].mode == Locking && cpus[i].curthread == old(cpus[i].curthread)
    {
      Apart(i);
      cpus[i].HeldIs(lk);
      cpus[i].StartSwitch(lk);
      Kept(i);
    }

    /** It has the run-queue lock. */
    method Park(i: nat)
      requires Valid() && i < |cpus| && cpus[i].mode == Locking && cpus[i].runqueueLock.holder == null
      modifies cpus, locks, threads`iplhigh
      ensures Valid() && cpus[i].mode == Picking && cpus[i].curthread == old(cpus[i].curthread)
    {
      Apart(i);
      cpus[i].Park();
      Kept(i);
    }

    /** It has, and no other thread is ready. */
    method StayOn(i: nat)
      requires Valid() && i < |cpus| && cpus[i].mode == Locking && cpus[i].runqueueLock.holder == null
      requires cpus[i].sleepLock == null
      modifies cpus, locks, threads`iplhigh, threads`curspl
      ensures Valid() && cpus[i].mode == Normal && cpus[i].curthread == old(cpus[i].curthread)
    {
      Apart(i);
      cpus[i].StayOn();
      Kept(i);
    }

    /** No thread is ready at all. */
    method GoIdle(i: nat)
      requires Valid() && i < |cpus| && cpus[i].mode == Picking
      modifies cpus, locks, threads`iplhigh
      ensures Valid() && cpus[i].mode == Idling && cpus[i].curthread == old(cpus[i].curthread)
    {
      Apart(i);
      cpus[i].GoIdle();
      Kept(i);
    }

    /** The idling ends, with every handler's spinlock given back. */
    method Wake(i: nat)
      requires Valid() && i < |cpus| && cpus[i].mode == Idling && cpus[i].spinlocks == 0
      modifies cpus, threads`iplhigh
      ensures Valid() && cpus[i].mode == Waking && cpus[i].curthread == old(cpus[i].curthread)
    {
      Apart(i);
      cpus[i].HeldIs(null);
      cpus[i].Wake();
      Kept(i);
    }

    method Relock(i: nat)
      requires Valid() && i < |cpus| && cpus[i].mode == Waking && cpus[i].runqueueLock.holder == null
      modifies cpus, locks
      ensures Valid() && cpus[i].mode == Picking && cpus[i].curthread == old(cpus[i].curthread)
    {
      Apart(i);
      cpus[i].Relock();
      Kept(i);
    }

    /**
     * A thread is found, which no other CPU runs; that it is raised exactly twice is
     * no assumption here.
     */
    method SwitchTo(i: nat, next: Thread)
      requires Valid() && i < |cpus| && cpus[i].mode == Picking && next in threads
      requires next == cpus[i].curthread || Off(next)
      modifies cpus
      ensures Valid() && cpus[i].mode == Entered && cpus[i].curthread == next
    {
      Apart(i);
      cpus[i].SwitchTo(next);
      Kept(i);
    }

    /** The thread found goes on, at the level it had. */
    method SwitchIn(i: nat)
      requires Valid() && i < |cpus| && cpus[i].mode == Entered
      modifies cpus, locks, threads`iplhigh, threads`curspl
      ensures Valid() && cpus[i].mode == Normal && cpus[i].held == {} && cpus[i].curthread == old(cpus[i].curthread)
      ensures cpus[i].curthread.curspl == cpus[i].curthread.level
    {
      Apart(i);
      cpus[i].SwitchIn();
      Kept(i);
    }

    /** splhigh, spl0 and splx on CPU i. */
    method SetLevel(i: nat, spl: nat) returns (was: nat)
      requires Valid() && i < |cpus| && cpus[i].mode == Normal && cpus[i].wanted == null && spl <= IPL_HIGH
      requires cpus[i].curthread.adjusted ==> spl == IPL_HIGH
      modifies cpus, threads
      ensures Valid() && was == old(cpus[i].curthread.level) && cpus[i].curthread.level == spl
    {
      Apart(i);
      was := cpus[i].SetLevel(spl);
      Kept(i);
    }

    /** An interrupt on CPU i while its thread runs. */
    method Interrupt(i: nat)
      requires Valid() && i < |cpus| && cpus[i].mode == Normal && cpus[i].irqOn
      modifies cpus, threads
      ensures Valid() && cpus[i].curthread.adjusted
    {
      Apart(i);
      cpus[i].Interrupt();
      Kept(i);
    }

    /** The end of its handler. */
    method Return(i: nat) returns (ok: bool)
      requires Valid() && i < |cpus| && cpus[i].mode == Normal && cpus[i].curthread.adjusted
      requires cpus[i].wanted == null && cpus[i].spinlocks == 0
      modifies cpus, threads
      ensures ok && Valid() && !cpus[i].curthread.adjusted && cpus[i].irqOn
    {
      Apart(i);
      ok := cpus[i].Return();
      Kept(i);
    }
  }
}
