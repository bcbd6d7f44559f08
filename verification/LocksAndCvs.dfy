/**
 * Sleep locks and condition variables (synch.c): one lock and one condition
 * variable used with it, by any number of threads, one statement at a time.
 */
module LocksAndCvs {
  import opened Chains
  import Queues

  type Tid = nat

  /**
   * Where a thread is.
   *   lock_acquire: LTest, LTake and LDone hold lk_lock; LAsleep; LWoken wants lk_lock again.
   *   Owner: holds the lock, outside these functions.
   *   lock_release: RClear, RWake and RDone hold lk_lock; the flag says it is the release inside cv_wait.
   *   cv_wait: CHold has cv_lock and still the lock; CSleep has cv_lock only; CAsleep; CWoken wants cv_lock
   *   again; CBack has it; CWant goes on to lock_acquire.
   *   cv_signal and cv_broadcast: SWake and SDone hold cv_lock.
   */
  datatype Pc =
    | Out | LTest | LTake | LDone | LAsleep | LWoken | Owner
    | RClear(inWait: bool) | RWake(inWait: bool) | RDone(inWait: bool)
    | CHold | CSleep | CAsleep | CWoken | CBack | CWant
    | SWake(all: bool) | SDone

  datatype State = State(lkSpin: Option<Tid>, cvSpin: Option<Tid>, owner: Option<Tid>,
                         lkChannel: seq<Tid>, cvChannel: seq<Tid>, pc: map<Tid, Pc>)
  {
    predicate At(t: Tid, p: Pc) {
      t in pc && pc[t] == p
    }

    function Go(t: Tid, p: Pc): State {
      this.(pc := pc[t := p])
    }
  }

  datatype Step =
    | AcquireStart(t: Tid) | Relock(t: Tid) | Test(t: Tid) | Take(t: Tid) | AcquireEnd(t: Tid)
    | ReleaseStart(t: Tid) | Clear(t: Tid) | WakeLocker(t: Tid) | ReleaseEnd(t: Tid)
    | WaitStart(t: Tid) | Sleep(t: Tid) | Rewake(t: Tid) | WaitBack(t: Tid)
    | SignalStart(t: Tid, all: bool) | SignalWake(t: Tid) | SignalEnd(t: Tid)

  predicate Enabled(s: State, step: Step) {
    step.t in s.pc &&
    var p := s.pc[step.t];
    match step
    case AcquireStart(_) => (p.Out? || p.CWant?) && s.lkSpin == None
    case Relock(_) => p.LWoken? && s.lkSpin == None
    case Test(_) => p.LTest?
    case Take(_) => p.LTake?
    case AcquireEnd(_) => p.LDone?
    case ReleaseStart(_) => (p.Owner? || p.CHold?) && s.lkSpin == None
    case Clear(_) => p.RClear?
    case WakeLocker(_) => p.RWake?
    case ReleaseEnd(_) => p.RDone?
    case WaitStart(_) => p.Owner? && s.cvSpin == None
    case Sleep(_) => p.CSleep?
    case Rewake(_) => p.CWoken? && s.cvSpin == None
    case WaitBack(_) => p.CBack?
    case SignalStart(_, _) => p.Owner? && s.cvSpin == None
    case SignalWake(_) => p.SWake?
    case SignalEnd(_) => p.SDone?
  }

  /** Every thread of the channel is woken at once, as wchan_wakeall does under cv_lock. */
  function WokenAll(pc: map<Tid, Pc>, channel: seq<Tid>): map<Tid, Pc> {
    map t | t in pc :: if t in channel then CWoken else pc[t]
  }

  function Apply(s: State, step: Step): State
    requires Enabled(s, step)
  {
    var t := step.t;
    var p := s.pc[t];
    match step
    case AcquireStart(_) => s.(lkSpin := Some(t)).Go(t, LTest)
    case Relock(_) => s.(lkSpin := Some(t)).Go(t, LTest)
    case Test(_) =>
      if s.owner == None then s.Go(t, LTake)
      else s.(lkSpin := None, lkChannel := s.lkChannel + [t]).Go(t, LAsleep)
    case Take(_) => s.(owner := Some(t)).Go(t, LDone)
    case AcquireEnd(_) => s.(lkSpin := None).Go(t, Owner)
    case ReleaseStart(_) => s.(lkSpin := Some(t)).Go(t, RClear(p.CHold?))
    case Clear(_) => s.(owner := None).Go(t, RWake(p.inWait))
    case WakeLocker(_) =>
      if s.lkChannel == [] then s.Go(t, RDone(p.inWait))
      else s.(lkChannel := s.lkChannel[1..]).Go(s.lkChannel[0], LWoken).Go(t, RDone(p.inWait))
    case ReleaseEnd(_) => s.(lkSpin := None).Go(t, if p.inWait then CSleep else Out)
    case WaitStart(_) => s.(cvSpin := Some(t)).Go(t, CHold)
    case Sleep(_) => s.(cvSpin := None, cvChannel := s.cvChannel + [t]).Go(t, CAsleep)
    case Rewake(_) => s.(cvSpin := Some(t)).Go(t, CBack)
    case WaitBack(_) => s.(cvSpin := None).Go(t, CWant)
    case SignalStart(_, all) => s.(cvSpin := Some(t)).Go(t, SWake(all))
    case SignalWake(_) =>
      if p.all then
        s.(cvChannel := [], pc := WokenAll(s.pc, s.cvChannel)).Go(t, SDone)
      else if s.cvChannel == [] then s.Go(t, SDone)
      else
        s.(cvChannel := s.cvChannel[1..]).Go(s.cvChannel[0], CWoken).Go(t, SDone)
    case SignalEnd(_) => s.(cvSpin := None).Go(t, Owner)
  }

  // ------------------------------------------------------------------------
  // The invariant
  // ------------------------------------------------------------------------

  predicate HoldsLkSpin(p: Pc) {
    p.LTest? || p.LTake? || p.LDone? || p.RClear? || p.RWake? || p.RDone?
  }

  predicate HoldsCvSpin(p: Pc) {
    || p.CHold? || p.CSleep? || p.CBack? || p.SWake? || p.SDone?
    || ((p.RClear? || p.RWake? || p.RDone?) && p.inWait)
  }

  predicate OwnsLock(p: Pc) {
    p.LDone? || p.Owner? || p.RClear? || p.CHold? || p.SWake? || p.SDone?
  }

  /** A thread that has been woken for the lock, or is past waking, and will look at the owner again. */
  predicate Due(p: Pc) {
    p.LWoken? || p.LTest? || p.LTake? || p.RWake?
  }

  /** A thread that gave up the lock inside cv_wait and is still to be woken. */
  predicate Waiting(p: Pc) {
    p.CSleep? || p.CAsleep? || ((p.RWake? || p.RDone?) && p.inWait)
  }

  predicate ThreadOk(s: State, t: Tid)
    requires t in s.pc
  {
    var p := s.pc[t];
    && (HoldsLkSpin(p) <==> s.lkSpin == Some(t))
    && (HoldsCvSpin(p) <==> s.cvSpin == Some(t))
    && (OwnsLock(p) <==> s.owner == Some(t))
    && (p.LAsleep? <==> t in s.lkChannel)
    && (p.CAsleep? <==> t in s.cvChannel)
    && (p.LTake? ==> s.owner == None)
  }

  ghost predicate SomeoneDue(s: State) {
    exists t :: t in s.pc && Due(s.pc[t])
  }

  ghost predicate Inv(s: State) {
    && (forall t :: t in s.pc ==> ThreadOk(s, t))
    && (forall t :: t in s.lkChannel || t in s.cvChannel ==> t in s.pc)
    && (forall t :: s.owner == Some(t) || s.lkSpin == Some(t) || s.cvSpin == Some(t) ==> t in s.pc)
    && Distinct(s.lkChannel) && Distinct(s.cvChannel)
    && (s.owner == None && s.lkChannel != [] ==> SomeoneDue(s))
  }

  // ------------------------------------------------------------------------
  // Every step keeps it
  // ------------------------------------------------------------------------

  /** A value that changed, if at all, only from or to thread t or nothing. */
  predicate Mine(was: Option<Tid>, now: Option<Tid>, t: Tid) {
    was == now || ((was == None || was == Some(t)) && (now == None || now == Some(t)))
  }

  /** A step of t that touches no channel. */
  lemma LocalInv(s: State, s': State, t: Tid)
    requires Inv(s) && t in s.pc && t in s'.pc && s'.pc == s.pc[t := s'.pc[t]]
    requires Mine(s.lkSpin, s'.lkSpin, t) && Mine(s.cvSpin, s'.cvSpin, t) && Mine(s.owner, s'.owner, t)
    requires s'.lkChannel == s.lkChannel && s'.cvChannel == s.cvChannel
    requires ThreadOk(s', t)
    requires s'.owner == Some(t) ==> s.owner == Some(t) || s.lkSpin == Some(t)
    requires s'.owner == None ==> Due(s'.pc[t]) || (s.owner == None && !Due(s.pc[t])) || s.lkChannel == []
    ensures Inv(s')
  {
    forall u | u in s'.pc ensures ThreadOk(s', u) {
      assert ThreadOk(s, u);
    }
    if s'.owner == None && s'.lkChannel != [] {
      if Due(s'.pc[t]) {
        assert SomeoneDue(s');
      } else {
        var u :| u in s.pc && Due(s.pc[u]);
        assert u in s'.pc && Due(s'.pc[u]);
      }
    }
  }

  /** The steps covered by LocalInv. */
  predicate Local(s: State, step: Step)
    requires Enabled(s, step)
  {
    && !(step.Test? && s.owner != None) && !step.Sleep? && !step.SignalWake?
    && !(step.WakeLocker? && s.lkChannel != [])
  }

  lemma LockStepInv(s: State, step: Step)
    requires Inv(s) && Enabled(s, step) && Local(s, step)
    requires step.AcquireStart? || step.Relock? || step.Test? || step.Take? || step.AcquireEnd?
    ensures Inv(Apply(s, step))
  {
    assert ThreadOk(s, step.t);
    LocalInv(s, Apply(s, step), step.t);
  }

  lemma ReleaseStepInv(s: State, step: Step)
    requires Inv(s) && Enabled(s, step) && Local(s, step)
    requires step.ReleaseStart? || step.Clear? || step.WakeLocker? || step.ReleaseEnd?
    ensures Inv(Apply(s, step))
  {
    assert ThreadOk(s, step.t);
    LocalInv(s, Apply(s, step), step.t);
  }

  lemma CvStepInv(s: State, step: Step)
    requires Inv(s) && Enabled(s, step) && Local(s, step)
    requires step.WaitStart? || step.Rewake? || step.WaitBack? || step.SignalStart? || step.SignalEnd?
    ensures Inv(Apply(s, step))
  {
    assert ThreadOk(s, step.t);
    LocalInv(s, Apply(s, step), step.t);
  }

  lemma LockSleepInv(s: State, t: Tid)
    requires Inv(s) && s.At(t, LTest) && s.owner != None
    ensures Inv(s.(lkSpin := None, lkChannel := s.lkChannel + [t]).Go(t, LAsleep))
  {
    var s' := s.(lkSpin := None, lkChannel := s.lkChannel + [t]).Go(t, LAsleep);
    assert ThreadOk(s, t);
    DistinctAppend(s.lkChannel, t);
    forall u | u in s'.pc ensures ThreadOk(s', u) {
      assert ThreadOk(s, u);
    }
  }

  lemma CvSleepInv(s: State, t: Tid)
    requires Inv(s) && s.At(t, CSleep)
    ensures Inv(s.(cvSpin := None, cvChannel := s.cvChannel + [t]).Go(t, CAsleep))
  {
    var s' := s.(cvSpin := None, cvChannel := s.cvChannel + [t]).Go(t, CAsleep);
    assert ThreadOk(s, t);
    DistinctAppend(s.cvChannel, t);
    forall u | u in s'.pc ensures ThreadOk(s', u) {
      assert ThreadOk(s, u);
    }
    DueKept(s, s', t);
  }

  /** A step of a thread that was not due leaves the others due. */
  lemma DueKept(s: State, s': State, t: Tid)
    requires Inv(s) && t in s.pc && !Due(s.pc[t])
    requires forall u :: u in s.pc && Due(s.pc[u]) ==> u in s'.pc && Due(s'.pc[u])
    ensures s.owner == None && s.lkChannel != [] ==> SomeoneDue(s')
  {
    if s.owner == None && s.lkChannel != [] {
      var u :| u in s.pc && Due(s.pc[u]);
      assert u in s'.pc && Due(s'.pc[u]);
    }
  }

  lemma WakeLockerInv(s: State, t: Tid, inWait: bool)
    requires Inv(s) && s.At(t, RWake(inWait)) && s.lkChannel != []
    ensures Inv(s.(lkChannel := s.lkChannel[1..]).Go(s.lkChannel[0], LWoken).Go(t, RDone(inWait)))
  {
    var head := s.lkChannel[0];
    var s' := s.(lkChannel := s.lkChannel[1..]).Go(head, LWoken).Go(t, RDone(inWait));
    TailElements(s.lkChannel);
    assert head in s.lkChannel && ThreadOk(s, head) && ThreadOk(s, t);
    forall u | u in s'.pc ensures ThreadOk(s', u) {
      assert ThreadOk(s, u);
    }
    assert Due(s'.pc[head]);
  }

  lemma SignalOneInv(s: State, t: Tid)
    requires Inv(s) && s.At(t, SWake(false)) && s.cvChannel != []
    ensures Inv(s.(cvChannel := s.cvChannel[1..]).Go(s.cvChannel[0], CWoken).Go(t, SDone))
  {
    var head := s.cvChannel[0];
    var s' := s.(cvChannel := s.cvChannel[1..]).Go(head, CWoken).Go(t, SDone);
    TailElements(s.cvChannel);
    assert head in s.cvChannel && ThreadOk(s, head) && ThreadOk(s, t);
    forall u | u in s'.pc ensures ThreadOk(s', u) {
      assert ThreadOk(s, u);
    }
  }

  lemma BroadcastInv(s: State, t: Tid)
    requires Inv(s) && s.At(t, SWake(true))
    ensures Inv(s.(cvChannel := [], pc := WokenAll(s.pc, s.cvChannel)).Go(t, SDone))
  {
    var s' := s.(cvChannel := [], pc := WokenAll(s.pc, s.cvChannel)).Go(t, SDone);
    assert ThreadOk(s, t);
    forall u | u in s'.pc ensures ThreadOk(s', u) {
      assert ThreadOk(s, u);
    }
  }

  lemma StepInv(s: State, step: Step)
    requires Inv(s) && Enabled(s, step)
    ensures Inv(Apply(s, step))
  {
    var t := step.t;
    if Local(s, step) {
      match step
      case AcquireStart(_) => LockStepInv(s, step);
      case Relock(_) => LockStepInv(s, step);
      case Test(_) => LockStepInv(s, step);
      case Take(_) => LockStepInv(s, step);
      case AcquireEnd(_) => LockStepInv(s, step);
      case ReleaseStart(_) => ReleaseStepInv(s, step);
      case Clear(_) => ReleaseStepInv(s, step);
      case WakeLocker(_) => ReleaseStepInv(s, step);
      case ReleaseEnd(_) => ReleaseStepInv(s, step);
      case _ => CvStepInv(s, step);
    } else {
      ChannelStepInv(s, step);
    }
  }

  lemma ChannelStepInv(s: State, step: Step)
    requires Inv(s) && Enabled(s, step) && !Local(s, step)
    ensures Inv(Apply(s, step))
  {
    var t := step.t;
    match step
    case Test(_) => LockSleepInv(s, t);
    case Sleep(_) => CvSleepInv(s, t);
    case WakeLocker(_) => WakeLockerInv(s, t, s.pc[t].inWait);
    case SignalWake(_) =>
      if s.pc[t].all {
        BroadcastInv(s, t);
      } else if s.cvChannel != [] {
        SignalOneInv(s, t);
      } else {
        assert ThreadOk(s, t);
        LocalInv(s, s.Go(t, SDone), t);
      }
  }

  // ------------------------------------------------------------------------
  // Runs
  // ------------------------------------------------------------------------

  /** A lock and a condition variable just created, with nobody using them. */
  ghost predicate Init(s: State) {
    && s.lkSpin == None && s.cvSpin == None && s.owner == None
    && s.lkChannel == [] && s.cvChannel == []
    && forall t :: t in s.pc ==> s.pc[t] == Out
  }

  /** Some interleaving: its states, with the step between each and the next. */
  datatype Run = Run(states: seq<State>, steps: seq<Step>)

  ghost predicate StepAt(r: Run, i: nat)
    requires i < |r.steps| && |r.states| == |r.steps| + 1
  {
    Enabled(r.states[i], r.steps[i]) && r.states[i + 1] == Apply(r.states[i], r.steps[i])
  }

  ghost predicate Behaviour(r: Run) {
    |r.states| == |r.steps| + 1 && Init(r.states[0]) && forall i :: 0 <= i < |r.steps| ==> StepAt(r, i)
  }

  /** The invariant holds in every state of every interleaving. */
  lemma {:induction false} BehaviourInv(r: Run, n: nat)
    requires Behaviour(r) && n <= |r.steps|
    ensures Inv(r.states[n])
  {
    if n > 0 {
      BehaviourInv(r, n - 1);
      assert StepAt(r, n - 1);
      StepInv(r.states[n - 1], r.steps[n - 1]);
    }
  }

  // ------------------------------------------------------------------------
  // What it means
  // ------------------------------------------------------------------------

  /** A state some interleaving leads to. */
  ghost predicate Reachable(s: State) {
    exists r :: Behaviour(r) && r.states[|r.steps|] == s
  }

  lemma ReachableInv(s: State)
    requires Reachable(s)
    ensures Inv(s)
  {
    var r :| Behaviour(r) && r.states[|r.steps|] == s;
    BehaviourInv(r, |r.steps|);
  }

  /** At most one thread owns the lock, however newcomers and woken waiters race for it. */
  lemma MutualExclusion(s: State, t: Tid, u: Tid)
    requires Reachable(s) && t in s.pc && u in s.pc && OwnsLock(s.pc[t]) && OwnsLock(s.pc[u])
    ensures t == u
  {
    ReachableInv(s);
    assert ThreadOk(s, t) && ThreadOk(s, u);
  }

  /**
   * While the lock is free and somebody sleeps for it, a woken thread can go on to
   * look at it again, or the holder of lk_lock can.
   */
  lemma FreeLockMovesOn(s: State)
    requires Reachable(s) && s.owner == None && s.lkChannel != []
    ensures SomeoneDue(s)
    ensures s.lkSpin == None ==> exists t :: Enabled(s, Relock(t))
    ensures s.lkSpin != None ==> exists step: Step :: step.t == s.lkSpin.value && Enabled(s, step)
  {
    ReachableInv(s);
    var t :| t in s.pc && Due(s.pc[t]);
    assert ThreadOk(s, t);
    if s.lkSpin == None {
      assert Enabled(s, Relock(t));
    } else {
      var h := s.lkSpin.value;
      assert ThreadOk(s, h);
      var step := match s.pc[h]
        case LTest => Test(h)
        case LTake => Take(h)
        case LDone => AcquireEnd(h)
        case RClear(_) => Clear(h)
        case RWake(_) => WakeLocker(h)
        case _ => ReleaseEnd(h);
      assert step.t == h && Enabled(s, step);
    }
  }

  /**
   * When a signaller is about to wake, every thread that has given up the lock inside
   * cv_wait and was not woken yet is on the channel.
   */
  lemma SignalSeesEveryWaiter(s: State, t: Tid, w: Tid)
    requires Reachable(s) && t in s.pc && s.pc[t].SWake? && w in s.pc
    ensures Waiting(s.pc[w]) <==> w in s.cvChannel
  {
    ReachableInv(s);
    assert ThreadOk(s, t) && ThreadOk(s, w);
  }

  /** A signal with a waiter wakes the first of them and leaves the others, and a broadcast wakes all of them. */
  lemma SignalEffect(s: State, t: Tid, w: Tid)
    requires Reachable(s) && t in s.pc && s.pc[t].SWake? && w in s.pc
    ensures var s' := Apply(s, SignalWake(t));
            if Waiting(s.pc[w]) && (s.pc[t].all || [w] <= s.cvChannel) then s'.At(w, CWoken)
            else s'.At(w, if w == t then SDone else s.pc[w])
  {
    SignalSeesEveryWaiter(s, t, w);
    ReachableInv(s);
    assert ThreadOk(s, t) && ThreadOk(s, w);
    if s.cvChannel != [] {
      assert s.cvChannel[0] in s.cvChannel && ThreadOk(s, s.cvChannel[0]);
    }
  }

  // ------------------------------------------------------------------------
  // What a call does
  // ------------------------------------------------------------------------

  /** What can be seen to happen to a thread: it gets or gives up the lock, joins or leaves the CV's channel. */
  datatype Event = Got | GaveUp | Slept | Left(step: Step)

  function Seen(s: State, step: Step, s': State, t: Tid): seq<Event> {
    (if s.owner == Some(t) && s'.owner != Some(t) then [GaveUp]
     else if s.owner != Some(t) && s'.owner == Some(t) then [Got] else []) +
    (if t in s.cvChannel && t !in s'.cvChannel then [Left(step)]
     else if t !in s.cvChannel && t in s'.cvChannel then [Slept] else [])
  }

  /** All that happens to t from state i to state j, in order. */
  function Story(r: Run, t: Tid, i: nat, j: nat): seq<Event>
    requires i <= j <= |r.steps| && |r.states| == |r.steps| + 1
  {
    if i == j then [] else Story(r, t, i, j - 1) + Seen(r.states[j - 1], r.steps[j - 1], r.states[j], t)
  }

  /** Outside these functions. */
  predicate Outside(s: State, t: Tid) {
    s.At(t, Out) || s.At(t, Owner)
  }

  /** The call that t makes in step i has returned in state j, and not before. */
  ghost predicate Returns(r: Run, t: Tid, i: nat, j: nat)
    requires |r.states| == |r.steps| + 1
  {
    i < j <= |r.steps| && Outside(r.states[j], t) && forall k :: i < k < j ==> !Outside(r.states[k], t)
  }

  /** How many steps of its own a thread inside has to go, at most, until it returns or sleeps. */
  function StepsLeft(p: Pc): nat {
    match p
    case Out | Owner | LAsleep | CAsleep => 0
    case CSleep | SDone | LDone => 1
    case RDone(_) | LTake | SWake(_) => 2
    case RWake(_) | LTest => 3
    case RClear(_) | LWoken | CWant => 4
    case CHold | CBack => 5
    case CWoken => 6
  }

  /** Each step of its own brings a thread inside nearer to its return, or to sleep. */
  lemma MovesOn(s: State, step: Step)
    requires Reachable(s) && Enabled(s, step) && !Outside(s, step.t)
    ensures var s', t := Apply(s, step), step.t;
            t in s'.pc && StepsLeft(s'.pc[t]) < StepsLeft(s.pc[t])
  {
    ReachableInv(s);
  }

  /** The steps of others move a thread on only where it sleeps, and leave what it holds. */
  lemma OthersStep(s: State, step: Step, t: Tid)
    requires Inv(s) && Enabled(s, step) && t in s.pc && step.t != t
    ensures var s' := Apply(s, step);
            && t in s'.pc
            && (s'.owner == Some(t) <==> s.owner == Some(t))
            && (t in s'.cvChannel ==> t in s.cvChannel)
            && s'.pc[t] == (if s.pc[t].LAsleep? && step.WakeLocker? && s.lkChannel[0] == t then LWoken
                            else if s.pc[t].CAsleep? && t !in s'.cvChannel then CWoken
                            else s.pc[t])
            && (t in s.cvChannel && t !in s'.cvChannel ==> step.SignalWake?)
  {
    assert ThreadOk(s, t) && ThreadOk(s, step.t);
    if step.WakeLocker? && s.lkChannel != [] {
      var w := s.lkChannel[0];
      assert w in s.lkChannel && ThreadOk(s, w);
    }
    if step.SignalWake? && s.cvChannel != [] {
      var w := s.cvChannel[0];
      assert w in s.cvChannel && ThreadOk(s, w);
      TailElements(s.cvChannel);
    }
  }

  lemma OwnerAt(r: Run, k: nat, t: Tid)
    requires Behaviour(r) && k <= |r.steps| && t in r.states[k].pc
    ensures OwnsLock(r.states[k].pc[t]) <==> r.states[k].owner == Some(t)
  {
    BehaviourInv(r, k);
    assert ThreadOk(r.states[k], t);
  }

  /** In lock_acquire, with what has happened to the thread since it was to call it. */
  predicate InAcquire(s: State, t: Tid, done: seq<Event>) {
    t in s.pc &&
    match s.pc[t]
    case LTest | LTake | LAsleep | LWoken => done == []
    case LDone => done == [Got]
    case _ => false
  }

  lemma StepInAcquire(s: State, step: Step, t: Tid, done: seq<Event>)
    requires Inv(s) && Enabled(s, step) && InAcquire(s, t, done)
    ensures var s' := Apply(s, step);
            var done' := done + Seen(s, step, s', t);
            if Outside(s', t) then s'.At(t, Owner) && done' == [Got] else InAcquire(s', t, done')
  {
    assert ThreadOk(s, t);
    if step.t != t {
      OthersStep(s, step, t);
    }
  }

  lemma {:induction false} DuringAcquire(r: Run, t: Tid, i: nat, k: nat)
    requires Behaviour(r) && i < k <= |r.steps| && r.steps[i] == AcquireStart(t) && r.states[i].At(t, Out)
    requires forall m :: i < m < k ==> !Outside(r.states[m], t)
    ensures var s, done := r.states[k], Story(r, t, i, k);
            if Outside(s, t) then s.At(t, Owner) && done == [Got] else InAcquire(s, t, done)
  {
    if k == i + 1 {
      assert StepAt(r, i);
      assert Story(r, t, i, i) == [];
    } else {
      DuringAcquire(r, t, i, k - 1);
      AcquireAt(r, t, k - 1, Story(r, t, i, k - 1));
    }
  }

  lemma AcquireAt(r: Run, t: Tid, k: nat, done: seq<Event>)
    requires Behaviour(r) && k < |r.steps| && InAcquire(r.states[k], t, done)
    ensures var s' := r.states[k + 1];
            var done' := done + Seen(r.states[k], r.steps[k], s', t);
            if Outside(s', t) then s'.At(t, Owner) && done' == [Got] else InAcquire(s', t, done')
  {
    assert StepAt(r, k);
    BehaviourInv(r, k);
    StepInAcquire(r.states[k], r.steps[k], t, done);
  }

  /** lock_acquire returns with the lock, which it got once. */
  lemma AcquireReturns(r: Run, t: Tid, i: nat, j: nat)
    requires Behaviour(r) && i < |r.steps| && r.steps[i] == AcquireStart(t) && r.states[i].At(t, Out)
    requires Returns(r, t, i, j)
    ensures r.states[j].At(t, Owner) && r.states[j].owner == Some(t) && Story(r, t, i, j) == [Got]
  {
    DuringAcquire(r, t, i, j);
    OwnerAt(r, j, t);
  }

  /** The lock given up, then asleep on the channel, then taken off it by another thread's signal or broadcast. */
  predicate Signalled(done: seq<Event>, t: Tid) {
    && |done| == 3 && done[0] == GaveUp && done[1] == Slept
    && done[2].Left? && done[2].step.SignalWake? && done[2].step.t != t
  }

  predicate WaitStory(done: seq<Event>, t: Tid) {
    |done| == 4 && Signalled(done[..3], t) && done[3] == Got
  }

  /** In cv_wait. */
  predicate InWait(s: State, t: Tid, done: seq<Event>) {
    t in s.pc &&
    match s.pc[t]
    case CHold => done == []
    case RClear(w) => w && done == []
    case RWake(w) => w && done == [GaveUp]
    case RDone(w) => w && done == [GaveUp]
    case CSleep => done == [GaveUp]
    case CAsleep => done == [GaveUp, Slept]
    case CWoken | CBack | CWant | LTest | LTake | LAsleep | LWoken => Signalled(done, t)
    case LDone => WaitStory(done, t)
    case _ => false
  }

  lemma OwnStepToRelease(s: State, step: Step, done: seq<Event>)
    requires Inv(s) && Enabled(s, step) && InWait(s, step.t, done) && done == []
    ensures var s', t := Apply(s, step), step.t;
            !Outside(s', t) && InWait(s', t, done + Seen(s, step, s', t))
  {
    assert ThreadOk(s, step.t);
  }

  lemma OwnStepToSleep(s: State, step: Step, done: seq<Event>)
    requires Inv(s) && Enabled(s, step) && InWait(s, step.t, done) && |done| in {1, 2}
    ensures var s', t := Apply(s, step), step.t;
            !Outside(s', t) && InWait(s', t, done + Seen(s, step, s', t))
  {
    assert ThreadOk(s, step.t);
  }

  lemma OwnStepToLock(s: State, step: Step, done: seq<Event>)
    requires Inv(s) && Enabled(s, step) && InWait(s, step.t, done) && |done| >= 3
    ensures var s', t := Apply(s, step), step.t;
            var done' := done + Seen(s, step, s', t);
            if Outside(s', t) then s'.At(t, Owner) && WaitStory(done', t) else InWait(s', t, done')
  {
    assert ThreadOk(s, step.t);
  }

  lemma OthersStepInWait(s: State, step: Step, t: Tid, done: seq<Event>)
    requires Inv(s) && Enabled(s, step) && InWait(s, t, done) && step.t != t
    ensures var s' := Apply(s, step);
            !Outside(s', t) && InWait(s', t, done + Seen(s, step, s', t))
  {
    OthersStep(s, step, t);
    assert ThreadOk(s, t);
  }

  lemma {:induction false} DuringWait(r: Run, t: Tid, i: nat, k: nat)
    requires Behaviour(r) && i < k <= |r.steps| && r.steps[i] == WaitStart(t)
    requires forall m :: i < m < k ==> !Outside(r.states[m], t)
    ensures var s, done := r.states[k], Story(r, t, i, k);
            if Outside(s, t) then s.At(t, Owner) && WaitStory(done, t) else InWait(s, t, done)
  {
    if k == i + 1 {
      WaitBegins(r, t, i);
    } else {
      DuringWait(r, t, i, k - 1);
      WaitAt(r, t, k - 1, Story(r, t, i, k - 1));
    }
  }

  lemma WaitBegins(r: Run, t: Tid, i: nat)
    requires Behaviour(r) && i < |r.steps| && r.steps[i] == WaitStart(t)
    ensures r.states[i + 1].At(t, CHold) && Story(r, t, i, i + 1) == []
  {
    assert StepAt(r, i);
    assert Story(r, t, i, i) == [];
  }

  lemma WaitAt(r: Run, t: Tid, k: nat, done: seq<Event>)
    requires Behaviour(r) && k < |r.steps| && InWait(r.states[k], t, done)
    ensures var s' := r.states[k + 1];
            var done' := done + Seen(r.states[k], r.steps[k], s', t);
            if Outside(s', t) then s'.At(t, Owner) && WaitStory(done', t) else InWait(s', t, done')
  {
    assert StepAt(r, k);
    BehaviourInv(r, k);
    if r.steps[k].t == t && done == [] {
      OwnStepToRelease(r.states[k], r.steps[k], done);
    } else if r.steps[k].t == t && |done| < 3 {
      OwnStepToSleep(r.states[k], r.steps[k], done);
    } else if r.steps[k].t == t {
      OwnStepToLock(r.states[k], r.steps[k], done);
    } else {
      OthersStepInWait(r.states[k], r.steps[k], t, done);
    }
  }

  /**
   * cv_wait returns with the lock. In between it gave the lock up once, slept on the
   * channel once, was taken off it by a signal or broadcast of another thread, and
   * only then got the lock again, in this order.
   */
  lemma WaitReturns(r: Run, t: Tid, i: nat, j: nat)
    requires Behaviour(r) && i < |r.steps| && r.steps[i] == WaitStart(t) && Returns(r, t, i, j)
    ensures r.states[j].At(t, Owner) && r.states[j].owner == Some(t) && WaitStory(Story(r, t, i, j), t)
  {
    DuringWait(r, t, i, j);
    OwnerAt(r, j, t);
  }

  /**
   * No wakeup is lost: a thread that has given the lock up in cv_wait, and was not taken
   * off the channel since, is on it whenever a signaller or broadcaster comes to wake.
   */
  lemma NoLostWakeup(r: Run, t: Tid, i: nat, k: nat)
    requires Behaviour(r) && i < k < |r.steps| && r.steps[i] == WaitStart(t) && r.steps[k].SignalWake?
    requires forall m :: i < m <= k ==> !Outside(r.states[m], t)
    requires GaveUp in Story(r, t, i, k) && forall e :: e in Story(r, t, i, k) ==> !e.Left?
    ensures t in r.states[k].cvChannel
  {
    DuringWait(r, t, i, k);
    assert StepAt(r, k);
    var s, u := r.states[k], r.steps[k].t;
    BehaviourInv(r, k);
    assert ThreadOk(s, t) && ThreadOk(s, u);
  }

  // ------------------------------------------------------------------------
  // What a release and a signal do for the others
  // ------------------------------------------------------------------------

  /** What is left once the first is woken. */
  function Rest(channel: seq<Tid>): seq<Tid> {
    if channel == [] then [] else channel[1..]
  }

  /** Nobody else touches a channel while t holds its spinlock. */
  lemma SpinKeepsChannel(s: State, step: Step, t: Tid)
    requires Inv(s) && Enabled(s, step) && t in s.pc && step.t != t
    ensures HoldsLkSpin(s.pc[t]) ==> Apply(s, step).lkChannel == s.lkChannel
    ensures HoldsCvSpin(s.pc[t]) ==> Apply(s, step).cvChannel == s.cvChannel
  {
    assert ThreadOk(s, t) && ThreadOk(s, step.t);
  }

  /** In lock_release, entered with those threads asleep for the lock, from cv_wait or not. */
  predicate InRelease(s: State, t: Tid, was: seq<Tid>, inWait: bool, done: seq<Event>) {
    t in s.pc &&
    match s.pc[t]
    case RClear(w) => w == inWait && s.lkChannel == was && done == []
    case RWake(w) => w == inWait && s.lkChannel == was && done == [GaveUp]
    case RDone(w) => w == inWait && s.lkChannel == Rest(was) && done == [GaveUp]
    case _ => false
  }

  /** Back from lock_release. */
  predicate Released(s: State, t: Tid, was: seq<Tid>, inWait: bool, done: seq<Event>) {
    s.At(t, if inWait then CSleep else Out) && s.lkChannel == Rest(was) && done == [GaveUp]
  }

  predicate Releasing(s: State, t: Tid) {
    t in s.pc && (s.pc[t].RClear? || s.pc[t].RWake? || s.pc[t].RDone?)
  }

  lemma ReleaseAt(r: Run, t: Tid, k: nat, was: seq<Tid>, inWait: bool, done: seq<Event>)
    requires Behaviour(r) && k < |r.steps| && InRelease(r.states[k], t, was, inWait, done)
    ensures var s' := r.states[k + 1];
            var done' := done + Seen(r.states[k], r.steps[k], s', t);
            if Releasing(s', t) then InRelease(s', t, was, inWait, done') else Released(s', t, was, inWait, done')
  {
    assert StepAt(r, k);
    BehaviourInv(r, k);
    var s, step := r.states[k], r.steps[k];
    assert ThreadOk(s, t);
    if step.t != t {
      OthersStep(s, step, t);
      SpinKeepsChannel(s, step, t);
    }
  }

  lemma {:induction false} DuringRelease(r: Run, t: Tid, i: nat, k: nat)
    requires Behaviour(r) && i < k <= |r.steps| && r.steps[i] == ReleaseStart(t)
    requires forall m :: i < m < k ==> Releasing(r.states[m], t)
    ensures var s, s', done := r.states[i], r.states[k], Story(r, t, i, k);
            if Releasing(s', t) then InRelease(s', t, s.lkChannel, s.At(t, CHold), done)
            else Released(s', t, s.lkChannel, s.At(t, CHold), done)
  {
    if k == i + 1 {
      assert StepAt(r, i);
      assert Story(r, t, i, i) == [];
    } else {
      DuringRelease(r, t, i, k - 1);
      ReleaseAt(r, t, k - 1, r.states[i].lkChannel, r.states[i].At(t, CHold), Story(r, t, i, k - 1));
    }
  }

  /**
   * lock_release, called by itself or from cv_wait, has given the lock up once, and of
   * the threads asleep for it when it started the first, and no other, has left the channel.
   */
  lemma ReleaseReturns(r: Run, t: Tid, i: nat, j: nat)
    requires Behaviour(r) && i < j <= |r.steps| && r.steps[i] == ReleaseStart(t)
    requires !Releasing(r.states[j], t) && forall m :: i < m < j ==> Releasing(r.states[m], t)
    ensures var s, s' := r.states[i], r.states[j];
            && s'.At(t, if s.At(t, CHold) then CSleep else Out)
            && s'.owner != Some(t) && Story(r, t, i, j) == [GaveUp]
            && s'.lkChannel == Rest(s.lkChannel)
  {
    DuringRelease(r, t, i, j);
    OwnerAt(r, j, t);
  }

  /** What a signal or a broadcast leaves on the channel. */
  function Unsignalled(channel: seq<Tid>, all: bool): seq<Tid> {
    if all then [] else Rest(channel)
  }

  /** In cv_signal or cv_broadcast, entered with those threads asleep on the channel. */
  predicate InSignal(s: State, t: Tid, was: seq<Tid>, all: bool) {
    t in s.pc &&
    match s.pc[t]
    case SWake(a) => a == all && s.cvChannel == was
    case SDone => s.cvChannel == Unsignalled(was, all)
    case _ => false
  }

  lemma SignalAt(r: Run, t: Tid, k: nat, was: seq<Tid>, all: bool)
    requires Behaviour(r) && k < |r.steps| && InSignal(r.states[k], t, was, all)
    ensures var s' := r.states[k + 1];
            && Seen(r.states[k], r.steps[k], s', t) == []
            && if Outside(s', t) then s'.At(t, Owner) && s'.cvChannel == Unsignalled(was, all)
               else InSignal(s', t, was, all)
  {
    assert StepAt(r, k);
    BehaviourInv(r, k);
    var s, step := r.states[k], r.steps[k];
    assert ThreadOk(s, t);
    if step.t != t {
      OthersStep(s, step, t);
      SpinKeepsChannel(s, step, t);
    }
  }

  lemma {:induction false} DuringSignal(r: Run, t: Tid, all: bool, i: nat, k: nat)
    requires Behaviour(r) && i < k <= |r.steps| && r.steps[i] == SignalStart(t, all)
    requires forall m :: i < m < k ==> !Outside(r.states[m], t)
    ensures var s, s' := r.states[i], r.states[k];
            && Story(r, t, i, k) == []
            && if Outside(s', t) then s'.At(t, Owner) && s'.cvChannel == Unsignalled(s.cvChannel, all)
               else InSignal(s', t, s.cvChannel, all)
  {
    if k == i + 1 {
      assert StepAt(r, i);
      assert Story(r, t, i, i) == [];
    } else {
      DuringSignal(r, t, all, i, k - 1);
      SignalAt(r, t, k - 1, r.states[i].cvChannel, all);
    }
  }

  /**
   * cv_signal and cv_broadcast keep the lock throughout, and of the threads asleep on
   * the channel when they started the first, or every one, has left it.
   */
  lemma SignalReturns(r: Run, t: Tid, all: bool, i: nat, j: nat)
    requires Behaviour(r) && i < |r.steps| && r.steps[i] == SignalStart(t, all) && Returns(r, t, i, j)
    ensures r.states[j].At(t, Owner) && Story(r, t, i, j) == []
    ensures r.states[j].cvChannel == Unsignalled(r.states[i].cvChannel, all)
  {
    DuringSignal(r, t, all, i, j);
  }

  // ------------------------------------------------------------------------
  // Order
  // ------------------------------------------------------------------------

  /** The channels through a run: the lock's, or the condition variable's. */
  ghost function Channels(r: Run, cv: bool): seq<seq<Tid>> {
    seq(|r.states|, i requires 0 <= i < |r.states| => if cv then r.states[i].cvChannel else r.states[i].lkChannel)
  }

  lemma StepMoves(s: State, step: Step)
    requires Inv(s) && Enabled(s, step)
    ensures var s' := Apply(s, step);
            && Queues.Moves(s.lkChannel, s'.lkChannel) && |s'.lkChannel| >= |s.lkChannel| - 1
            && Queues.Moves(s.cvChannel, s'.cvChannel)
  {
    assert ThreadOk(s, step.t);
  }

  lemma ChannelHistory(r: Run, cv: bool)
    requires Behaviour(r)
    ensures Queues.History(Channels(r, cv))
  {
    var h := Channels(r, cv);
    forall i | 0 <= i < |h| ensures Distinct(h[i]) {
      BehaviourInv(r, i);
    }
    forall i | 0 <= i < |h| - 1 ensures Queues.Shifts(h[i], h[i + 1]) {
      assert StepAt(r, i);
      BehaviourInv(r, i);
      StepMoves(r.states[i], r.steps[i]);
    }
  }

  /** Step i puts t to sleep, for the lock or on the condition variable, and it is asleep up to state k. */
  ghost predicate AsleepSince(r: Run, cv: bool, t: Tid, i: nat, k: nat)
    requires i < k <= |r.steps| && |r.states| == |r.steps| + 1
  {
    var p := if cv then CAsleep else LAsleep;
    !r.states[i].At(t, p) && forall m :: i < m <= k ==> r.states[m].At(t, p)
  }

  lemma OnChannelSince(r: Run, cv: bool, t: Tid, i: nat, k: nat)
    requires Behaviour(r) && i < k <= |r.steps| && AsleepSince(r, cv, t, i, k)
    ensures Queues.Since(Channels(r, cv), t, i, k)
  {
    forall m | i <= m <= k
      ensures t in Channels(r, cv)[m] <==> r.states[m].At(t, if cv then CAsleep else LAsleep)
    {
      BehaviourInv(r, m);
      if t in r.states[m].pc {
        assert ThreadOk(r.states[m], t);
      }
    }
  }

  /**
   * Of two threads asleep for the lock, or on the condition variable, the one that fell
   * asleep later is woken only after the other, or in the same broadcast.
   */
  lemma FirstAsleepFirstWoken(r: Run, cv: bool, t: Tid, u: Tid, i: nat, j: nat, k: nat)
    requires Behaviour(r) && i < j < k < |r.steps| && AsleepSince(r, cv, t, i, k) && AsleepSince(r, cv, u, j, k)
    ensures var s' := r.states[k + 1];
            if cv then u in s'.cvChannel || s'.cvChannel == [] else u in s'.lkChannel
  {
    ChannelHistory(r, cv);
    OnChannelSince(r, cv, t, i, k);
    OnChannelSince(r, cv, u, j, k);
    Queues.InOrder(Channels(r, cv), t, u, i, j, k);
    assert StepAt(r, k);
    BehaviourInv(r, k);
    StepMoves(r.states[k], r.steps[k]);
    Queues.MovesKeep(Channels(r, cv)[k], Channels(r, cv)[k + 1], t, u);
  }
}
