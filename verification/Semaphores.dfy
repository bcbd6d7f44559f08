/** Semaphores (synch.c): P and V by any number of threads, one statement at a time. */
module Semaphores {
  import opened Chains
  import Queues

  type Tid = nat

  /** The largest value of sem_count, an unsigned 32-bit word. */
  const COUNT_MAX: nat := 0xffff_ffff

  /**
   * Where a thread is.  In P: testing the count, about to take a unit, about to
   * release the spinlock, asleep, or woken and waiting for the spinlock again.  In
   * V: about to add a unit, to wake a sleeper, to release the spinlock.
   */
  datatype Pc = Out | PTest | PTake | PDone | Asleep | Woken | VAdd | VWake | VDone

  datatype State = State(spin: Option<Tid>, count: nat, channel: seq<Tid>, pc: map<Tid, Pc>) {

    predicate At(t: Tid, p: Pc) {
      t in pc && pc[t] == p
    }

    function Go(t: Tid, p: Pc): State {
      this.(pc := pc[t := p])
    }

    /** The threads at p. */
    ghost function Here(p: Pc): set<Tid> {
      set t | t in pc && pc[t] == p
    }

    ghost function WokenSet(): set<Tid> {
      Here(Woken)
    }
  }

  datatype Step = BeginP(t: Tid) | Test(t: Tid) | Take(t: Tid) | EndP(t: Tid) | Relock(t: Tid)
                | BeginV(t: Tid) | Add(t: Tid) | WakeOne(t: Tid) | EndV(t: Tid)

  /** An increment of a full count wraps to zero and fails the assertion after it, so it is no step. */
  predicate Enabled(s: State, step: Step) {
    match step
    case BeginP(t) => s.At(t, Out) && s.spin == None
    case Test(t) => s.At(t, PTest)
    case Take(t) => s.At(t, PTake) && s.count > 0
    case EndP(t) => s.At(t, PDone)
    case Relock(t) => s.At(t, Woken) && s.spin == None
    case BeginV(t) => s.At(t, Out) && s.spin == None
    case Add(t) => s.At(t, VAdd) && s.count < COUNT_MAX
    case WakeOne(t) => s.At(t, VWake)
    case EndV(t) => s.At(t, VDone)
  }

  function Apply(s: State, step: Step): State
    requires Enabled(s, step)
  {
    match step
    case BeginP(t) => s.(spin := Some(t)).Go(t, PTest)
    case Test(t) =>
      if s.count == 0 then s.(spin := None, channel := s.channel + [t]).Go(t, Asleep)
      else s.Go(t, PTake)
    case Take(t) => s.(count := s.count - 1).Go(t, PDone)
    case EndP(t) => s.(spin := None).Go(t, Out)
    case Relock(t) => s.(spin := Some(t)).Go(t, PTest)
    case BeginV(t) => s.(spin := Some(t)).Go(t, VAdd)
    case Add(t) => s.(count := s.count + 1).Go(t, VWake)
    case WakeOne(t) =>
      if s.channel == [] then s.Go(t, VDone)
      else s.(channel := s.channel[1..]).Go(s.channel[0], Woken).Go(t, VDone)
    case EndV(t) => s.(spin := None).Go(t, Out)
  }

  // ------------------------------------------------------------------------
  // The invariant
  // ------------------------------------------------------------------------

  predicate Holding(p: Pc) {
    p == PTest || p == PTake || p == PDone || p == VAdd || p == VWake || p == VDone
  }

  /** The spinlock holder is about to look at the count or to wake somebody for it. */
  predicate HolderDue(s: State) {
    s.spin != None && s.spin.value in s.pc && s.pc[s.spin.value] in {PTest, PTake, VWake}
  }

  ghost predicate Inv(s: State) {
    && (forall t :: t in s.pc ==> (Holding(s.pc[t]) <==> s.spin == Some(t)))
    && (s.spin != None ==> s.spin.value in s.pc)
    && (forall t :: t in s.channel <==> s.At(t, Asleep))
    && Distinct(s.channel)
    && (s.spin != None && s.pc[s.spin.value] == PTake ==> s.count > 0)
    && s.count <= COUNT_MAX
    && (s.channel != [] ==> s.count <= |s.WokenSet()| + if HolderDue(s) then 1 else 0)
  }

  /** A semaphore just created, with nobody using it. */
  ghost predicate Init(s: State) {
    && s.spin == None && s.channel == [] && s.count <= COUNT_MAX
    && forall t :: t in s.pc ==> s.pc[t] == Out
  }

  lemma LockInv(s: State, t: Tid, p: Pc)
    requires Inv(s) && t in s.pc && s.spin == None && (s.pc[t] == Out && (p == PTest || p == VAdd))
    ensures Inv(s.(spin := Some(t)).Go(t, p))
  {
    assert s.WokenSet() == s.(spin := Some(t)).Go(t, p).WokenSet();
  }

  lemma RelockInv(s: State, t: Tid)
    requires Inv(s) && s.At(t, Woken) && s.spin == None
    ensures Inv(s.(spin := Some(t)).Go(t, PTest))
  {
    assert s.WokenSet() == s.(spin := Some(t)).Go(t, PTest).WokenSet() + {t};
  }

  lemma UnlockInv(s: State, t: Tid)
    requires Inv(s) && (s.At(t, PDone) || s.At(t, VDone))
    ensures Inv(s.(spin := None).Go(t, Out))
  {
    assert s.WokenSet() == s.(spin := None).Go(t, Out).WokenSet();
  }

  lemma TakeInv(s: State, t: Tid)
    requires Inv(s) && Enabled(s, Take(t))
    ensures Inv(Apply(s, Take(t)))
  {
    assert s.WokenSet() == Apply(s, Take(t)).WokenSet();
  }

  lemma AddInv(s: State, t: Tid)
    requires Inv(s) && Enabled(s, Add(t))
    ensures Inv(Apply(s, Add(t)))
  {
    assert s.WokenSet() == Apply(s, Add(t)).WokenSet();
  }

  lemma TestInv(s: State, t: Tid)
    requires Inv(s) && Enabled(s, Test(t))
    ensures Inv(Apply(s, Test(t)))
  {
    var s' := Apply(s, Test(t));
    assert s.WokenSet() == s'.WokenSet();
    if s.count == 0 {
      DistinctAppend(s.channel, t);
    }
  }

  lemma WakeHeadInv(s: State, t: Tid)
    requires Inv(s) && s.At(t, VWake) && s.channel != []
    ensures Inv(s.(channel := s.channel[1..]).Go(s.channel[0], Woken).Go(t, VDone))
  {
    var head := s.channel[0];
    var s' := s.(channel := s.channel[1..]).Go(head, Woken).Go(t, VDone);
    TailElements(s.channel);
    assert s.At(head, Asleep) && head != t;
    WakeHeadSet(s, t);
    assert s'.channel != [] ==> |s'.WokenSet()| == |s.WokenSet()| + 1;
  }

  lemma WakeHeadSet(s: State, t: Tid)
    requires s.channel != [] && s.At(s.channel[0], Asleep) && s.At(t, VWake)
    ensures s.(channel := s.channel[1..]).Go(s.channel[0], Woken).Go(t, VDone).WokenSet() ==
            s.WokenSet() + {s.channel[0]}
    ensures s.channel[0] !in s.WokenSet()
  {
  }

  lemma WakeOneInv(s: State, t: Tid)
    requires Inv(s) && Enabled(s, WakeOne(t))
    ensures Inv(Apply(s, WakeOne(t)))
  {
    if s.channel == [] {
      assert s.WokenSet() == Apply(s, WakeOne(t)).WokenSet();
    } else {
      WakeHeadInv(s, t);
    }
  }

  lemma StepInv(s: State, step: Step)
    requires Inv(s) && Enabled(s, step)
    ensures Inv(Apply(s, step))
  {
    match step
    case BeginP(t) => LockInv(s, t, PTest);
    case Test(t) => TestInv(s, t);
    case Take(t) => TakeInv(s, t);
    case EndP(t) => UnlockInv(s, t);
    case Relock(t) => RelockInv(s, t);
    case BeginV(t) => LockInv(s, t, VAdd);
    case Add(t) => AddInv(s, t);
    case WakeOne(t) => WakeOneInv(s, t);
    case EndV(t) => UnlockInv(s, t);
  }

  // ------------------------------------------------------------------------
  // Runs
  // ------------------------------------------------------------------------

  /** An interleaving: its states, and the step taken in each of them but the last. */
  datatype Run = Run(states: seq<State>, steps: seq<Step>)

  ghost predicate StepAt(r: Run, i: nat)
    requires i < |r.steps| && |r.states| == |r.steps| + 1
  {
    Enabled(r.states[i], r.steps[i]) && r.states[i + 1] == Apply(r.states[i], r.steps[i])
  }

  ghost predicate Behaviour(r: Run) {
    |r.states| == |r.steps| + 1 && Init(r.states[0]) && forall i :: 0 <= i < |r.steps| ==> StepAt(r, i)
  }

  /**
   * In every state of every interleaving the invariant holds; and while somebody
   * sleeps, the units on offer do not exceed the threads already on their way to them.
   */
  lemma {:induction false} BehaviourInv(r: Run, n: nat)
    requires Behaviour(r) && n <= |r.steps|
    ensures var s := r.states[n];
            Inv(s) && (s.channel != [] && s.spin == None ==> s.count <= |s.WokenSet()|)
  {
    if n == 0 {
      assert r.states[0].WokenSet() == {};
    } else {
      BehaviourInv(r, n - 1);
      assert StepAt(r, n - 1);
      StepInv(r.states[n - 1], r.steps[n - 1]);
    }
  }

  /** A state some interleaving leads to. */
  ghost predicate Reachable(s: State) {
    exists r :: Behaviour(r) && r.states[|r.steps|] == s
  }

  lemma ReachableInv(s: State)
    requires Reachable(s)
    ensures Inv(s)
  {
    var r :| Behaviour(r) && r.states[|r.steps|] == s;
    BehaviourInv(r, |r.steps|);
  }

  /** No sleeper is stranded: with the spinlock free, a unit and a sleeper, some woken thread can proceed. */
  lemma NobodyStranded(s: State)
    requires Reachable(s) && s.channel != [] && s.count > 0 && s.spin == None
    ensures exists t :: s.At(t, Woken) && Enabled(s, Relock(t))
  {
    ReachableInv(s);
    assert s.WokenSet() != {};
    var t :| t in s.WokenSet();
    assert s.At(t, Woken) && Enabled(s, Relock(t));
  }

  /** A thread past its test never finds the count gone. */
  lemma TakeNeverFails(s: State, t: Tid)
    requires Reachable(s) && s.At(t, PTake)
    ensures Enabled(s, Take(t))
  {
    ReachableInv(s);
  }

  /** How many steps of its own a thread inside has to go, at most, until it returns or sleeps. */
  function StepsLeft(p: Pc): nat {
    match p
    case Out | Asleep => 0
    case PDone | VDone => 1
    case PTake | VWake => 2
    case PTest | VAdd => 3
    case Woken => 4
  }

  /** Each step of its own brings a thread inside nearer to its return, or to sleep; others only ever wake it. */
  lemma MovesOn(s: State, step: Step, t: Tid)
    requires Reachable(s) && Enabled(s, step) && t in s.pc && s.pc[t] != Out
    ensures var s' := Apply(s, step);
            && t in s'.pc
            && if step.t == t then StepsLeft(s'.pc[t]) < StepsLeft(s.pc[t])
               else s'.pc[t] == s.pc[t] || (step.WakeOne? && s.At(t, Asleep) && s'.At(t, Woken))
  {
    ReachableInv(s);
    assert step.WakeOne? && s.channel != [] ==> s.channel[0] in s.channel;
  }

  /** The holder of the spinlock can always go on, but for a V that would overflow the count. */
  lemma HolderGoesOn(s: State, t: Tid)
    requires Reachable(s) && s.spin == Some(t) && !(s.At(t, VAdd) && s.count == COUNT_MAX)
    ensures exists step: Step :: step.t == t && Enabled(s, step)
  {
    ReachableInv(s);
    var step := match s.pc[t]
      case PTest => Test(t)
      case PTake => Take(t)
      case PDone => EndP(t)
      case VAdd => Add(t)
      case VWake => WakeOne(t)
      case _ => EndV(t);
    assert step.t == t && Enabled(s, step);
  }

  // ------------------------------------------------------------------------
  // What a call does
  // ------------------------------------------------------------------------

  /** What a step of t does to the count, if anything. */
  function Change(s: State, step: Step, s': State, t: Tid): seq<int> {
    if step.t == t && s'.count != s.count then [s'.count - s.count] else []
  }

  /** All that t does to the count from state i to state j. */
  function Changes(r: Run, t: Tid, i: nat, j: nat): seq<int>
    requires i <= j <= |r.steps| && |r.states| == |r.steps| + 1
  {
    if i == j then [] else Changes(r, t, i, j - 1) + Change(r.states[j - 1], r.steps[j - 1], r.states[j], t)
  }

  /** The call that t is in after step i has returned in state j, and not before. */
  ghost predicate Returns(r: Run, t: Tid, i: nat, j: nat)
    requires |r.states| == |r.steps| + 1
  {
    i < j <= |r.steps| && r.states[j].At(t, Out) && forall k :: i < k < j ==> !r.states[k].At(t, Out)
  }

  /** In P, with what it has done to the count. */
  predicate InP(s: State, t: Tid, done: seq<int>) {
    t in s.pc && if s.pc[t] in {PTest, PTake, Asleep, Woken} then done == [] else s.pc[t] == PDone && done == [-1]
  }

  predicate InV(s: State, t: Tid, done: seq<int>) {
    t in s.pc && if s.pc[t] == VAdd then done == [] else s.pc[t] in {VWake, VDone} && done == [1]
  }

  lemma StepInP(s: State, step: Step, t: Tid, done: seq<int>)
    requires Inv(s) && Enabled(s, step) && InP(s, t, done)
    ensures var s' := Apply(s, step);
            var done' := done + Change(s, step, s', t);
            if s'.At(t, Out) then done' == [-1] else InP(s', t, done')
  {
    assert step.WakeOne? && s.channel != [] ==> s.channel[0] in s.channel;
  }

  lemma StepInV(s: State, step: Step, t: Tid, done: seq<int>)
    requires Inv(s) && Enabled(s, step) && InV(s, t, done)
    ensures var s' := Apply(s, step);
            var done' := done + Change(s, step, s', t);
            if s'.At(t, Out) then done' == [1] else InV(s', t, done')
  {
    assert step.WakeOne? && s.channel != [] ==> s.channel[0] in s.channel;
  }

  lemma StepInPAt(r: Run, t: Tid, k: nat, done: seq<int>)
    requires Behaviour(r) && k < |r.steps| && InP(r.states[k], t, done)
    ensures var done' := done + Change(r.states[k], r.steps[k], r.states[k + 1], t);
            if r.states[k + 1].At(t, Out) then done' == [-1] else InP(r.states[k + 1], t, done')
  {
    assert StepAt(r, k);
    BehaviourInv(r, k);
    StepInP(r.states[k], r.steps[k], t, done);
  }

  lemma PBegins(r: Run, t: Tid, i: nat)
    requires Behaviour(r) && i < |r.steps| && r.steps[i] == BeginP(t)
    ensures r.states[i + 1].At(t, PTest) && Changes(r, t, i, i + 1) == []
  {
    assert StepAt(r, i);
    assert Changes(r, t, i, i) == [];
  }

  lemma {:induction false} DuringP(r: Run, t: Tid, i: nat, k: nat)
    requires Behaviour(r) && i < k <= |r.steps| && r.steps[i] == BeginP(t)
    requires forall m :: i < m < k ==> !r.states[m].At(t, Out)
    ensures var done := Changes(r, t, i, k);
            if r.states[k].At(t, Out) then done == [-1] else InP(r.states[k], t, done)
  {
    if k == i + 1 {
      PBegins(r, t, i);
    } else {
      DuringP(r, t, i, k - 1);
      StepInPAt(r, t, k - 1, Changes(r, t, i, k - 1));
    }
  }

  lemma StepInVAt(r: Run, t: Tid, k: nat, done: seq<int>)
    requires Behaviour(r) && k < |r.steps| && InV(r.states[k], t, done)
    ensures var done' := done + Change(r.states[k], r.steps[k], r.states[k + 1], t);
            if r.states[k + 1].At(t, Out) then done' == [1] else InV(r.states[k + 1], t, done')
  {
    assert StepAt(r, k);
    BehaviourInv(r, k);
    StepInV(r.states[k], r.steps[k], t, done);
  }

  lemma VBegins(r: Run, t: Tid, i: nat)
    requires Behaviour(r) && i < |r.steps| && r.steps[i] == BeginV(t)
    ensures r.states[i + 1].At(t, VAdd) && Changes(r, t, i, i + 1) == []
  {
    assert StepAt(r, i);
    assert Changes(r, t, i, i) == [];
  }

  lemma {:induction false} DuringV(r: Run, t: Tid, i: nat, k: nat)
    requires Behaviour(r) && i < k <= |r.steps| && r.steps[i] == BeginV(t)
    requires forall m :: i < m < k ==> !r.states[m].At(t, Out)
    ensures var done := Changes(r, t, i, k);
            if r.states[k].At(t, Out) then done == [1] else InV(r.states[k], t, done)
  {
    if k == i + 1 {
      VBegins(r, t, i);
    } else {
      DuringV(r, t, i, k - 1);
      StepInVAt(r, t, k - 1, Changes(r, t, i, k - 1));
    }
  }

  /** In every interleaving a P that returns has taken one unit off the count, once, and done no more to it. */
  lemma PTakesOne(r: Run, t: Tid, i: nat, j: nat)
    requires Behaviour(r) && i < |r.steps| && r.steps[i] == BeginP(t) && Returns(r, t, i, j)
    ensures Changes(r, t, i, j) == [-1]
  {
    DuringP(r, t, i, j);
  }

  /** A V that returns has added one. */
  lemma VAddsOne(r: Run, t: Tid, i: nat, j: nat)
    requires Behaviour(r) && i < |r.steps| && r.steps[i] == BeginV(t) && Returns(r, t, i, j)
    ensures Changes(r, t, i, j) == [1]
  {
    DuringV(r, t, i, j);
  }

  // ------------------------------------------------------------------------
  // Conservation
  // ------------------------------------------------------------------------

  datatype Call = P | V

  /** What t called last, before step n. */
  function LastCall(steps: seq<Step>, t: Tid, n: nat): Option<Call>
    requires n <= |steps|
  {
    if n == 0 then None
    else if steps[n - 1] == BeginP(t) then Some(P)
    else if steps[n - 1] == BeginV(t) then Some(V)
    else LastCall(steps, t, n - 1)
  }

  /** How many calls of that kind have returned by state n. */
  function Returned(r: Run, c: Call, n: nat): nat
    requires n <= |r.steps| && |r.states| == |r.steps| + 1
  {
    if n == 0 then 0 else
      var t := r.steps[n - 1].t;
      var now := !r.states[n - 1].At(t, Out) && r.states[n].At(t, Out) && LastCall(r.steps, t, n - 1) == Some(c);
      Returned(r, c, n - 1) + if now then 1 else 0
  }

  /** A thread is where its last call has it. */
  predicate CallOk(p: Pc, c: Option<Call>) {
    && (p in {PTest, PTake, PDone, Asleep, Woken} ==> c == Some(P))
    && (p in {VAdd, VWake, VDone} ==> c == Some(V))
  }

  lemma {:induction false} InItsCall(r: Run, n: nat, t: Tid)
    requires Behaviour(r) && n <= |r.steps| && t in r.states[n].pc
    ensures CallOk(r.states[n].pc[t], LastCall(r.steps, t, n))
  {
    if n > 0 {
      assert StepAt(r, n - 1);
      BehaviourInv(r, n - 1);
      StepCall(r.states[n - 1], r.steps[n - 1], t);
      InItsCall(r, n - 1, t);
    }
  }

  lemma StepCall(s: State, step: Step, t: Tid)
    requires Inv(s) && Enabled(s, step) && t in Apply(s, step).pc
    ensures t in s.pc
    ensures var p' := Apply(s, step).pc[t];
            if step == BeginP(t) then p' == PTest
            else if step == BeginV(t) then p' == VAdd
            else forall c :: CallOk(s.pc[t], c) ==> CallOk(p', c)
  {
    assert step.WakeOne? && s.channel != [] ==> s.channel[0] in s.channel;
  }

  /** Units taken by Ps that have not returned yet, and added by Vs that have not. */
  ghost function TakenInside(s: State): nat {
    |s.Here(PDone)|
  }

  ghost function AddedInside(s: State): nat {
    |s.Here(VWake)| + |s.Here(VDone)|
  }

  lemma HereAfter(s: State, t: Tid, p: Pc, q: Pc)
    requires t in s.pc
    ensures s.Go(t, p).Here(q) == if p == q then s.Here(q) + {t} else s.Here(q) - {t}
    ensures t in s.Here(q) <==> s.pc[t] == q
  {
  }

  /** The count, as it would be without the calls that are still inside. */
  ghost function Balance(s: State): int {
    s.count + TakenInside(s) - AddedInside(s)
  }

  lemma GoBalance(s: State, t: Tid, p: Pc)
    requires t in s.pc
    ensures TakenInside(s.Go(t, p)) ==
            TakenInside(s) - (if s.pc[t] == PDone then 1 else 0) + (if p == PDone then 1 else 0)
    ensures AddedInside(s.Go(t, p)) ==
            AddedInside(s) - (if s.pc[t] in {VWake, VDone} then 1 else 0) + (if p in {VWake, VDone} then 1 else 0)
  {
    HereAfter(s, t, p, PDone);
    HereAfter(s, t, p, VWake);
    HereAfter(s, t, p, VDone);
  }

  /** Only the last step of a call changes it: a P has taken its unit for good, or a V added one. */
  lemma StepBalance(s: State, step: Step)
    requires Inv(s) && Enabled(s, step)
    ensures Balance(Apply(s, step)) == Balance(s) - (if step.EndP? then 1 else 0) + (if step.EndV? then 1 else 0)
  {
    if step.WakeOne? && s.channel != [] {
      assert s.channel[0] in s.channel && s.At(s.channel[0], Asleep);
      GoBalance(s, s.channel[0], Woken);
      GoBalance(s.Go(s.channel[0], Woken), step.t, VDone);
    } else {
      GoBalance(s, step.t, Apply(s, step).pc[step.t]);
    }
  }

  /** The steps that return are the last of each call. */
  lemma ReturnStep(r: Run, n: nat, c: Call)
    requires Behaviour(r) && n < |r.steps|
    ensures Returned(r, c, n + 1) ==
            Returned(r, c, n) + if (if c == P then r.steps[n].EndP? else r.steps[n].EndV?) then 1 else 0
  {
    assert StepAt(r, n);
    BehaviourInv(r, n);
    InItsCall(r, n, r.steps[n].t);
  }

  /**
   * In every interleaving the count, the Ps that have returned and the units taken by
   * those that have not are the initial count, the Vs that have returned and the units
   * added by those that have not.
   */
  lemma {:induction false} Conserved(r: Run, n: nat)
    requires Behaviour(r) && n <= |r.steps|
    ensures var s := r.states[n];
            s.count + Returned(r, P, n) + TakenInside(s) ==
            r.states[0].count + Returned(r, V, n) + AddedInside(s)
  {
    if n == 0 {
      NobodyInside(r.states[0]);
    } else {
      Conserved(r, n - 1);
      ConservedStep(r, n - 1);
    }
  }

  lemma NobodyInside(s: State)
    requires Init(s)
    ensures TakenInside(s) == AddedInside(s) == 0
  {
    assert s.Here(PDone) == {} && s.Here(VWake) == {} && s.Here(VDone) == {};
  }

  lemma ConservedStep(r: Run, n: nat)
    requires Behaviour(r) && n < |r.steps|
    ensures Balance(r.states[n + 1]) + Returned(r, P, n + 1) - Returned(r, V, n + 1) ==
            Balance(r.states[n]) + Returned(r, P, n) - Returned(r, V, n)
  {
    assert StepAt(r, n);
    BehaviourInv(r, n);
    StepBalance(r.states[n], r.steps[n]);
    ReturnStep(r, n, P);
    ReturnStep(r, n, V);
  }

  // ------------------------------------------------------------------------
  // Order
  // ------------------------------------------------------------------------

  /** The channel through a run. */
  ghost function Channels(r: Run): seq<seq<Tid>> {
    seq(|r.states|, i requires 0 <= i < |r.states| => r.states[i].channel)
  }

  lemma StepMoves(s: State, step: Step)
    requires Inv(s) && Enabled(s, step)
    ensures Queues.Moves(s.channel, Apply(s, step).channel)
    ensures |Apply(s, step).channel| >= |s.channel| - 1
  {
  }

  lemma ChannelHistory(r: Run)
    requires Behaviour(r)
    ensures Queues.History(Channels(r))
  {
    var h := Channels(r);
    forall i | 0 <= i < |h| ensures Distinct(h[i]) {
      BehaviourInv(r, i);
    }
    forall i | 0 <= i < |h| - 1 ensures Queues.Shifts(h[i], h[i + 1]) {
      assert StepAt(r, i);
      BehaviourInv(r, i);
      StepMoves(r.states[i], r.steps[i]);
    }
  }

  /** Step i puts t to sleep, and it is asleep up to state k. */
  ghost predicate AsleepSince(r: Run, t: Tid, i: nat, k: nat)
    requires i < k <= |r.steps| && |r.states| == |r.steps| + 1
  {
    !r.states[i].At(t, Asleep) && forall m :: i < m <= k ==> r.states[m].At(t, Asleep)
  }

  lemma OnChannelSince(r: Run, t: Tid, i: nat, k: nat)
    requires Behaviour(r) && i < k <= |r.steps| && AsleepSince(r, t, i, k)
    ensures Queues.Since(Channels(r), t, i, k)
  {
    forall m | i <= m <= k ensures t in r.states[m].channel <==> r.states[m].At(t, Asleep) {
      BehaviourInv(r, m);
    }
  }

  /** Nobody is woken before a thread that fell asleep earlier. */
  lemma FirstAsleepFirstWoken(r: Run, t: Tid, u: Tid, i: nat, j: nat, k: nat)
    requires Behaviour(r) && i < j < k < |r.steps| && AsleepSince(r, t, i, k) && AsleepSince(r, u, j, k)
    ensures r.states[k + 1].At(u, Asleep)
  {
    ChannelHistory(r);
    OnChannelSince(r, t, i, k);
    OnChannelSince(r, u, j, k);
    Queues.InOrder(Channels(r), t, u, i, j, k);
    assert StepAt(r, k);
    BehaviourInv(r, k);
    BehaviourInv(r, k + 1);
    StepMoves(r.states[k], r.steps[k]);
    Queues.MovesKeep(r.states[k].channel, r.states[k + 1].channel, t, u);
  }
}
