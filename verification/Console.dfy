/**
 * Console input (console.c): the ring that con_input fills from an interrupt and
 * getch_intr empties, one memory access at a time, with a semaphore between them.
 */
module Console {

  const SIZE: nat := 32

  /** con_input: outside, about to store, about to move the head, about to do V. */
  datatype Producer = PIdle | PStore(ch: char, next: nat) | PMove(next: nat) | PPost

  /** getch_intr: outside, past P and about to read, about to move the tail. */
  datatype Consumer = CIdle | CRead | CMove(ret: char)

  /** cs_gotchars with its indices and semaphore. */
  datatype State = State(ring: seq<char>, head: nat, tail: nat, sem: nat, producer: Producer, consumer: Consumer)

  datatype Step = Input(ch: char) | Store | MoveHead | Post | Wait | Read | MoveTail

  predicate Enabled(s: State, step: Step) {
    match step
    case Input(_) => s.producer.PIdle?
    case Store => s.producer.PStore?
    case MoveHead => s.producer.PMove?
    case Post => s.producer.PPost?
    case Wait => s.consumer.CIdle? && s.sem > 0
    case Read => s.consumer.CRead?
    case MoveTail => s.consumer.CMove?
  }

  function Apply(s: State, step: Step): State
    requires Enabled(s, step) && |s.ring| == SIZE && s.head < SIZE && s.tail < SIZE
  {
    match step
    case Input(ch) =>
      var next := (s.head + 1) % SIZE;
      if next == s.tail then s else s.(producer := PStore(ch, next))
    case Store =>
      s.(ring := s.ring[s.head := s.producer.ch], producer := PMove(s.producer.next))
    case MoveHead => s.(head := s.producer.next, producer := PPost)
    case Post => s.(sem := s.sem + 1, producer := PIdle)
    case Wait => s.(sem := s.sem - 1, consumer := CRead)
    case Read => s.(consumer := CMove(s.ring[s.tail]))
    case MoveTail => s.(tail := (s.tail + 1) % SIZE, consumer := CIdle)
  }

  ghost predicate Init(s: State) {
    |s.ring| == SIZE && s.head == s.tail == s.sem == 0 && s.producer == PIdle && s.consumer == CIdle
  }

  // ------------------------------------------------------------------------
  // Runs
  // ------------------------------------------------------------------------

  /** Some interleaving: its states, with the step between each and the next. */
  datatype Run = Run(states: seq<State>, steps: seq<Step>)

  ghost predicate StepAt(r: Run, i: nat)
    requires i < |r.steps| && |r.states| == |r.steps| + 1
  {
    var s := r.states[i];
    && Enabled(s, r.steps[i]) && |s.ring| == SIZE && s.head < SIZE && s.tail < SIZE
    && r.states[i + 1] == Apply(s, r.steps[i])
  }

  ghost predicate Behaviour(r: Run) {
    |r.states| == |r.steps| + 1 && Init(r.states[0]) && forall i :: 0 <= i < |r.steps| ==> StepAt(r, i)
  }

  /** What getch has returned by state n. */
  ghost function Out(r: Run, n: nat): seq<char>
    requires n <= |r.steps| && |r.states| == |r.steps| + 1
  {
    if n == 0 then []
    else Out(r, n - 1) + Returned(r.states[n - 1], r.steps[n - 1])
  }

  function Returned(s: State, step: Step): seq<char> {
    if step.MoveTail? && s.consumer.CMove? then [s.consumer.ret] else []
  }

  /** What was typed by state n, without what was typed while 31 characters had not been returned yet. */
  ghost function In(r: Run, n: nat): seq<char>
    requires n <= |r.steps| && |r.states| == |r.steps| + 1
  {
    if n == 0 then []
    else In(r, n - 1) + Accepted(r.steps[n - 1], |In(r, n - 1)| - |Out(r, n - 1)|)
  }

  function Accepted(step: Step, waiting: int): seq<char> {
    if step.Input? && waiting < SIZE - 1 then [step.ch] else []
  }

  // ------------------------------------------------------------------------
  // The invariant, with what went in and what came out
  // ------------------------------------------------------------------------

  /** How many characters are in the ring for good: the last one waits for the head to move. */
  function Published(s: State, typed: seq<char>): int {
    |typed| - if s.producer.PStore? || s.producer.PMove? then 1 else 0
  }

  function Stored(s: State, typed: seq<char>): int {
    |typed| - if s.producer.PStore? then 1 else 0
  }

  /** A character the semaphore does not yet, or no longer, stands for. */
  function InFlight(s: State): nat {
    (if s.producer.PPost? then 1 else 0) + (if s.consumer.CIdle? then 0 else 1)
  }

  ghost predicate Inv(s: State, typed: seq<char>, got: seq<char>) {
    && |s.ring| == SIZE && s.head < SIZE && s.tail < SIZE
    && |got| <= Published(s, typed) && |typed| - |got| <= SIZE - 1
    && s.head == Published(s, typed) % SIZE && s.tail == |got| % SIZE
    && s.sem + InFlight(s) == Published(s, typed) - |got|
    && got <= typed
    && (forall i :: |got| <= i < Stored(s, typed) ==> s.ring[i % SIZE] == typed[i])
    && (s.producer.PStore? ==> s.producer.ch == typed[|typed| - 1])
    && (s.producer.PStore? || s.producer.PMove? ==> s.producer.next == (s.head + 1) % SIZE)
    && (s.consumer.CMove? ==> s.consumer.ret == typed[|got|])
  }

  /** What it comes to for the callers. */
  predicate Ordered(s: State, typed: seq<char>, got: seq<char>) {
    got <= typed && |typed| - |got| <= SIZE - 1 && (s.head - s.tail) % SIZE == s.sem + InFlight(s)
  }

  /** Fewer than SIZE apart, two characters have places of their own. */
  lemma Apart(i: nat, j: nat)
    requires i < j < i + SIZE
    ensures i % SIZE != j % SIZE
  {
  }

  lemma NextIndex(n: nat)
    ensures (n % SIZE + 1) % SIZE == (n + 1) % SIZE
  {
  }

  /** A character is dropped exactly when 31 are waiting. */
  lemma DroppedWhenFull(s: State, ch: char, typed: seq<char>, got: seq<char>)
    requires Inv(s, typed, got) && Enabled(s, Input(ch))
    ensures Apply(s, Input(ch)) == s <==> |typed| - |got| == SIZE - 1
  {
    NextIndex(|typed|);
    if |typed| - |got| < SIZE - 1 {
      Apart(|got|, |typed| + 1);
    }
  }

  lemma InputInv(s: State, ch: char, typed: seq<char>, got: seq<char>)
    requires Inv(s, typed, got) && Enabled(s, Input(ch))
    ensures Inv(Apply(s, Input(ch)), typed + Accepted(Input(ch), |typed| - |got|), got)
  {
    DroppedWhenFull(s, ch, typed, got);
  }

  lemma StoreInv(s: State, typed: seq<char>, got: seq<char>)
    requires Inv(s, typed, got) && Enabled(s, Store)
    ensures Inv(Apply(s, Store), typed, got)
  {
    var s' := Apply(s, Store);
    forall i | |got| <= i < |typed| ensures s'.ring[i % SIZE] == typed[i] {
      if i < |typed| - 1 {
        assert s.ring[i % SIZE] == typed[i];
        Apart(i, |typed| - 1);
      }
    }
  }

  lemma MoveHeadInv(s: State, typed: seq<char>, got: seq<char>)
    requires Inv(s, typed, got) && Enabled(s, MoveHead)
    ensures Inv(Apply(s, MoveHead), typed, got)
  {
    NextIndex(Published(s, typed));
  }

  lemma OtherInv(s: State, step: Step, typed: seq<char>, got: seq<char>)
    requires Inv(s, typed, got) && Enabled(s, step) && (step.Post? || step.Wait? || step.Read? || step.MoveTail?)
    ensures Inv(Apply(s, step), typed, got + Returned(s, step))
  {
    NextIndex(|got|);
    if step.Read? {
      assert s.ring[|got| % SIZE] == typed[|got|];
    }
  }

  lemma StepInv(s: State, step: Step, typed: seq<char>, got: seq<char>)
    requires Inv(s, typed, got) && Enabled(s, step)
    ensures Inv(Apply(s, step), typed + Accepted(step, |typed| - |got|), got + Returned(s, step))
  {
    assert typed + [] == typed && got + [] == got;
    match step
    case Store => StoreInv(s, typed, got);
    case Input(ch) => InputInv(s, ch, typed, got);
    case MoveHead => MoveHeadInv(s, typed, got);
    case _ => OtherInv(s, step, typed, got);
  }

  lemma {:induction false} RunInv(r: Run, n: nat)
    requires Behaviour(r) && n <= |r.steps|
    ensures Inv(r.states[n], In(r, n), Out(r, n))
  {
    if n > 0 {
      RunInv(r, n - 1);
      assert StepAt(r, n - 1);
      StepInv(r.states[n - 1], r.steps[n - 1], In(r, n - 1), Out(r, n - 1));
    }
  }

  lemma Distance(m: nat, n: nat)
    requires m <= n < m + SIZE
    ensures (n % SIZE - m % SIZE) % SIZE == n - m
  {
  }

  lemma IndexDistance(s: State, typed: seq<char>, got: seq<char>)
    requires Inv(s, typed, got)
    ensures Ordered(s, typed, got)
  {
    Distance(|got|, Published(s, typed));
  }

  // ------------------------------------------------------------------------
  // What it means
  // ------------------------------------------------------------------------

  /**
   * In every interleaving getch returns what was typed, in order and without gaps but
   * for what was typed into a full ring; at most 31 characters wait; and the distance
   * between the indices is the semaphore's count and what is in flight.
   */
  lemma ReturnsWhatWasTyped(r: Run, n: nat)
    requires Behaviour(r) && n <= |r.steps|
    ensures Ordered(r.states[n], In(r, n), Out(r, n))
  {
    RunInv(r, n);
    IndexDistance(r.states[n], In(r, n), Out(r, n));
  }

  /**
   * With neither side inside its function, every character typed and not returned has
   * its unit in the semaphore, so a getch goes through exactly if there is one.
   */
  lemma SemaphoreCounts(r: Run, n: nat)
    requires Behaviour(r) && n <= |r.steps| && r.states[n].producer.PIdle? && r.states[n].consumer.CIdle?
    ensures r.states[n].sem == |In(r, n)| - |Out(r, n)|
    ensures Enabled(r.states[n], Wait) <==> Out(r, n) < In(r, n)
  {
    RunInv(r, n);
  }
  /** How many steps each side has to go once it is inside its function. */
  function ProducerLeft(s: State): nat {
    match s.producer case PIdle => 0 case PPost => 1 case PMove(_) => 2 case PStore(_, _) => 3
  }

  function ConsumerLeft(s: State): nat {
    match s.consumer case CIdle => 0 case CMove(_) => 1 case CRead => 2
  }

  /** con_input is done after three steps of its own, getch after two more once it is past the semaphore. */
  lemma MovesOn(r: Run, k: nat)
    requires Behaviour(r) && k < |r.steps|
    ensures var s, step, s' := r.states[k], r.steps[k], r.states[k + 1];
            && ProducerLeft(s') == (if step.Input? then if |In(r, k)| - |Out(r, k)| < SIZE - 1 then 3 else 0
                                    else if step.Store? || step.MoveHead? || step.Post? then ProducerLeft(s) - 1
                                    else ProducerLeft(s))
            && ConsumerLeft(s') == (if step.Wait? then 2
                                    else if step.Read? || step.MoveTail? then ConsumerLeft(s) - 1
                                    else ConsumerLeft(s))
  {
    assert StepAt(r, k);
    RunInv(r, k);
    if r.steps[k].Input? {
      DroppedWhenFull(r.states[k], r.steps[k].ch, In(r, k), Out(r, k));
    }
  }
}
