/**
 * The waits-for graph behind the deadlock detector.  An actor waits for at most
 * one lockable and a lockable is held by at most one actor, so the graph over
 * actors is a partial function.
 */
module WaitsFor {
  import opened Chains

  datatype Graph<A(==), L(==)> = Graph(waiting: map<A, L>, holding: map<L, A>)

  /** Who holds what a waits for. */
  function Next<A, L>(g: Graph<A, L>, a: A): Option<A> {
    if a in g.waiting && g.waiting[a] in g.holding then Some(g.holding[g.waiting[a]]) else None
  }

  /** The actor k steps further along the chain of waits, if the chain is that long. */
  function Follow<A, L>(g: Graph<A, L>, a: A, k: nat): Option<A> {
    if k == 0 then Some(a)
    else
      match Next(g, a)
      case None => None
      case Some(b) => Follow(g, b, k - 1)
  }

  ghost predicate Reaches<A, L>(g: Graph<A, L>, a: A, b: A) {
    exists k: nat :: Follow(g, a, k) == Some(b)
  }

  /** No deadlock: no actor waits, over one or more steps, for itself. */
  ghost predicate Acyclic<A, L>(g: Graph<A, L>) {
    forall a, k: nat :: a in g.waiting && k >= 1 ==> Follow(g, a, k) != Some(a)
  }

  // ------------------------------------------------------------------------
  // The three transitions
  // ------------------------------------------------------------------------

  datatype Op<A, L> = Wait(a: A, l: L) | Acquire(a: A, l: L) | Release(a: A, l: L)

  datatype Panic = AlreadyWaiting | Deadlock | NotWaiting | StillHeld | NotHolder

  datatype Outcome<A(==), L(==)> = Ok(g: Graph<A, L>) | Panicked(why: Panic)

  function AddWait<A, L>(g: Graph<A, L>, a: A, l: L): Graph<A, L> {
    g.(waiting := g.waiting[a := l])
  }

  function Grant<A, L>(g: Graph<A, L>, a: A, l: L): Graph<A, L> {
    Graph(g.waiting - {a}, g.holding[l := a])
  }

  function Drop<A, L>(g: Graph<A, L>, l: L): Graph<A, L> {
    g.(holding := g.holding - {l})
  }

  ghost function Step<A, L>(g: Graph<A, L>, op: Op<A, L>): Outcome<A, L> {
    match op
    case Wait(a, l) =>
      if a in g.waiting then Panicked(AlreadyWaiting)
      else if l in g.holding && Reaches(g, g.holding[l], a) then Panicked(Deadlock)
      else Ok(AddWait(g, a, l))
    case Acquire(a, l) =>
      if !(a in g.waiting && g.waiting[a] == l) then Panicked(NotWaiting)
      else if l in g.holding then Panicked(StillHeld)
      else Ok(Grant(g, a, l))
    case Release(a, l) =>
      if a in g.waiting then Panicked(AlreadyWaiting)
      else if !(l in g.holding && g.holding[l] == a) then Panicked(NotHolder)
      else Ok(Drop(g, l))
  }

  /** A run of calls; it ends at the first panic. */
  ghost function Run<A, L>(g: Graph<A, L>, ops: seq<Op<A, L>>): Outcome<A, L>
    decreases |ops|
  {
    if ops == [] then Ok(g)
    else
      match Run(g, ops[..|ops| - 1])
      case Ok(g') => Step(g', ops[|ops| - 1])
      case panic => panic
  }

  lemma RunSnoc<A, L>(g: Graph<A, L>, ops: seq<Op<A, L>>, op: Op<A, L>)
    requires Run(g, ops).Ok?
    ensures Run(g, ops + [op]) == Step(Run(g, ops).g, op)
  {
    assert (ops + [op])[..|ops|] == ops;
  }

  // ------------------------------------------------------------------------
  // Following chains
  // ------------------------------------------------------------------------

  lemma {:induction false} FollowSplit<A, L>(g: Graph<A, L>, a: A, j: nat, k: nat)
    requires Follow(g, a, j).Some?
    ensures Follow(g, a, j + k) == Follow(g, Follow(g, a, j).value, k)
  {
    if j > 0 {
      FollowSplit(g, Next(g, a).value, j - 1, k);
    }
  }

  /** A graph with more edges follows the same chains, as far as they went. */
  lemma {:induction false} FollowExtends<A, L>(g: Graph<A, L>, g': Graph<A, L>, a: A, k: nat)
    requires forall x :: x in g.waiting && Next(g, x).Some? ==> Next(g', x) == Next(g, x)
    requires Follow(g, a, k).Some?
    ensures Follow(g', a, k) == Follow(g, a, k)
  {
    if k > 0 {
      FollowExtends(g, g', Next(g, a).value, k - 1);
    }
  }

  /** With one wait added, a chain is an old chain or runs into the new waiter on old edges. */
  lemma {:induction false} FirstVisit<A, L>(g: Graph<A, L>, a: A, l: L, x: A, k: nat) returns (j: nat)
    requires a !in g.waiting && Follow(AddWait(g, a, l), x, k).Some?
    ensures Follow(g, x, k) == Follow(AddWait(g, a, l), x, k) || (j < k && Follow(g, x, j) == Some(a))
  {
    if k == 0 || x == a {
      j := 0;
    } else {
      var i := FirstVisit(g, a, l, Next(g, x).value, k - 1);
      j := i + 1;
    }
  }

  lemma WaitKeepsChains<A, L>(g: Graph<A, L>, a: A, l: L, x: A, k: nat)
    requires a !in g.waiting && Follow(g, x, k).Some?
    ensures Follow(AddWait(g, a, l), x, k) == Follow(g, x, k)
  {
    FollowExtends(g, AddWait(g, a, l), x, k);
  }

  /** A cycle of the larger graph leads from the holder of l back to a on old edges. */
  lemma CycleUsesNewWait<A, L>(g: Graph<A, L>, a: A, l: L, x: A, k: nat)
    requires Acyclic(g) && a !in g.waiting && k >= 1 && Follow(AddWait(g, a, l), x, k) == Some(x)
    ensures l in g.holding && Reaches(g, g.holding[l], a)
  {
    var g' := AddWait(g, a, l);
    var j := FirstVisit(g, a, l, x, k);
    assert Follow(g, x, k).Some? ==> x in g.waiting;
    if Follow(g, x, k) != Some(x) {
      WaitKeepsChains(g, a, l, x, j);
      FollowSplit(g', x, j, k - j);
      assert Follow(g', a, k - j) == Some(x);
      var h := g.holding[l];
      assert Follow(g', h, k - j - 1) == Some(x);
      var i := FirstVisit(g, a, l, h, k - j - 1);
      if Follow(g, h, k - j - 1) == Some(x) {
        FollowSplit(g, h, k - j - 1, j);
        assert Follow(g, h, k - j - 1 + j) == Some(a);
      } else {
        assert Follow(g, h, i) == Some(a);
      }
    }
  }

  /** The detector's criterion is exact: the check finds a exactly when the new wait closes a cycle. */
  lemma WaitClosesCycleIffReached<A, L>(g: Graph<A, L>, a: A, l: L)
    requires Acyclic(g) && a !in g.waiting
    ensures !Acyclic(AddWait(g, a, l)) <==> l in g.holding && Reaches(g, g.holding[l], a)
  {
    var g' := AddWait(g, a, l);
    if l in g.holding && Reaches(g, g.holding[l], a) {
      var k: nat :| Follow(g, g.holding[l], k) == Some(a);
      WaitKeepsChains(g, a, l, g.holding[l], k);
      assert Follow(g', a, k + 1) == Some(a);
    }
    if !Acyclic(g') {
      var x, k: nat :| x in g'.waiting && k >= 1 && Follow(g', x, k) == Some(x);
      CycleUsesNewWait(g, a, l, x, k);
    }
  }

  /** Chains that do not end in the new holder do not pass it: it waits for nothing. */
  lemma {:induction false} GrantAvoidsHolder<A, L>(g: Graph<A, L>, a: A, l: L, x: A, k: nat)
    requires l !in g.holding
    requires Follow(Grant(g, a, l), x, k).Some? && Follow(Grant(g, a, l), x, k) != Some(a)
    ensures Follow(g, x, k) == Follow(Grant(g, a, l), x, k)
  {
    if k > 0 {
      var b := Next(Grant(g, a, l), x).value;
      assert Next(Grant(g, a, l), a) == None;
      GrantAvoidsHolder(g, a, l, b, k - 1);
    }
  }

  lemma GrantAcyclic<A, L>(g: Graph<A, L>, a: A, l: L)
    requires Acyclic(g) && l !in g.holding
    ensures Acyclic(Grant(g, a, l))
  {
    var g' := Grant(g, a, l);
    forall x, k: nat | x in g'.waiting && k >= 1
      ensures Follow(g', x, k) != Some(x)
    {
      if Follow(g', x, k) == Some(x) {
        GrantAvoidsHolder(g, a, l, x, k);
      }
    }
  }

  lemma DropAcyclic<A, L>(g: Graph<A, L>, l: L)
    requires Acyclic(g)
    ensures Acyclic(Drop(g, l))
  {
    var g' := Drop(g, l);
    forall x, k: nat | x in g'.waiting && k >= 1
      ensures Follow(g', x, k) != Some(x)
    {
      if Follow(g', x, k) == Some(x) {
        FollowExtends(g', g, x, k);
      }
    }
  }

  lemma StepAcyclic<A, L>(g: Graph<A, L>, op: Op<A, L>)
    requires Acyclic(g) && Step(g, op).Ok?
    ensures Acyclic(Step(g, op).g)
  {
    match op
    case Wait(a, l) => WaitClosesCycleIffReached(g, a, l);
    case Acquire(a, l) => GrantAcyclic(g, a, l);
    case Release(a, l) => DropAcyclic(g, l);
  }

  /** Over every run that does not panic the graph stays acyclic. */
  lemma {:induction false} RunAcyclic<A, L>(g: Graph<A, L>, ops: seq<Op<A, L>>)
    requires Acyclic(g) && Run(g, ops).Ok?
    ensures Acyclic(Run(g, ops).g)
    decreases |ops|
  {
    if ops != [] {
      var before := ops[..|ops| - 1];
      RunAcyclic(g, before);
      StepAcyclic(Run(g, before).g, ops[|ops| - 1]);
    }
  }

  // ------------------------------------------------------------------------
  // What the calls say
  // ------------------------------------------------------------------------

  /** Who holds l: who acquired it last, unless it was released since. */
  ghost function HolderOf<A, L>(ops: seq<Op<A, L>>, l: L): Option<A> {
    if ops == [] then None
    else
      match ops[|ops| - 1]
      case Acquire(a, m) => if m == l then Some(a) else HolderOf(ops[..|ops| - 1], l)
      case Release(_, m) => if m == l then None else HolderOf(ops[..|ops| - 1], l)
      case Wait(_, _) => HolderOf(ops[..|ops| - 1], l)
  }

  /** What a waits for: what it last called for, unless it acquired something since. */
  ghost function WaitOf<A, L>(ops: seq<Op<A, L>>, a: A): Option<L> {
    if ops == [] then None
    else
      match ops[|ops| - 1]
      case Wait(b, l) => if b == a then Some(l) else WaitOf(ops[..|ops| - 1], a)
      case Acquire(b, _) => if b == a then None else WaitOf(ops[..|ops| - 1], a)
      case Release(_, _) => WaitOf(ops[..|ops| - 1], a)
  }

  lemma LastCall<A, L>(ops: seq<Op<A, L>>, op: Op<A, L>, a: A, l: L)
    ensures HolderOf(ops + [op], l) == if op.Wait? || op.l != l then HolderOf(ops, l)
                                       else if op.Acquire? then Some(op.a) else None
    ensures WaitOf(ops + [op], a) == if op.Release? || op.a != a then WaitOf(ops, a)
                                     else if op.Wait? then Some(op.l) else None
  {
    assert (ops + [op])[..|ops|] == ops;
  }

  /** a waits for what b holds. */
  ghost predicate BlockedBy<A, L>(ops: seq<Op<A, L>>, a: A, b: A) {
    var l := WaitOf(ops, a);
    l.Some? && HolderOf(ops, l.value) == Some(b)
  }

  /** A ring of actors, each waiting for what the next one holds. */
  ghost predicate Ring<A, L>(ops: seq<Op<A, L>>, c: seq<A>) {
    && |c| > 0 && BlockedBy(ops, c[|c| - 1], c[0])
    && forall i :: 0 <= i < |c| - 1 ==> BlockedBy(ops, c[i], c[i + 1])
  }

  ghost function Callers<A, L>(ops: seq<Op<A, L>>): set<A> {
    set op | op in ops :: op.a
  }

  ghost function Called<A, L>(ops: seq<Op<A, L>>): set<L> {
    set op | op in ops :: op.l
  }

  /** The graph of those waits and holders. */
  ghost function GraphOf<A, L>(ops: seq<Op<A, L>>): Graph<A, L> {
    Graph(map a | a in Callers(ops) && WaitOf(ops, a).Some? :: WaitOf(ops, a).value,
          map l | l in Called(ops) && HolderOf(ops, l).Some? :: HolderOf(ops, l).value)
  }

  function Get<K, V>(m: map<K, V>, k: K): Option<V> {
    if k in m then Some(m[k]) else None
  }

  lemma {:induction false} WaitSays<A, L>(ops: seq<Op<A, L>>, a: A)
    ensures Get(GraphOf(ops).waiting, a) == WaitOf(ops, a)
  {
    if ops != [] {
      var n := |ops| - 1;
      WaitSays(ops[..n], a);
      assert forall op :: op in ops[..n] ==> op in ops;
      assert ops[n] in ops;
    }
  }

  lemma {:induction false} HolderSays<A, L>(ops: seq<Op<A, L>>, l: L)
    ensures Get(GraphOf(ops).holding, l) == HolderOf(ops, l)
  {
    if ops != [] {
      var n := |ops| - 1;
      HolderSays(ops[..n], l);
      assert forall op :: op in ops[..n] ==> op in ops;
      assert ops[n] in ops;
    }
  }

  /** After any run that does not panic, the graph is the one of the calls. */
  lemma {:induction false} RunGraph<A, L>(ops: seq<Op<A, L>>)
    requires Run(Graph(map[], map[]), ops).Ok?
    ensures Run(Graph(map[], map[]), ops).g == GraphOf(ops)
    decreases |ops|
  {
    if ops != [] {
      var n := |ops| - 1;
      RunGraph(ops[..n]);
      assert ops == ops[..n] + [ops[n]];
      GraphSnoc(ops[..n], ops[n]);
    }
  }

  lemma SameMap<K, V>(m: map<K, V>, m': map<K, V>, keys: set<K>)
    requires m.Keys <= keys && m'.Keys <= keys && forall k :: k in keys ==> Get(m, k) == Get(m', k)
    ensures m == m'
  {
    assert forall k :: k in m ==> Get(m, k) == Get(m', k);
    assert forall k :: k in m' ==> Get(m, k) == Get(m', k);
  }

  /** How one more call changes the graph. */
  lemma GraphSnoc<A, L>(ops: seq<Op<A, L>>, op: Op<A, L>)
    ensures GraphOf(ops + [op]) == match op
                                   case Wait(a, l) => AddWait(GraphOf(ops), a, l)
                                   case Acquire(a, l) => Grant(GraphOf(ops), a, l)
                                   case Release(_, l) => Drop(GraphOf(ops), l)
  {
    var more := ops + [op];
    var g, g' := GraphOf(more), match op
                                case Wait(a, l) => AddWait(GraphOf(ops), a, l)
                                case Acquire(a, l) => Grant(GraphOf(ops), a, l)
                                case Release(_, l) => Drop(GraphOf(ops), l);
    assert Callers(more) == Callers(ops) + {op.a} && Called(more) == Called(ops) + {op.l} by {
      assert forall o :: o in more <==> o in ops || o == op;
    }
    forall a | a in Callers(more) ensures Get(g.waiting, a) == Get(g'.waiting, a) {
      WaitSays(more, a);
      WaitSays(ops, a);
      LastCall(ops, op, a, op.l);
    }
    SameMap(g.waiting, g'.waiting, Callers(more));
    forall l | l in Called(more) ensures Get(g.holding, l) == Get(g'.holding, l) {
      HolderSays(more, l);
      HolderSays(ops, l);
      LastCall(ops, op, op.a, l);
    }
    SameMap(g.holding, g'.holding, Called(more));
  }

  /** Following what the calls say, some actor comes back to itself. */
  ghost predicate Deadlocked<A, L>(ops: seq<Op<A, L>>) {
    !Acyclic(GraphOf(ops))
  }

  lemma NextIsBlocker<A, L>(ops: seq<Op<A, L>>, a: A, b: A)
    ensures Next(GraphOf(ops), a) == Some(b) <==> BlockedBy(ops, a, b)
  {
    WaitSays(ops, a);
    if WaitOf(ops, a).Some? {
      HolderSays(ops, WaitOf(ops, a).value);
    }
  }

  lemma {:induction false} RingFollows<A, L>(ops: seq<Op<A, L>>, c: seq<A>, i: nat)
    requires Ring(ops, c) && i < |c|
    ensures Follow(GraphOf(ops), c[0], i) == Some(c[i])
  {
    if i > 0 {
      RingFollows(ops, c, i - 1);
      FollowSplit(GraphOf(ops), c[0], i - 1, 1);
      NextIsBlocker(ops, c[i - 1], c[i]);
      assert Follow(GraphOf(ops), c[i - 1], 1) == Some(c[i]);
    }
  }

  /** A ring is a deadlock, ... */
  lemma RingIsDeadlock<A, L>(ops: seq<Op<A, L>>, c: seq<A>)
    requires Ring(ops, c)
    ensures Deadlocked(ops)
  {
    var g, n := GraphOf(ops), |c| - 1;
    RingFollows(ops, c, n);
    FollowSplit(g, c[0], n, 1);
    NextIsBlocker(ops, c[n], c[0]);
    assert Follow(g, c[n], 1) == Some(c[0]);
    NextIsBlocker(ops, c[0], if n > 0 then c[1] else c[0]);
    assert c[0] in g.waiting;
  }

  /** The actors on the way from a, k steps along. */
  lemma {:induction false} Along<A, L>(ops: seq<Op<A, L>>, a: A, b: A, k: nat) returns (c: seq<A>)
    requires k >= 1 && Follow(GraphOf(ops), a, k) == Some(b)
    ensures |c| == k && c[0] == a && BlockedBy(ops, c[k - 1], b)
    ensures forall i :: 0 <= i < k - 1 ==> BlockedBy(ops, c[i], c[i + 1])
  {
    var next := Next(GraphOf(ops), a).value;
    NextIsBlocker(ops, a, next);
    if k == 1 {
      c := [a];
    } else {
      var rest := Along(ops, next, b, k - 1);
      c := [a] + rest;
    }
  }

  /** ... and in every deadlock there is one. */
  lemma DeadlockHasRing<A, L>(ops: seq<Op<A, L>>) returns (c: seq<A>)
    requires Deadlocked(ops)
    ensures Ring(ops, c)
  {
    var g := GraphOf(ops);
    var a, k: nat :| a in g.waiting && k >= 1 && Follow(g, a, k) == Some(a);
    c := Along(ops, a, a, k);
  }

  /** What the next call comes to, told by the calls before it. */
  ghost function Refusal<A, L>(ops: seq<Op<A, L>>, op: Op<A, L>): Option<Panic> {
    match op
    case Wait(a, l) =>
      if WaitOf(ops, a) != None then Some(AlreadyWaiting)
      else if Deadlocked(ops + [op]) then Some(Deadlock)
      else None
    case Acquire(a, l) =>
      if WaitOf(ops, a) != Some(l) then Some(NotWaiting)
      else if HolderOf(ops, l) != None then Some(StillHeld)
      else None
    case Release(a, l) =>
      if WaitOf(ops, a) != None then Some(AlreadyWaiting)
      else if HolderOf(ops, l) != Some(a) then Some(NotHolder)
      else None
  }

  /**
   * No false alarm and no missed deadlock over runs. After any run from the empty
   * graph, a further wait is refused as a deadlock exactly when the calls, with this
   * one, leave a ring of actors each waiting for what the next one holds; and each
   * other panic comes exactly when the calls say so.
   */
  lemma RunDetectsExactly<A, L>(ops: seq<Op<A, L>>, op: Op<A, L>)
    requires Run(Graph(map[], map[]), ops).Ok?
    ensures Run(Graph(map[], map[]), ops + [op]) ==
            match Refusal(ops, op) case None => Ok(GraphOf(ops + [op])) case Some(why) => Panicked(why)
  {
    var empty: Graph<A, L> := Graph(map[], map[]);
    var g := GraphOf(ops);
    RunSnoc(empty, ops, op);
    RunGraph(ops);
    RunAcyclic(empty, ops);
    WaitSays(ops, op.a);
    HolderSays(ops, op.l);
    GraphSnoc(ops, op);
    if op.Wait? && op.a !in g.waiting {
      WaitClosesCycleIffReached(g, op.a, op.l);
    }
  }

  /** A run that does not panic leaves no ring. */
  lemma RunNotDeadlocked<A, L>(ops: seq<Op<A, L>>, c: seq<A>)
    requires Run(Graph(map[], map[]), ops).Ok?
    ensures !Ring(ops, c)
  {
    RunGraph(ops);
    RunAcyclic(Graph(map[], map[]), ops);
    if Ring(ops, c) {
      RingIsDeadlock(ops, c);
    }
  }

  // ------------------------------------------------------------------------
  // Walking a chain
  // ------------------------------------------------------------------------

  /** After i steps from h the walk stands at cur, has not met target, and has visited only actors that lead to cur. */
  ghost predicate Walked<A, L>(g: Graph<A, L>, h: A, cur: A, i: nat, visited: set<A>, target: A) {
    && Follow(g, h, i) == Some(cur)
    && (forall j: nat :: j < i ==> Follow(g, h, j) != Some(target))
    && visited <= g.waiting.Keys
    && (forall v :: v in visited ==> exists j: nat :: j >= 1 && Follow(g, v, j) == Some(cur))
  }

  lemma WalkOn<A, L>(g: Graph<A, L>, h: A, cur: A, i: nat, visited: set<A>, target: A)
    requires Acyclic(g) && Walked(g, h, cur, i, visited, target) && cur != target && Next(g, cur).Some?
    ensures cur !in visited
    ensures Walked(g, h, Next(g, cur).value, i + 1, visited + {cur}, target)
  {
    var b := Next(g, cur).value;
    FollowSplit(g, h, i, 1);
    assert Follow(g, cur, 1) == Some(b);
    forall v | v in visited + {cur}
      ensures exists j: nat :: j >= 1 && Follow(g, v, j) == Some(b)
    {
      if v in visited {
        var j: nat :| j >= 1 && Follow(g, v, j) == Some(cur);
        FollowSplit(g, v, j, 1);
        assert Follow(g, v, j + 1) == Some(b);
      } else {
        assert Follow(g, v, 1) == Some(b);
      }
    }
  }

  lemma WalkEnds<A, L>(g: Graph<A, L>, h: A, cur: A, i: nat, visited: set<A>, target: A)
    requires Walked(g, h, cur, i, visited, target) && cur != target && Next(g, cur).None?
    ensures !Reaches(g, h, target)
  {
    forall k: nat
      ensures Follow(g, h, k) != Some(target)
    {
      if k > i {
        FollowSplit(g, h, i, k - i);
        assert Follow(g, cur, k - i) == None;
      }
    }
  }
}
