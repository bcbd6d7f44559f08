/**
 * The deadlock detector of hangman.c over its own records: `struct
 * hangman_actor` and `struct hangman_lockable`, linked by a_waiting and
 * l_holding.  Each public operation runs under hangman_lock, so it is one step.
 */
module Hangman {
  import opened Chains
  import opened WaitsFor

  class Actor {
    var waiting: Lockable?
    constructor ()
      ensures waiting == null
    {
      waiting := null;
    }
  }

  class Lockable {
    var holding: Actor?
    constructor ()
      ensures holding == null
    {
      holding := null;
    }
  }

  class Detector {
    /** The lockable of hangman_lock itself, which is never recorded. */
    const self: Lockable
    ghost var actors: set<Actor>
    ghost var lockables: set<Lockable>
    /** The calls so far that did not panic. */
    ghost var calls: seq<Op<Actor, Lockable>>

    ghost predicate Closed()
      reads this`actors, this`lockables, actors, lockables
    {
      && (forall a :: a in actors && a.waiting != null ==> a.waiting in lockables)
      && (forall l :: l in lockables && l.holding != null ==> l.holding in actors)
      && self !in lockables
    }

    ghost function TheGraph(): Graph<Actor, Lockable>
      reads this`actors, this`lockables, actors, lockables
    {
      Graph(map a | a in actors && a.waiting != null :: a.waiting,
            map l | l in lockables && l.holding != null :: l.holding)
    }

    /** The records are those the calls lead to. */
    ghost predicate Valid()
      reads this, actors, lockables
    {
      Closed() && Run(Graph(map[], map[]), calls) == Ok(TheGraph())
    }

    /**
     * Every actor's a_waiting is what it last waited for and has not acquired since,
     * every lockable's l_holding who acquired it last and has not released it since,
     * and no ring of actors waits for one another.
     */
    lemma RecordsAreCalls()
      requires Valid()
      ensures forall a :: a in actors ==> WaitOf(calls, a) == if a.waiting == null then None else Some(a.waiting)
      ensures forall l :: l in lockables ==> HolderOf(calls, l) == if l.holding == null then None else Some(l.holding)
      ensures Acyclic(TheGraph()) && !Deadlocked(calls)
    {
      RunGraph(calls);
      RunAcyclic(Graph(map[], map[]), calls);
      forall a | a in actors ensures WaitOf(calls, a) == if a.waiting == null then None else Some(a.waiting) {
        WaitSays(calls, a);
      }
      forall l | l in lockables ensures HolderOf(calls, l) == if l.holding == null then None else Some(l.holding) {
        HolderSays(calls, l);
      }
    }

    /** Objects already at rest (neither waiting nor held) may be brought under the detector. */
    constructor (ghost actors: set<Actor>, ghost lockables: set<Lockable>, self: Lockable)
      requires self !in lockables
      requires forall a :: a in actors ==> a.waiting == null
      requires forall l :: l in lockables ==> l.holding == null
      ensures this.actors == actors && this.lockables == lockables && this.self == self
      ensures Valid() && calls == []
    {
      this.actors, this.lockables, this.self, this.calls := actors, lockables, self, [];
    }

    /**
     * hangman_check: walk from the holder of start along the chain of waits.
     * The walk ends because the graph is acyclic, and it meets target exactly
     * when target is on the chain.
     */
    method Check(start: Lockable, target: Actor) returns (found: bool)
      requires Valid() && start in lockables && target in actors
      ensures found <==> start.holding != null && Reaches(TheGraph(), start.holding, target)
    {
      RecordsAreCalls();
      ghost var g, h := TheGraph(), start.holding;
      var cur := start.holding;
      ghost var i: nat, visited: set<Actor> := 0, {};
      while cur != null
        invariant cur != null ==> h != null && cur in actors && Walked(g, h, cur, i, visited, target)
        invariant cur == null && h != null ==> !Reaches(g, h, target)
        decreases g.waiting.Keys - visited, cur != null
      {
        if cur == target {
          return true;
        }
        if cur.waiting == null {
          WalkEnds(g, h, cur, i, visited, target);
          break;
        }
        assert cur in g.waiting && g.waiting[cur] == cur.waiting;
        if cur.waiting.holding == null {
          WalkEnds(g, h, cur, i, visited, target);
        } else {
          WalkOn(g, h, cur, i, visited, target);
          visited, i := visited + {cur}, i + 1;
        }
        cur := cur.waiting.holding;
      }
      return false;
    }

    /**
     * The printout after a hit: the actors from the holder of start to target.
     * It is a chain of the graph, so together with target's wait for start it is
     * the cycle that was found.
     */
    method Report(start: Lockable, target: Actor) returns (chain: seq<Actor>)
      requires Closed() && start in lockables && start.holding != null
      requires Reaches(TheGraph(), start.holding, target)
      ensures |chain| > 0 && chain[0] == start.holding && chain[|chain| - 1] == target
      ensures forall i :: 0 <= i < |chain| - 1 ==> Next(TheGraph(), chain[i]) == Some(chain[i + 1])
    {
      ghost var g := TheGraph();
      ghost var k: nat :| Follow(g, start.holding, k) == Some(target);
      var cur: Actor := start.holding;
      chain := [cur];
      while cur != target
        invariant cur in actors && Follow(g, cur, k) == Some(target)
        invariant |chain| > 0 && chain[0] == start.holding && chain[|chain| - 1] == cur
        invariant forall i :: 0 <= i < |chain| - 1 ==> Next(g, chain[i]) == Some(chain[i + 1])
        decreases k
      {
        cur := cur.waiting.holding;
        chain := chain + [cur];
        k := k - 1;
      }
    }

    method SetWaiting(a: Actor, l: Lockable)
      requires Closed() && a in actors && l in lockables
      modifies a
      ensures Closed() && TheGraph() == AddWait(old(TheGraph()), a, l)
    {
      a.waiting := l;
    }

    method SetHolding(a: Actor, l: Lockable)
      requires Closed() && a in actors && l in lockables
      modifies a, l
      ensures Closed() && TheGraph() == Grant(old(TheGraph()), a, l)
    {
      l.holding := a;
      a.waiting := null;
    }

    method ClearHolding(l: Lockable)
      requires Closed() && l in lockables
      modifies l
      ensures Closed() && TheGraph() == Drop(old(TheGraph()), l)
    {
      l.holding := null;
    }

    /** The two ways in which hangman_wait can panic. */
    method Refuse(a: Actor, l: Lockable) returns (panic: Option<Panic>)
      requires Valid() && a in actors && l in lockables
      ensures panic == Refusal(calls, Op.Wait(a, l))
      ensures panic == None ==> Run(Graph(map[], map[]), calls + [Op.Wait(a, l)]) == Ok(AddWait(TheGraph(), a, l))
    {
      RunDetectsExactly(calls, Op.Wait(a, l));
      RunSnoc(Graph(map[], map[]), calls, Op.Wait(a, l));
      if a.waiting != null {
        return Some(AlreadyWaiting);
      }
      var found := Check(l, a);
      return if found then Some(Deadlock) else None;
    }

    /** The wait goes on record. */
    method Record(a: Actor, l: Lockable)
      requires Valid() && a in actors && l in lockables
      requires Run(Graph(map[], map[]), calls + [Op.Wait(a, l)]) == Ok(AddWait(TheGraph(), a, l))
      modifies a, this`calls
      ensures Valid() && calls == old(calls) + [Op.Wait(a, l)]
    {
      SetWaiting(a, l);
      calls := calls + [Op.Wait(a, l)];
    }

    /** hangman_wait: records the wait, unless it panics, which it does exactly when the calls so far say so. */
    method Wait(a: Actor, l: Lockable) returns (panic: Option<Panic>)
      requires Valid() && a in actors && (l == self || l in lockables)
      modifies a, this`calls
      ensures Valid() && actors == old(actors) && lockables == old(lockables)
      ensures panic == if l == self then None else Refusal(old(calls), Op.Wait(a, l))
      ensures calls == if l == self || panic != None then old(calls) else old(calls) + [Op.Wait(a, l)]
      ensures l == self || panic != None ==> TheGraph() == old(TheGraph())
    {
      if l == self {
        return None;
      }
      panic := Refuse(a, l);
      if panic == None {
        Record(a, l);
      }
    }

    /** hangman_acquire: the same. */
    method Acquire(a: Actor, l: Lockable) returns (panic: Option<Panic>)
      requires Valid() && a in actors && (l == self || l in lockables)
      modifies a, l, this`calls
      ensures Valid() && actors == old(actors) && lockables == old(lockables)
      ensures panic == if l == self then None else Refusal(old(calls), Op.Acquire(a, l))
      ensures calls == if l == self || panic != None then old(calls) else old(calls) + [Op.Acquire(a, l)]
      ensures l == self || panic != None ==> TheGraph() == old(TheGraph())
    {
      if l == self {
        return None;
      }
      RunDetectsExactly(calls, Op.Acquire(a, l));
      RunSnoc(Graph(map[], map[]), calls, Op.Acquire(a, l));
      if a.waiting != l {
        return Some(NotWaiting);
      }
      if l.holding != null {
        return Some(StillHeld);
      }
      SetHolding(a, l);
      calls := calls + [Op.Acquire(a, l)];
      return None;
    }

    /** hangman_release: the same. */
    method Release(a: Actor, l: Lockable) returns (panic: Option<Panic>)
      requires Valid() && a in actors && (l == self || l in lockables)
      modifies l, this`calls
      ensures Valid() && actors == old(actors) && lockables == old(lockables)
      ensures panic == if l == self then None else Refusal(old(calls), Op.Release(a, l))
      ensures calls == if l == self || panic != None then old(calls) else old(calls) + [Op.Release(a, l)]
      ensures l == self || panic != None ==> TheGraph() == old(TheGraph())
    {
      if l == self {
        return None;
      }
      RunDetectsExactly(calls, Op.Release(a, l));
      RunSnoc(Graph(map[], map[]), calls, Op.Release(a, l));
      if a.waiting != null {
        return Some(AlreadyWaiting);
      }
      if l.holding != a {
        return Some(NotHolder);
      }
      ClearHolding(l);
      calls := calls + [Op.Release(a, l)];
      return None;
    }
  }
}
