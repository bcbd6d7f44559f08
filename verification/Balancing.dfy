/**
 * thread_consider_migration run by itself: how a CPU whose queue is overfull deals
 * its surplus out to the others.  (Threads treats the same code step by step, with
 * other CPUs interfering.)
 */
module Balancing {
  type Thread = nat

  /** The total length of the queues from index i on. */
  function Total(queues: seq<seq<Thread>>, i: nat): nat
    requires i <= |queues|
    decreases |queues| - i
  {
    if i == |queues| then 0 else |queues[i]| + Total(queues, i + 1)
  }

  function Max(a: int, b: int): int {
    if a < b then b else a
  }

  /** How many threads the queues from index i on, other than mine, can take before reaching the share. */
  function Room(queues: seq<seq<Thread>>, me: nat, share: nat, i: nat): nat
    requires i <= |queues|
    decreases |queues| - i
  {
    if i == |queues| then 0
    else (if i == me then 0 else Max(0, share - |queues[i]|)) + Room(queues, me, share, i + 1)
  }

  /** How often t is queued. */
  ghost function Tally(queues: seq<seq<Thread>>, t: Thread): nat {
    if queues == [] then 0 else multiset(queues[0])[t] + Tally(queues[1..], t)
  }

  lemma {:induction false} TallyUpdate(queues: seq<seq<Thread>>, i: nat, q: seq<Thread>, t: Thread)
    requires i < |queues|
    ensures Tally(queues[i := q], t) + multiset(queues[i])[t] == Tally(queues, t) + multiset(q)[t]
  {
    if i == 0 {
      assert queues[i := q][1..] == queues[1..];
    } else {
      TallyUpdate(queues[1..], i - 1, q, t);
      assert queues[i := q][1..] == queues[1..][i - 1 := q];
    }
  }

  /** Moving x to the end of queue i adds one to its tally and leaves the others. */
  lemma TallyAppend(queues: seq<seq<Thread>>, i: nat, x: Thread)
    requires i < |queues|
    ensures forall t :: Tally(queues[i := queues[i] + [x]], t) == Tally(queues, t) + multiset{x}[t]
  {
    forall t ensures Tally(queues[i := queues[i] + [x]], t) == Tally(queues, t) + multiset{x}[t] {
      TallyUpdate(queues, i, queues[i] + [x], t);
    }
  }

  // ------------------------------------------------------------------------
  // The share
  // ------------------------------------------------------------------------

  /** DIVROUNDUP(total, n): the least share that covers the total. */
  function Share(total: nat, n: nat): nat
    requires n > 0
  {
    (total + n - 1) / n
  }

  lemma ShareCovers(total: nat, n: nat)
    requires n > 0
    ensures n * Share(total, n) >= total
    ensures Share(total, n) > 0 ==> n * (Share(total, n) - 1) < total
  {
    var x := total + n - 1;
    assert x == n * (x / n) + x % n;
    assert n * (x / n - 1) == n * (x / n) - n;
  }

  lemma {:induction false} RoomBound(queues: seq<seq<Thread>>, me: nat, share: nat, i: nat)
    requires i <= |queues|
    ensures Room(queues, me, share, i) + Total(queues, i)
              + (if i <= me < |queues| then Max(0, share - |queues[me]|) else 0)
            >= (|queues| - i) * share
    decreases |queues| - i
  {
    if i < |queues| {
      RoomBound(queues, me, share, i + 1);
      assert (|queues| - i) * share == (|queues| - (i + 1)) * share + share;
    }
  }

  lemma {:induction false} RoomUpdate(queues: seq<seq<Thread>>, me: nat, share: nat, i: nat, k: nat, q: seq<Thread>)
    requires k < i <= |queues|
    ensures Room(queues[k := q], me, share, i) == Room(queues, me, share, i)
    decreases |queues| - i
  {
    if i < |queues| {
      RoomUpdate(queues, me, share, i + 1, k, q);
    }
  }

  lemma {:induction false} TotalUpdate(queues: seq<seq<Thread>>, i: nat, k: nat, q: seq<Thread>)
    requires i <= |queues| && k < |queues|
    ensures Total(queues[k := q], i) == Total(queues, i) + if i <= k then |q| - |queues[k]| else 0
    decreases |queues| - i
  {
    if i < |queues| {
      TotalUpdate(queues, i + 1, k, q);
    }
  }

  /** Once the surplus is off my queue, the other queues have room for all of it. */
  lemma RoomForSurplus(queues: seq<seq<Thread>>, me: nat, share: nat)
    requires me < |queues| && share == Share(Total(queues, 0), |queues|) && share <= |queues[me]|
    ensures Room(queues[me := queues[me][..share]], me, share, 0) >= |queues[me]| - share
  {
    var q := queues[me][..share];
    ShareCovers(Total(queues, 0), |queues|);
    RoomBound(queues[me := q], me, share, 0);
    TotalUpdate(queues, 0, me, q);
  }

  // ------------------------------------------------------------------------
  // The run queues
  // ------------------------------------------------------------------------

  /** The victims not yet sent: those still to be looked at, then the current thread if it was among the others. */
  function Pending(victims: seq<Thread>, cur: Thread, done: nat): seq<Thread>
    requires done <= |victims|
  {
    victims[done..] + if cur in victims[..done] then [cur] else []
  }

  /** Queue i grew at its end by threads other than cur, whose t_cpu is now i; no other t_cpu changed. */
  ghost predicate Assigned(before: seq<Thread>, now: seq<Thread>, cur: Thread, i: nat, was: map<Thread, nat>,
                           tcpu: map<Thread, nat>) {
    && before <= now
    && (forall t :: t in now[|before|..] ==> t != cur && t in tcpu && tcpu[t] == i)
    && (forall t :: t in was && t !in now[|before|..] ==> t in tcpu && tcpu[t] == was[t])
  }

  lemma AssignedStep(before: seq<Thread>, now: seq<Thread>, cur: Thread, i: nat, was: map<Thread, nat>,
                     tcpu: map<Thread, nat>,
                     t: Thread)
    requires Assigned(before, now, cur, i, was, tcpu) && t != cur
    ensures Assigned(before, now + [t], cur, i, was, tcpu[t := i])
  {
    assert (now + [t])[|before|..] == now[|before|..] + [t];
  }

  /** No thread is lost or doubled between the queues and those in hand. */
  ghost predicate SameTally(was: seq<seq<Thread>>, hand: seq<Thread>, now: seq<seq<Thread>>, hand': seq<Thread>) {
    forall t :: Tally(now, t) + multiset(hand')[t] == Tally(was, t) + multiset(hand)[t]
  }

  class RunQueues {
    var queues: seq<seq<Thread>>
    var tcpu: map<Thread, nat>

    /** Counts all queues and, separately, mine. */
    method CountQueues(me: nat) returns (mine: nat, total: nat)
      requires me < |queues|
      ensures mine == |queues[me]| && total == Total(queues, 0)
    {
      mine, total := 0, 0;
      var i := 0;
      while i < |queues|
        invariant i <= |queues| && total + Total(queues, i) == Total(queues, 0)
        invariant i > me ==> mine == |queues[me]|
      {
        total := total + |queues[i]|;
        if i == me {
          mine := |queues[i]|;
        }
        i := i + 1;
      }
    }

    /** Takes threads off the tail of my queue, keeping their order. */
    method TakeVictims(me: nat, toSend: nat) returns (victims: seq<Thread>)
      requires me < |queues| && toSend <= |queues[me]|
      modifies this`queues
      ensures var kept := |old(queues)[me]| - toSend;
              queues == old(queues)[me := old(queues)[me][..kept]] && victims == old(queues)[me][kept..]
    {
      victims := [];
      ghost var mine := queues[me];
      assert mine[..|mine|] == mine;
      var i := 0;
      while i < toSend
        invariant i <= toSend && |queues| == |old(queues)|
        invariant queues == old(queues)[me := mine[..|mine| - i]] && victims == mine[|mine| - i..]
      {
        var q := queues[me];
        var t := q[|q| - 1];
        assert q[..|q| - 1] == mine[..|mine| - (i + 1)];
        queues := queues[me := q[..|q| - 1]];
        victims := [t] + victims;
        i := i + 1;
      }
    }

    /** Sends the first victim to CPU i, or puts it last when it is the current thread. */
    method DealOne(i: nat, cur: Thread, pending: seq<Thread>) returns (pending': seq<Thread>)
      requires i < |queues| && pending != []
      modifies this
      ensures pending' == if pending[0] == cur then pending[1..] + [cur] else pending[1..]
      ensures queues == if pending[0] == cur then old(queues) else old(queues)[i := old(queues)[i] + [pending[0]]]
      ensures tcpu == if pending[0] == cur then old(tcpu) else old(tcpu)[pending[0] := i]
      ensures SameTally(old(queues), pending, queues, pending')
    {
      var t := pending[0];
      assert pending == [t] + pending[1..];
      if t == cur {
        pending' := pending[1..] + [t];
      } else {
        TallyAppend(queues, i, t);
        tcpu := tcpu[t := i];
        queues := queues[i := queues[i] + [t]];
        pending' := pending[1..];
      }
    }

    /** Sends victims to CPU i until it has its share or none are left; the current thread goes to the end instead. */
    method DealTo(i: nat, cur: Thread, share: nat, pending: seq<Thread>, toSend: nat,
                  ghost victims: seq<Thread>, ghost done: nat)
      returns (pending': seq<Thread>, toSend': nat, ghost done': nat)
      requires i < |queues| && done <= |victims| && toSend == |victims| - done && pending == Pending(victims, cur, done)
      requires multiset(victims)[cur] <= 1
      modifies this
      ensures done <= done' <= |victims| && toSend' == |victims| - done' && pending' == Pending(victims, cur, done')
      ensures Dealt(old(queues), queues, i, share, cur, old(tcpu), tcpu, done' - done)
      ensures toSend' == 0 || |queues[i]| >= share
      ensures SameTally(old(queues), pending, queues, pending')
    {
      pending', toSend', done' := pending, toSend, done;
      while |queues[i]| < share && toSend' > 0
        invariant done <= done' <= |victims| && toSend' == |victims| - done' && pending' == Pending(victims, cur, done')
        invariant Dealt(old(queues), queues, i, share, cur, old(tcpu), tcpu, done' - done)
        invariant SameTally(old(queues), pending, queues, pending')
        decreases toSend'
      {
        PendingStep(victims, cur, done');
        DealtStep(old(queues), queues, i, share, cur, old(tcpu), tcpu, done' - done, pending'[0]);
        pending' := DealOne(i, cur, pending');
        toSend', done' := toSend' - 1, done' + 1;
      }
    }

    /** The visit to one CPU, which passes over my own; was and wasCpu are the state before the first visit. */
    method Visit(i: nat, me: nat, cur: Thread, share: nat, pending: seq<Thread>, toSend: nat,
                 ghost victims: seq<Thread>, ghost done: nat, ghost was: seq<seq<Thread>>, ghost wasCpu: map<Thread,
                 nat>)
      returns (pending': seq<Thread>, toSend': nat, ghost done': nat)
      requires i < |queues| && toSend > 0 && forall t :: Tally(was, t) + multiset(victims)[t] <= 1
      requires Dealing(was, wasCpu, queues, tcpu, me, share, cur, victims, pending, toSend, done, i)
      modifies this
      ensures |queues| == old(|queues|)
      ensures Dealing(was, wasCpu, queues, tcpu, me, share, cur, victims, pending', toSend', done', i + 1)
    {
      if i == me {
        return pending, toSend, done;
      }
      assert multiset(victims)[cur] <= 1;
      pending', toSend', done' := DealTo(i, cur, share, pending, toSend, victims, done);
      SpreadStep(was, old(queues), queues, me, i, share, cur, wasCpu, old(tcpu), tcpu, done' - done);
      RoomUpdate(old(queues), me, share, i + 1, i, queues[i]);
    }

    /** The loop over the other CPUs. */
    method DealAll(me: nat, cur: Thread, share: nat, victims: seq<Thread>) returns (pending: seq<Thread>)
      requires me < |queues| && Room(queues, me, share, 0) >= |victims|
      requires forall t :: Tally(queues, t) + multiset(victims)[t] <= 1
      modifies this
      ensures pending == if cur in victims then [cur] else []
      ensures Spread(old(queues), queues, me, share, cur, old(tcpu), tcpu)
      ensures SameTally(old(queues), victims, queues, pending)
    {
      assert victims[..0] == [] && victims[0..] == victims;
      pending := victims;
      var toSend: nat := |victims|;
      ghost var done: nat := 0;
      var i: nat := 0;
      while i < |queues| && toSend > 0
        invariant i <= |queues|
        invariant Dealing(old(queues), old(tcpu), queues, tcpu, me, share, cur, victims, pending, toSend, done, i)
      {
        pending, toSend, done := Visit(i, me, cur, share, pending, toSend, victims, done, old(queues), old(tcpu));
        i := i + 1;
      }
      assert victims[..|victims|] == victims;
    }

    /** Leftover victims go back to the end of my own queue. */
    method PutBack(me: nat, pending: seq<Thread>)
      requires me < |queues|
      modifies this`queues
      ensures queues == old(queues)[me := old(queues)[me] + pending]
    {
      var rest := pending;
      ghost var mine := queues[me];
      while rest != []
        invariant |queues| == |old(queues)| && queues == old(queues)[me := queues[me]]
        invariant queues[me] + rest == mine + pending
      {
        var q := queues[me] + [rest[0]];
        assert q + rest[1..] == queues[me] + rest;
        queues := queues[me := q];
        rest := rest[1..];
      }
      assert queues[me] == queues[me] + rest;
    }

    /**
     * thread_consider_migration.  With every thread queued at most once, an
     * overfull CPU keeps exactly its share, plus the current thread if that was
     * among the surplus; the rest of the surplus goes to CPUs below the share.
     */
    method ConsiderMigration(me: nat, cur: Thread)
      requires me < |queues| && forall t :: Tally(queues, t) <= 1
      modifies this
      ensures var share := Share(Total(old(queues), 0), |old(queues)|);
              if |old(queues)[me]| < share then queues == old(queues) && tcpu == old(tcpu)
              else Balanced(old(queues), queues, me, share, cur, old(tcpu), tcpu)
      ensures forall t :: Tally(queues, t) == Tally(old(queues), t)
    {
      var mine, total := CountQueues(me);
      var share := Share(total, |queues|);
      if mine < share {
        return;
      }
      ghost var was := queues;
      RoomForSurplus(queues, me, share);
      SplitTally(queues, me, share);
      var victims := TakeVictims(me, mine - share);
      ghost var kept, keptCpu := queues, tcpu;
      var pending := DealAll(me, cur, share, victims);
      BackTally(queues, me, pending);
      SpreadBalanced(was, kept, queues, me, share, cur, keptCpu, tcpu, pending);
      PutBack(me, pending);
    }
  }

  /** t was added to queue j. */
  predicate MovedTo(was: seq<seq<Thread>>, now: seq<seq<Thread>>, j: nat, t: Thread) {
    j < |was| == |now| && |was[j]| <= |now[j]| && t in now[j][|was[j]|..]
  }

  /** My queue is as it was; no other queue was lifted above the share; t_cpu follows the threads that moved. */
  ghost predicate Spread(was: seq<seq<Thread>>, now: seq<seq<Thread>>, me: nat, share: nat, cur: Thread,
                         wasCpu: map<Thread, nat>, tcpu: map<Thread, nat>)
  {
    && me < |was| == |now| && now[me] == was[me]
    && (forall j :: 0 <= j < |was| ==> was[j] <= now[j] && |now[j]| <= Max(share, |was[j]|))
    && (forall j: nat, t :: MovedTo(was, now, j, t) ==> t != cur && t in tcpu && tcpu[t] == j)
    && (forall t :: t in wasCpu && (forall j: nat :: !MovedTo(was, now, j, t)) ==> t in tcpu && tcpu[t] == wasCpu[t])
  }

  /**
   * After the visits to the first i CPUs: done victims have been dealt with, the
   * CPUs still to come are as they were, and they have room for the others.
   */
  ghost predicate Dealing(was: seq<seq<Thread>>, wasCpu: map<Thread, nat>, now: seq<seq<Thread>>, tcpu: map<Thread,
                          nat>,
                          me: nat, share: nat, cur: Thread, victims: seq<Thread>, pending: seq<Thread>,
                          toSend: nat, done: nat, i: nat)
  {
    && Spread(was, now, me, share, cur, wasCpu, tcpu) && i <= |now|
    && done <= |victims| && toSend == |victims| - done && pending == Pending(victims, cur, done)
    && (forall j :: i <= j < |now| ==> now[j] == was[j])
    && (toSend > 0 ==> Room(now, me, share, i) >= toSend)
    && SameTally(was, victims, now, pending)
  }

  lemma {:induction false} TallyAt(queues: seq<seq<Thread>>, j: nat, t: Thread)
    requires j < |queues| && t in queues[j]
    ensures Tally(queues, t) >= 1
  {
    if j > 0 {
      TallyAt(queues[1..], j - 1, t);
    }
  }

  lemma {:induction false} TallyTwice(queues: seq<seq<Thread>>, j: nat, k: nat, t: Thread)
    requires j < k < |queues| && t in queues[j] && t in queues[k]
    ensures Tally(queues, t) >= 2
  {
    if j > 0 {
      TallyTwice(queues[1..], j - 1, k - 1, t);
    } else {
      TallyAt(queues[1..], k - 1, t);
    }
  }

  lemma SpreadStep(was: seq<seq<Thread>>, mid: seq<seq<Thread>>, now: seq<seq<Thread>>, me: nat, i: nat, share: nat,
                   cur: Thread,
                   wasCpu: map<Thread, nat>, midCpu: map<Thread, nat>, tcpu: map<Thread, nat>, k: int)
    requires Spread(was, mid, me, share, cur, wasCpu, midCpu) && i < |was| && i != me && mid[i] == was[i]
    requires Dealt(mid, now, i, share, cur, midCpu, tcpu, k)
    requires forall t :: Tally(now, t) <= 1
    ensures Spread(was, now, me, share, cur, wasCpu, tcpu)
  {
    forall j: nat, t | MovedTo(was, now, j, t) ensures t != cur && t in tcpu && tcpu[t] == j {
      if j != i {
        assert MovedTo(was, mid, j, t);
        if t in now[i] {
          TallyTwice(now, if i < j then i else j, if i < j then j else i, t);
        }
      }
    }
    forall t | t in wasCpu && forall j: nat :: !MovedTo(was, now, j, t) ensures t in tcpu && tcpu[t] == wasCpu[t] {
      forall j: nat ensures !MovedTo(was, mid, j, t) {
        assert !MovedTo(was, now, j, t);
      }
      assert !MovedTo(was, now, i, t);
    }
  }

  /** Of the queues only the i-th changed, by at most k threads, and not beyond the share. */
  ghost predicate Dealt(was: seq<seq<Thread>>, now: seq<seq<Thread>>, i: nat, share: nat, cur: Thread,
                        wasCpu: map<Thread, nat>, tcpu: map<Thread, nat>, k: int)
  {
    && i < |was| == |now| && now == was[i := now[i]]
    && Assigned(was[i], now[i], cur, i, wasCpu, tcpu)
    && |now[i]| <= Max(share, |was[i]|) && |now[i]| - |was[i]| <= k
  }

  lemma DealtStep(was: seq<seq<Thread>>, now: seq<seq<Thread>>, i: nat, share: nat, cur: Thread,
                  wasCpu: map<Thread, nat>, tcpu: map<Thread, nat>, k: int, t: Thread)
    requires Dealt(was, now, i, share, cur, wasCpu, tcpu, k) && |now[i]| < share
    ensures Dealt(was, now, i, share, cur, wasCpu, tcpu, k + 1)
    ensures t != cur ==> Dealt(was, now[i := now[i] + [t]], i, share, cur, wasCpu, tcpu[t := i], k + 1)
  {
    if t != cur {
      AssignedStep(was[i], now[i], cur, i, wasCpu, tcpu, t);
    }
  }

  lemma PendingStep(victims: seq<Thread>, cur: Thread, done: nat)
    requires done < |victims| && multiset(victims)[cur] <= 1
    ensures var p := Pending(victims, cur, done);
            && p != [] && p[0] == victims[done]
            && Pending(victims, cur, done + 1) == (if p[0] == cur then p[1..] + [cur] else p[1..])
            && multiset(p) == multiset{p[0]} + multiset(p[1..])
  {
    var p := Pending(victims, cur, done);
    assert victims[..done + 1] == victims[..done] + [victims[done]];
    assert p == [p[0]] + p[1..];
    if victims[done] == cur {
      assert victims == victims[..done] + [cur] + victims[done + 1..];
      assert cur !in victims[..done];
    }
  }

  /** What a migration from an overfull queue leaves behind. */
  ghost predicate Balanced(was: seq<seq<Thread>>, now: seq<seq<Thread>>, me: nat, share: nat, cur: Thread,
                           wasCpu: map<Thread, nat>, tcpu: map<Thread, nat>)
  {
    && me < |was| == |now| && share <= |was[me]|
    && now[me] == was[me][..share] + (if cur in was[me][share..] then [cur] else [])
    && (forall j :: 0 <= j < |was| && j != me ==> was[j] <= now[j] && |now[j]| <= Max(share, |was[j]|))
    && (forall j: nat, t :: MovedTo(was, now, j, t) ==> t != cur && t in tcpu && tcpu[t] == j)
    && (forall t :: t in wasCpu && (forall j: nat :: !MovedTo(was, now, j, t)) ==> t in tcpu && tcpu[t] == wasCpu[t])
  }

  lemma SplitTally(queues: seq<seq<Thread>>, me: nat, k: nat)
    requires me < |queues| && k <= |queues[me]|
    ensures forall t :: Tally(queues[me := queues[me][..k]], t) + multiset(queues[me][k..])[t] == Tally(queues, t)
  {
    forall t ensures Tally(queues[me := queues[me][..k]], t) + multiset(queues[me][k..])[t] == Tally(queues, t) {
      TallyUpdate(queues, me, queues[me][..k], t);
      assert queues[me] == queues[me][..k] + queues[me][k..];
    }
  }

  lemma BackTally(queues: seq<seq<Thread>>, me: nat, q: seq<Thread>)
    requires me < |queues|
    ensures forall t :: Tally(queues[me := queues[me] + q], t) == Tally(queues, t) + multiset(q)[t]
  {
    forall t ensures Tally(queues[me := queues[me] + q], t) == Tally(queues, t) + multiset(q)[t] {
      TallyUpdate(queues, me, queues[me] + q, t);
    }
  }

  lemma SpreadBalanced(was: seq<seq<Thread>>, kept: seq<seq<Thread>>, now: seq<seq<Thread>>, me: nat, share: nat,
                       cur: Thread,
                       wasCpu: map<Thread, nat>, tcpu: map<Thread, nat>, back: seq<Thread>)
    requires me < |was| && share <= |was[me]| && kept == was[me := was[me][..share]]
    requires Spread(kept, now, me, share, cur, wasCpu, tcpu)
    requires back == if cur in was[me][share..] then [cur] else []
    ensures Balanced(was, now[me := now[me] + back], me, share, cur, wasCpu, tcpu)
  {
    var final := now[me := now[me] + back];
    forall j: nat, t ensures MovedTo(was, final, j, t) <==> MovedTo(kept, now, j, t) {
      if j < |was| && j != me {
        assert final[j] == now[j] && kept[j] == was[j];
      }
    }
  }
}
