/** Thread lists as a whole: every list of the kernel, and where each thread is. */
module Placement {
  import opened Chains

  type Thread = nat
  type Cpu = nat

  /**
   * The lists a thread can be on: a run queue, a wait channel, a zombie list, the
   * threads a waker has taken off a channel but not yet queued, and the victims
   * list of a migration.
   */
  datatype ListId = RunQueue(cpu: Cpu) | Channel(w: nat) | Zombies(cpu: Cpu) | Hand(cpu: Cpu) | Victims(cpu: Cpu)

  /** The contents of the lists and, as a record kept beside them, the list each thread is on. */
  datatype Lists = Lists(contents: map<ListId, seq<Thread>>, place: map<Thread, ListId>) {

    function At(l: ListId): seq<Thread> {
      if l in contents then contents[l] else []
    }

    /** No thread is on a list twice, or on two lists, and place tells which list it is on. */
    ghost predicate Ok() {
      && (forall l :: Distinct(At(l)))
      && (forall l :: forall t :: t in At(l) <==> t in place && place[t] == l)
    }

    function AddTail(l: ListId, t: Thread): Lists {
      Lists(contents[l := At(l) + [t]], place[t := l])
    }

    function AddHead(l: ListId, t: Thread): Lists {
      Lists(contents[l := [t] + At(l)], place[t := l])
    }

    function RemHead(l: ListId): Lists
      requires At(l) != []
    {
      Lists(contents[l := At(l)[1..]], place - {At(l)[0]})
    }

    function Last(l: ListId): Thread
      requires At(l) != []
    {
      At(l)[|At(l)| - 1]
    }

    function RemTail(l: ListId): Lists
      requires At(l) != []
    {
      Lists(contents[l := At(l)[..|At(l)| - 1]], place - {Last(l)})
    }
  }

  lemma AddTailOk(ls: Lists, l: ListId, t: Thread)
    requires ls.Ok() && t !in ls.place
    ensures ls.AddTail(l, t).Ok()
  {
    DistinctAppend(ls.At(l), t);
    var ls' := ls.AddTail(l, t);
    forall k ensures Distinct(ls'.At(k)) && forall u :: u in ls'.At(k) <==> u in ls'.place && ls'.place[u] == k {
      assert k != l ==> ls'.At(k) == ls.At(k);
    }
  }

  lemma AddHeadOk(ls: Lists, l: ListId, t: Thread)
    requires ls.Ok() && t !in ls.place
    ensures ls.AddHead(l, t).Ok()
  {
    var ls' := ls.AddHead(l, t);
    assert ([t] + ls.At(l))[1..] == ls.At(l);
    forall k ensures Distinct(ls'.At(k)) && forall u :: u in ls'.At(k) <==> u in ls'.place && ls'.place[u] == k {
      assert k != l ==> ls'.At(k) == ls.At(k);
    }
  }

  lemma RemHeadOk(ls: Lists, l: ListId)
    requires ls.Ok() && ls.At(l) != []
    ensures ls.RemHead(l).Ok() && ls.At(l)[0] in ls.place && ls.place[ls.At(l)[0]] == l
  {
    var t := ls.At(l)[0];
    assert t in ls.At(l);
    var ls' := ls.RemHead(l);
    forall k ensures Distinct(ls'.At(k)) && forall u :: u in ls'.At(k) <==> u in ls'.place && ls'.place[u] == k {
      assert k != l ==> ls'.At(k) == ls.At(k);
    }
  }

  lemma RemTailOk(ls: Lists, l: ListId)
    requires ls.Ok() && ls.At(l) != []
    ensures ls.RemTail(l).Ok() && ls.Last(l) in ls.place && ls.place[ls.Last(l)] == l
  {
    DistinctFront(ls.At(l));
    var t := ls.Last(l);
    assert t in ls.At(l);
    var ls' := ls.RemTail(l);
    assert ls.At(l) == ls'.At(l) + [t];
    forall k ensures Distinct(ls'.At(k)) && forall u :: u in ls'.At(k) <==> u in ls'.place && ls'.place[u] == k {
      assert k != l ==> ls'.At(k) == ls.At(k);
    }
  }

  // ------------------------------------------------------------------------
  // Moves of one thread
  // ------------------------------------------------------------------------

  /** remhead here, addtail there. */
  function Requeue(ls: Lists, l: ListId, l': ListId): Lists
    requires ls.At(l) != []
  {
    ls.RemHead(l).AddTail(l', ls.At(l)[0])
  }

  lemma RequeueOk(ls: Lists, l: ListId, l': ListId)
    requires ls.Ok() && ls.At(l) != []
    ensures Requeue(ls, l, l').Ok() && ls.At(l)[0] in ls.place && ls.place[ls.At(l)[0]] == l
    ensures Requeue(ls, l, l').place == ls.place[ls.At(l)[0] := l']
  {
    RemHeadOk(ls, l);
    AddTailOk(ls.RemHead(l), l', ls.At(l)[0]);
  }

  /** remtail here, addhead there. */
  function TakeBack(ls: Lists, l: ListId, l': ListId): Lists
    requires ls.At(l) != []
  {
    ls.RemTail(l).AddHead(l', ls.Last(l))
  }

  lemma TakeBackOk(ls: Lists, l: ListId, l': ListId)
    requires ls.Ok() && ls.At(l) != []
    ensures TakeBack(ls, l, l').Ok() && ls.Last(l) in ls.place && ls.place[ls.Last(l)] == l
    ensures TakeBack(ls, l, l').place == ls.place[ls.Last(l) := l']
  {
    RemTailOk(ls, l);
    AddHeadOk(ls.RemTail(l), l', ls.Last(l));
  }
}
