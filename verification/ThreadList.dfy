/** Lists of threads (threadlist.c): doubly linked, between two sentinels that stay in place. */
module ThreadList {
  import opened Chains

  class Node {
    var prev: Node?
    var next: Node?
    /** The thread the node is part of; a sentinel has none. */
    const self: Option<nat>

    constructor (self: Option<nat>)
      ensures prev == null && next == null && this.self == self
    {
      this.self, prev, next := self, null, null;
    }
  }

  /** The nodes are distinct and linked both ways in order, ending in null at either side. */
  ghost predicate Linked(nodes: seq<Node>)
    reads nodes
  {
    && (forall i, j :: 0 <= i < j < |nodes| ==> nodes[i] != nodes[j])
    && (forall i {:trigger nodes[i].next} :: 0 <= i < |nodes| ==>
          nodes[i].next == if i + 1 < |nodes| then nodes[i + 1] else null)
    && (forall i {:trigger nodes[i].prev} :: 0 <= i < |nodes| ==>
          nodes[i].prev == if i > 0 then nodes[i - 1] else null)
  }

  /** The first and last node are sentinels and the others are not. */
  ghost predicate Bounded(nodes: seq<Node>) {
    |nodes| >= 2 && forall i :: 0 <= i < |nodes| ==> (nodes[i].self == None <==> i == 0 || i == |nodes| - 1)
  }

  /** The threads on the list, in order. */
  ghost function ThreadsOf(nodes: seq<Node>): seq<nat>
    requires Bounded(nodes)
  {
    seq(|nodes| - 2, i requires 0 <= i < |nodes| - 2 => nodes[i + 1].self.value)
  }

  lemma InsertedContents(nodes: seq<Node>, addee: Node, k: nat)
    requires Bounded(nodes) && k + 1 < |nodes| && addee.self != None
    ensures var after := nodes[..k + 1] + [addee] + nodes[k + 1..];
            && Bounded(after) && after[0] == nodes[0] && after[|after| - 1] == nodes[|nodes| - 1]
            && ThreadsOf(after) == ThreadsOf(nodes)[..k] + [addee.self.value] + ThreadsOf(nodes)[k..]
  {
    var after := nodes[..k + 1] + [addee] + nodes[k + 1..];
    assert forall i :: 0 <= i < |after| ==>
        after[i] == if i <= k then nodes[i] else if i == k + 1 then addee else nodes[i - 1];
  }

  lemma RemovedContents(nodes: seq<Node>, k: nat)
    requires Bounded(nodes) && 0 < k < |nodes| - 1
    ensures var after := nodes[..k] + nodes[k + 1..];
            && Bounded(after) && after[0] == nodes[0] && after[|after| - 1] == nodes[|nodes| - 1]
            && ThreadsOf(after) == ThreadsOf(nodes)[..k - 1] + ThreadsOf(nodes)[k..]
  {
    var after := nodes[..k] + nodes[k + 1..];
    assert forall i :: 0 <= i < |after| ==> after[i] == if i < k then nodes[i] else nodes[i + 1];
  }

  /** Links addee in after the given node. */
  method InsertAfterNode(onlist: Node, addee: Node, ghost nodes: seq<Node>, ghost k: nat)
    requires Linked(nodes) && k + 1 < |nodes| && nodes[k] == onlist
    requires addee !in nodes && addee.prev == null && addee.next == null
    modifies nodes, addee
    ensures Linked(nodes[..k + 1] + [addee] + nodes[k + 1..])
  {
    addee.prev := onlist;
    addee.next := onlist.next;
    addee.prev.next := addee;
    addee.next.prev := addee;
    InsertedLinks(nodes, addee, k);
  }

  /** Links addee in before the given node. */
  method InsertBeforeNode(addee: Node, onlist: Node, ghost nodes: seq<Node>, ghost k: nat)
    requires Linked(nodes) && k + 1 < |nodes| && nodes[k + 1] == onlist
    requires addee !in nodes && addee.prev == null && addee.next == null
    modifies nodes, addee
    ensures Linked(nodes[..k + 1] + [addee] + nodes[k + 1..])
  {
    addee.prev := onlist.prev;
    addee.next := onlist;
    addee.prev.next := addee;
    addee.next.prev := addee;
    InsertedLinks(nodes, addee, k);
  }

  /** Four pointers make the difference. */
  lemma InsertedLinks(nodes: seq<Node>, addee: Node, k: nat)
    requires k + 1 < |nodes| && addee !in nodes
    requires forall i, j :: 0 <= i < j < |nodes| ==> nodes[i] != nodes[j]
    requires addee.prev == nodes[k] && addee.next == nodes[k + 1]
    requires forall i {:trigger nodes[i].next} :: 0 <= i < |nodes| ==>
               nodes[i].next == if i == k then addee else if i + 1 < |nodes| then nodes[i + 1] else null
    requires forall i {:trigger nodes[i].prev} :: 0 <= i < |nodes| ==>
               nodes[i].prev == if i == k + 1 then addee else if i > 0 then nodes[i - 1] else null
    ensures Linked(nodes[..k + 1] + [addee] + nodes[k + 1..])
  {
    var after := nodes[..k + 1] + [addee] + nodes[k + 1..];
    forall i | 0 <= i < |after|
      ensures after[i].next == (if i + 1 < |after| then after[i + 1] else null)
      ensures after[i].prev == (if i > 0 then after[i - 1] else null)
    {
      if i <= k {
        assert after[i] == nodes[i];
      } else if i > k + 1 {
        assert after[i] == nodes[i - 1];
      }
    }
  }

  /** threadlist_removenode. */
  method RemoveNode(tln: Node, ghost nodes: seq<Node>, ghost k: nat)
    requires Linked(nodes) && 0 < k < |nodes| - 1 && nodes[k] == tln
    modifies nodes
    ensures tln.prev == null && tln.next == null
    ensures Linked(nodes[..k] + nodes[k + 1..])
  {
    assert nodes[k].prev == nodes[k - 1] && nodes[k].next == nodes[k + 1];
    tln.prev.next := tln.next;
    tln.next.prev := tln.prev;
    tln.prev := null;
    tln.next := null;
    RemovedLinks(nodes, k);
  }

  lemma RemovedLinks(nodes: seq<Node>, k: nat)
    requires 0 < k < |nodes| - 1
    requires forall i, j :: 0 <= i < j < |nodes| ==> nodes[i] != nodes[j]
    requires forall i {:trigger nodes[i].next} :: 0 <= i < |nodes| && i != k ==>
               nodes[i].next == if i == k - 1 then nodes[k + 1] else if i + 1 < |nodes| then nodes[i + 1] else null
    requires forall i {:trigger nodes[i].prev} :: 0 <= i < |nodes| && i != k ==>
               nodes[i].prev == if i == k + 1 then nodes[k - 1] else if i > 0 then nodes[i - 1] else null
    ensures Linked(nodes[..k] + nodes[k + 1..])
  {
    var after := nodes[..k] + nodes[k + 1..];
    forall i | 0 <= i < |after|
      ensures after[i].next == (if i + 1 < |after| then after[i + 1] else null)
      ensures after[i].prev == (if i > 0 then after[i - 1] else null)
    {
      if i < k {
        assert after[i] == nodes[i];
      } else {
        assert after[i] == nodes[i + 1];
      }
    }
  }

  class List {
    const head: Node
    const tail: Node
    var count: nat
    ghost var nodes: seq<Node>

    ghost predicate Valid()
      reads this, nodes
    {
      && Bounded(nodes) && Linked(nodes) && nodes[0] == head && nodes[|nodes| - 1] == tail
      && count == |nodes| - 2
    }

    ghost function Contents(): seq<nat>
      requires Valid()
      reads this, nodes
    {
      ThreadsOf(nodes)
    }

    /** threadlist_init. */
    constructor ()
      ensures Valid() && Contents() == [] && fresh(nodes)
    {
      var h := new Node(None);
      var t := new Node(None);
      head, tail, count, nodes := h, t, 0, [h, t];
      new;
      head.next := tail;
      tail.prev := head;
    }

    /** threadlist_isempty. */
    method IsEmpty() returns (empty: bool)
      requires Valid()
      ensures empty <==> Contents() == []
    {
      return count == 0;
    }

    /** A thread that is on no list: its node is linked to nothing. */
    ghost predicate Loose(t: Node)
      reads this, t
    {
      t !in nodes && t.prev == null && t.next == null && t.self != None
    }

    method AddHead(t: Node)
      requires Valid() && Loose(t)
      modifies this, nodes, t
      ensures Valid() && nodes == old(nodes)[..1] + [t] + old(nodes)[1..]
      ensures Contents() == [t.self.value] + old(Contents())
    {
      InsertedContents(nodes, t, 0);
      InsertAfterNode(head, t, nodes, 0);
      count := count + 1;
      nodes := nodes[..1] + [t] + nodes[1..];
    }

    method AddTail(t: Node)
      requires Valid() && Loose(t)
      modifies this, nodes, t
      ensures Valid() && nodes == old(nodes)[..|old(nodes)| - 1] + [t] + old(nodes)[|old(nodes)| - 1..]
      ensures Contents() == old(Contents()) + [t.self.value]
    {
      ghost var k := |nodes| - 2;
      assert nodes[k + 1] == tail;
      InsertedContents(nodes, t, k);
      InsertBeforeNode(t, tail, nodes, k);
      count := count + 1;
      nodes := nodes[..k + 1] + [t] + nodes[k + 1..];
    }

    /** The first thread, which leaves the list, or nothing when the list is empty. */
    method RemHead() returns (t: Option<nat>)
      requires Valid()
      modifies this, nodes
      ensures Valid()
      ensures old(Contents()) == [] ==> t == None && Contents() == []
      ensures old(Contents()) != [] ==> t == Some(old(Contents())[0]) && Contents() == old(Contents())[1..]
      ensures old(Contents()) != [] ==> Loose(old(nodes)[1])
    {
      assert nodes[0].next == nodes[1];
      var tln := head.next;
      if tln.next == null {
        return None;
      }
      RemovedContents(nodes, 1);
      RemoveNode(tln, nodes, 1);
      nodes := nodes[..1] + nodes[2..];
      count := count - 1;
      return tln.self;
    }

    method RemTail() returns (t: Option<nat>)
      requires Valid()
      modifies this, nodes
      ensures Valid()
      ensures old(Contents()) == [] ==> t == None && Contents() == []
      ensures old(Contents()) != [] ==>
                var n := |old(Contents())| - 1;
                t == Some(old(Contents())[n]) && Contents() == old(Contents())[..n] && Loose(old(nodes)[n + 1])
    {
      ghost var k := |nodes| - 2;
      assert nodes[k + 1].prev == nodes[k];
      var tln := tail.prev;
      if tln.prev == null {
        return None;
      }
      RemovedContents(nodes, k);
      RemoveNode(tln, nodes, k);
      nodes := nodes[..k] + nodes[k + 1..];
      count := count - 1;
      return tln.self;
    }

    /** threadlist_insertafter, for the i-th thread of the list. */
    method InsertAfter(onlist: Node, addee: Node, ghost i: nat)
      requires Valid() && Loose(addee) && i < |nodes| - 2 && nodes[i + 1] == onlist
      modifies this, nodes, addee
      ensures Valid()
      ensures Contents() == old(Contents())[..i + 1] + [addee.self.value] + old(Contents())[i + 1..]
    {
      InsertedContents(nodes, addee, i + 1);
      InsertAfterNode(onlist, addee, nodes, i + 1);
      count := count + 1;
      nodes := nodes[..i + 2] + [addee] + nodes[i + 2..];
    }

    /** threadlist_insertbefore. */
    method InsertBefore(addee: Node, onlist: Node, ghost i: nat)
      requires Valid() && Loose(addee) && i < |nodes| - 2 && nodes[i + 1] == onlist
      modifies this, nodes, addee
      ensures Valid()
      ensures Contents() == old(Contents())[..i] + [addee.self.value] + old(Contents())[i..]
    {
      InsertedContents(nodes, addee, i);
      InsertBeforeNode(addee, onlist, nodes, i);
      count := count + 1;
      nodes := nodes[..i + 1] + [addee] + nodes[i + 1..];
    }

    /** threadlist_remove. */
    method Remove(t: Node, ghost i: nat)
      requires Valid() && i < |nodes| - 2 && nodes[i + 1] == t
      modifies this, nodes
      ensures Valid() && Loose(t)
      ensures Contents() == old(Contents())[..i] + old(Contents())[i + 1..]
    {
      RemovedContents(nodes, i + 1);
      RemoveNode(t, nodes, i + 1);
      nodes := nodes[..i + 1] + nodes[i + 2..];
      count := count - 1;
    }
  }
}
