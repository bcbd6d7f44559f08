/** Singly linked lists, read off a table of next pointers. */
module Chains {

  datatype Option<+T> = None | Some(value: T)

  ghost predicate Distinct<T>(list: seq<T>) {
    list == [] || (list[0] !in list[1..] && Distinct(list[1..]))
  }

  /** Following next from head visits exactly list, in order, and ends at the null pointer. */
  ghost predicate Chain<T>(head: Option<T>, next: map<T, Option<T>>, list: seq<T>)
    decreases |list|
  {
    if list == [] then head == None
    else head == Some(list[0]) && list[0] in next && Chain(next[list[0]], next, list[1..])
  }

  function Without<T(==)>(list: seq<T>, x: T): seq<T> {
    if list == [] then [] else if list[0] == x then list[1..] else [list[0]] + Without(list[1..], x)
  }

  lemma {:induction false} ChainFrame<T>(head: Option<T>, next: map<T, Option<T>>, next': map<T, Option<T>>,
                                         list: seq<T>)
    requires Chain(head, next, list)
    requires forall x :: x in list && x in next ==> x in next' && next'[x] == next[x]
    ensures Chain(head, next', list)
    decreases |list|
  {
    if list != [] {
      ChainFrame(next[list[0]], next, next', list[1..]);
    }
  }

  lemma ChainPush<T>(head: Option<T>, next: map<T, Option<T>>, list: seq<T>, x: T)
    requires Chain(head, next, list) && x !in list
    ensures Chain(Some(x), next[x := head], [x] + list)
    ensures Distinct(list) ==> Distinct([x] + list)
  {
    assert ([x] + list)[1..] == list;
    ChainFrame(head, next, next[x := head], list);
  }

  lemma {:induction false} DistinctAppend<T>(list: seq<T>, x: T)
    requires Distinct(list) && x !in list
    ensures Distinct(list + [x])
  {
    if list != [] {
      DistinctAppend(list[1..], x);
      assert (list + [x])[1..] == list[1..] + [x];
    }
  }

  lemma {:induction false} DistinctFront<T>(list: seq<T>)
    requires Distinct(list) && list != []
    ensures Distinct(list[..|list| - 1]) && list[|list| - 1] !in list[..|list| - 1]
  {
    var n := |list| - 1;
    if n > 0 {
      DistinctFront(list[1..]);
      assert list[..n][1..] == list[1..][..n - 1];
      assert list[1..][n - 1] == list[n];
      assert list[0] !in list[1..][..n - 1];
      assert list[..n] == [list[0]] + list[1..][..n - 1];
    }
  }

  lemma TailElements<T>(list: seq<T>)
    requires Distinct(list) && list != []
    ensures Distinct(list[1..]) && forall x :: x in list[1..] <==> x in list && x != list[0]
  {
  }

  lemma {:induction false} WithoutElements<T>(list: seq<T>, x: T)
    requires Distinct(list)
    ensures Distinct(Without(list, x))
    ensures forall y :: y in Without(list, x) <==> y in list && y != x
  {
    if list != [] && list[0] != x {
      WithoutElements(list[1..], x);
      assert Without(list, x)[1..] == Without(list[1..], x);
    }
  }

  lemma {:induction false} WithoutAbsent<T>(list: seq<T>, x: T)
    requires x !in list
    ensures Without(list, x) == list
  {
    if list != [] {
      WithoutAbsent(list[1..], x);
    }
  }

  lemma {:induction false} WithoutSplit<T>(front: seq<T>, x: T, rest: seq<T>)
    requires x !in front
    ensures Without(front + [x] + rest, x) == front + rest
  {
    var list := front + [x] + rest;
    if front == [] {
      assert list[1..] == rest && front + rest == rest;
    } else {
      assert list[1..] == front[1..] + [x] + rest;
      WithoutSplit(front[1..], x, rest);
      assert [front[0]] + (front[1..] + rest) == front + rest;
    }
  }

  /** Redirecting the pointer out of the last element of front past x takes x out of the chain. */
  lemma {:induction false} ChainUnlink<T>(head: Option<T>, next: map<T, Option<T>>, front: seq<T>, x: T, rest: seq<T>)
    requires Chain(head, next, front + [x] + rest) && Distinct(front + [x] + rest)
    ensures x in next && Chain(next[x], next, rest)
    ensures front != [] ==> front[|front| - 1] in next
    ensures front != [] ==> Chain(head, next[front[|front| - 1] := next[x]], front + rest)
    decreases |front|
  {
    var list := front + [x] + rest;
    if front == [] {
      assert list[1..] == rest;
    } else {
      assert list[1..] == front[1..] + [x] + rest;
      ChainUnlink(next[list[0]], next, front[1..], x, rest);
      var last := front[|front| - 1];
      var next' := next[last := next[x]];
      assert (front + rest)[1..] == front[1..] + rest;
      if |front| == 1 {
        assert front[1..] + rest == rest && last == list[0];
        assert forall y :: y in rest ==> y in list[1..];
        ChainElements(next[x], next, rest);
        ChainFrame(next[x], next, next', rest);
      } else {
        assert front[1..][|front[1..]| - 1] == last;
        assert last in list[1..];
      }
    }
  }

  lemma {:induction false} ChainElements<T>(head: Option<T>, next: map<T, Option<T>>, list: seq<T>)
    requires Chain(head, next, list)
    ensures forall x :: x in list ==> x in next
    decreases |list|
  {
    if list != [] {
      ChainElements(next[list[0]], next, list[1..]);
    }
  }

  /**
   * remove_lists walks one list with a pointer to the pointer being followed; a
   * pointer that matches is redirected past the element.
   */
  method Unlink<T(==)>(head: Option<T>, next: map<T, Option<T>>, x: T, ghost list: seq<T>)
    returns (head': Option<T>, next': map<T, Option<T>>)
    requires Chain(head, next, list) && Distinct(list)
    ensures Chain(head', next', Without(list, x))
    ensures next'.Keys == next.Keys
    ensures forall y :: y in next && y !in list ==> next'[y] == next[y]
  {
    head', next' := head, next;
    var guy: Option<T> := None; // the element whose next pointer is examined; None stands for the list base
    var cur := head;
    ghost var front, rest := [], list;
    while cur != None
      invariant list == front + rest && x !in front && Chain(cur, next, rest)
      invariant guy == if front == [] then None else Some(front[|front| - 1])
      decreases |rest|
    {
      assert rest == [cur.value] + rest[1..];
      assert list == front + [cur.value] + rest[1..];
      if cur == Some(x) {
        WithoutSplit(front, x, rest[1..]);
        ChainUnlink(head, next, front, x, rest[1..]);
        if guy == None {
          assert front + rest[1..] == rest[1..];
          head' := next[x];
        } else {
          next' := next[guy.value := next[x]];
        }
        return;
      }
      guy, front, rest, cur := cur, front + [cur.value], rest[1..], next[cur.value];
    }
    assert front == list;
    WithoutAbsent(list, x);
  }
}
