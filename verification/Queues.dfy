/**
 * First come, first served: a queue that grows at its end and shrinks at its
 * front, followed through time.
 */
module Queues {
  import opened Chains

  /** t stands before u. */
  ghost predicate Before<T>(list: seq<T>, t: T, u: T) {
    exists a, b :: 0 <= a < b < |list| && list[a] == t && list[b] == u
  }

  lemma BeforeAppend<T>(list: seq<T>, x: T, t: T, u: T)
    requires Before(list, t, u) || (t in list && x == u)
    ensures Before(list + [x], t, u)
  {
    var more := list + [x];
    if Before(list, t, u) {
      var a, b :| 0 <= a < b < |list| && list[a] == t && list[b] == u;
      assert more[a] == t && more[b] == u;
    } else {
      var a :| 0 <= a < |list| && list[a] == t;
      assert more[a] == t && more[|list|] == u;
    }
  }

  /** While t is there, taking the first does not take u, and leaves t before u. */
  lemma BeforeTail<T>(list: seq<T>, t: T, u: T)
    requires Distinct(list) && Before(list, t, u)
    ensures list[0] != u && u in list[1..] && (list[0] != t ==> Before(list[1..], t, u))
  {
    var a, b :| 0 <= a < b < |list| && list[a] == t && list[b] == u;
    var rest := list[1..];
    assert rest[b - 1] == u;
    if a > 0 {
      assert rest[a - 1] == t;
    }
  }

  /** One change: none, one more at the end, the first off, or all of them off. */
  predicate Moves<T(==)>(a: seq<T>, b: seq<T>) {
    b == a || b == [] || (a != [] && b == a[1..]) || (b != [] && a == b[..|b| - 1] && b[|b| - 1] !in a)
  }

  lemma MovesKeep<T>(a: seq<T>, b: seq<T>, t: T, u: T)
    requires Distinct(a) && Moves(a, b) && Before(a, t, u)
    ensures u in b || b == []
    ensures t in b ==> Before(b, t, u)
  {
    BeforeTail(a, t, u);
    if b != [] && a == b[..|b| - 1] {
      assert b == a + [b[|b| - 1]];
      BeforeAppend(a, b[|b| - 1], t, u);
    }
  }

  /** One change of a queue whose last may be taken as well. */
  predicate Shifts<T(==)>(a: seq<T>, b: seq<T>) {
    Moves(a, b) || (a != [] && b == a[..|a| - 1])
  }

  lemma ShiftsKeep<T>(a: seq<T>, b: seq<T>, t: T, u: T)
    requires Distinct(a) && Shifts(a, b) && Before(a, t, u) && t in b && u in b
    ensures Before(b, t, u)
  {
    if Moves(a, b) {
      MovesKeep(a, b, t, u);
    } else {
      var x, y :| 0 <= x < y < |a| && a[x] == t && a[y] == u;
      DistinctFront(a);
      assert a[|a| - 1] != u;
      assert b[x] == t && b[y] == u;
    }
  }

  /** Who joins, joins behind. */
  lemma JoinsLast<T>(a: seq<T>, b: seq<T>, t: T, u: T)
    requires Shifts(a, b) && t in a && u !in a && u in b
    ensures Before(b, t, u)
  {
    assert b == a + [b[|b| - 1]];
    BeforeAppend(a, u, t, u);
  }

  /** The states a queue went through. */
  ghost predicate History<T>(h: seq<seq<T>>) {
    && (forall i :: 0 <= i < |h| ==> Distinct(h[i]))
    && (forall i :: 0 <= i < |h| - 1 ==> Shifts(h[i], h[i + 1]))
  }

  /** t joined after state i and is there up to state k. */
  ghost predicate Since<T>(h: seq<seq<T>>, t: T, i: nat, k: nat)
    requires i < k < |h|
  {
    t !in h[i] && forall m :: i < m <= k ==> t in h[m]
  }

  /** Who joined earlier stands before. */
  lemma {:induction false} InOrder<T>(h: seq<seq<T>>, t: T, u: T, i: nat, j: nat, k: nat)
    requires History(h) && i < j < k < |h| && Since(h, t, i, k) && Since(h, u, j, k)
    ensures Before(h[k], t, u)
  {
    if k == j + 1 {
      JoinsLast(h[j], h[j + 1], t, u);
    } else {
      InOrder(h, t, u, i, j, k - 1);
      ShiftsKeep(h[k - 1], h[k], t, u);
    }
  }
}
