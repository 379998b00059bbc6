// Queues as sequences: what the list macros do to them, and lists of queues.
module Queues {
  // TAILQ_REMOVE
  function Remove<T(==)>(q: seq<T>, e: T): seq<T> {
    if q == [] then [] else if q[0] == e then q[1..] else [q[0]] + Remove(q[1..], e)
  }

  ghost predicate NoDup<T>(q: seq<T>) {
    forall i, j | 0 <= i < j < |q| :: q[i] != q[j]
  }

  lemma {:induction false} RemoveAt<T>(q: seq<T>, e: T) returns (i: nat)
    requires e in q
    ensures i < |q| && q[i] == e && Remove(q, e) == q[..i] + q[i + 1..]
  {
    if q[0] == e {
      return 0;
    }
    i := RemoveAt(q[1..], e);
    assert [q[0]] + (q[1..][..i] + q[1..][i + 1..]) == q[..i + 1] + q[i + 2..];
    i := i + 1;
  }

  /** `r` holds what `q` holds, without `e`. */
  ghost predicate Without<T>(q: seq<T>, e: T, r: seq<T>) {
    && NoDup(r) && |r| == |q| - 1
    && (forall x | x in r :: x in q && x != e)
    && (forall x | x in q :: x == e || x in r)
  }

  lemma {:induction false} RemoveFacts<T>(q: seq<T>, e: T)
    requires NoDup(q) && e in q
    ensures Without(q, e, Remove(q, e))
  {
    var i := RemoveAt(q, e);
    forall x | x in q && x != e
      ensures x in Remove(q, e)
    {
      var j :| 0 <= j < |q| && q[j] == x;
      assert Remove(q, e)[if j < i then j else j - 1] == x;
    }
  }

  /** `r` holds what `q` holds, and `e`. */
  ghost predicate Joined<T>(q: seq<T>, e: T, r: seq<T>) {
    && NoDup(r) && |r| == |q| + 1 && e in r
    && (forall x | x in r :: x == e || x in q)
    && (forall x | x in q :: x in r)
  }

  ghost function SumLen<T>(qs: seq<seq<T>>): nat {
    if qs == [] then 0 else |qs[0]| + SumLen(qs[1..])
  }

  lemma {:induction false} SumLenUpdate<T>(qs: seq<seq<T>>, i: nat, q: seq<T>)
    requires i < |qs|
    ensures SumLen(qs[i := q]) == SumLen(qs) - |qs[i]| + |q|
  {
    if i == 0 {
      assert qs[i := q][1..] == qs[1..];
    } else {
      assert qs[i := q][1..] == qs[1..][i - 1 := q];
      SumLenUpdate(qs[1..], i - 1, q);
    }
  }

  ghost predicate Known<T>(members: set<T>, q: seq<T>) {
    NoDup(q) && Closed(members, q)
  }

  ghost predicate AllKnown<T>(members: set<T>, qs: seq<seq<T>>) {
    forall i {:trigger qs[i]} | 0 <= i < |qs| :: Known(members, qs[i])
  }

  lemma {:induction false} AllKnownUpdate<T>(members: set<T>, qs: seq<seq<T>>, k: nat, q: seq<T>)
    requires k < |qs| && AllKnown(members, qs) && Known(members, q)
    ensures AllKnown(members, qs[k := q])
  {
  }

  ghost predicate Closed<T>(members: set<T>, q: seq<T>) {
    forall e | e in q :: e in members
  }
}
