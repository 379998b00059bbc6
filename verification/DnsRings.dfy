// The request lists of an evdns_base as circular doubly linked lists, relinked in place.
module DnsRings {
  import opened Bytes
  import opened Queues
  import opened DnsRequests

  // What follows position `i` in a circle of `n`, and what precedes it.
  function Succ(i: nat, n: nat): nat { if i + 1 < n then i + 1 else 0 }
  function Pred(i: nat, n: nat): nat { if i > 0 then i - 1 else if n > 0 then n - 1 else 0 }

  /** The requests of `q` form a circle, entered at its first. */
  ghost predicate Ring(head: Request?, q: seq<Request>)
    reads *
  {
    && head == (if q == [] then null else q[0])
    && (forall i {:trigger q[i].next} | 0 <= i < |q| :: q[i].next == q[Succ(i, |q|)])
    && (forall i {:trigger q[i].prev} | 0 <= i < |q| :: q[i].prev == q[Pred(i, |q|)])
  }

  // evdns_request_insert
  method RequestInsert(req: Request, head: Request?, ghost q: seq<Request>) returns (h: Request?)
    requires Ring(head, q) && NoDup(q) && req !in q
    modifies req`next, req`prev, q`next, q`prev
    ensures Ring(h, q + [req])
  {
    if head == null {
      req.next, req.prev := req, req;
      return req;
    }
    ghost var n := |q|;
    assert head.prev == q[n - 1];
    assert q[n - 1] in q && q[0] in q;
    req.prev := head.prev;
    req.prev.next := req;
    req.next := head;
    head.prev := req;
    assert forall i | 0 <= i < n :: q[i] in q && q[i] != req;
    return head;
  }

  // Where position `i` of the circle without `k` was before.
  function Was(i: nat, k: nat): nat { if i < k then i else i + 1 }

  lemma {:induction false} CircleWithout(n: nat, k: nat, i: nat)
    requires k < n && i < n - 1
    ensures var j := Was(i, k);
      && j < n && j != k
      && Was(Succ(i, n - 1), k) == (if j == Pred(k, n) then Succ(k, n) else Succ(j, n))
      && Was(Pred(i, n - 1), k) == (if j == Succ(k, n) then Pred(k, n) else Pred(j, n))
      && (Succ(j, n) == k <==> j == Pred(k, n)) && (Pred(j, n) == k <==> j == Succ(k, n))
  {
  }

  // Takes a request that is not alone out of its circle.
  method Bypass(req: Request)
    requires req.next != null && req.prev != null && req.next != req && req.prev != req
    modifies req`next, req`prev, req.next`prev, req.prev`next
    ensures old(req.next).prev == old(req.prev) && old(req.prev).next == old(req.next)
    ensures req.next == null && req.prev == null
  {
    req.next.prev := req.prev;
    req.prev.next := req.next;
    req.next, req.prev := null, null;
  }

  // evdns_request_remove
  method RequestRemove(req: Request, head: Request?, ghost q: seq<Request>, ghost k: nat) returns (h: Request?)
    requires Ring(head, q) && NoDup(q) && k < |q| && q[k] == req
    modifies q`next, q`prev
    ensures Ring(h, q[..k] + q[k + 1..]) && req.next == null && req.prev == null
  {
    ghost var n := |q|;
    assert q[k] in q && q[Succ(k, n)] in q && q[Pred(k, n)] in q;
    assert req.next == q[Succ(k, n)] && req.prev == q[Pred(k, n)];
    if req.next == req {
      req.next, req.prev := null, null;
      return null;
    }
    h := if head == req then req.next else head;
    Bypass(req);
    forall j | 0 <= j < n && j != k
      ensures q[j].next == (if j == Pred(k, n) then q[Succ(k, n)] else q[Succ(j, n)])
      ensures q[j].prev == (if j == Succ(k, n) then q[Pred(k, n)] else q[Pred(j, n)])
    {
      assert q[j] in q && q[j] != req;
      assert j != Pred(k, n) ==> q[j] != q[Pred(k, n)];
      assert j != Succ(k, n) ==> q[j] != q[Succ(k, n)];
    }
    Closes(q, k);
  }

  /** Where a request has been bypassed, the others still form a circle. */
  lemma {:induction false} Closes(q: seq<Request>, k: nat)
    requires k < |q| && |q| > 1
    requires forall j {:trigger q[j].next} | 0 <= j < |q| && j != k ::
      q[j].next == if j == Pred(k, |q|) then q[Succ(k, |q|)] else q[Succ(j, |q|)]
    requires forall j {:trigger q[j].prev} | 0 <= j < |q| && j != k ::
      q[j].prev == if j == Succ(k, |q|) then q[Pred(k, |q|)] else q[Pred(j, |q|)]
    ensures Ring(if k == 0 then q[1] else q[0], q[..k] + q[k + 1..])
  {
    var p, n := q[..k] + q[k + 1..], |q|;
    assert forall m {:trigger p[m]} | 0 <= m < n - 1 :: p[m] == q[Was(m, k)];
    forall i | 0 <= i < n - 1
      ensures p[i].next == p[Succ(i, n - 1)] && p[i].prev == p[Pred(i, n - 1)]
    {
      CircleWithout(n, k, i);
    }
  }

  /** Several circles, each entered at its head. */
  ghost predicate Circles(heads: seq<Request?>, rings: seq<seq<Request>>)
    reads *
  {
    |heads| == |rings| && forall i {:trigger rings[i]} | 0 <= i < |rings| :: Ring(heads[i], rings[i])
  }

  /** No request is in two circles, or twice in one. */
  ghost predicate Disjoint(rings: seq<seq<Request>>) {
    && (forall i {:trigger rings[i]} | 0 <= i < |rings| :: NoDup(rings[i]))
    && forall i, j, r | 0 <= i < |rings| && 0 <= j < |rings| && i != j && r in rings[i] :: r !in rings[j]
  }

  // Inserts a request at the end of circle `i`.
  method InsertAt(req: Request, heads: seq<Request?>, i: nat, ghost rings: seq<seq<Request>>) returns (hs: seq<Request?>)
    requires Circles(heads, rings) && Disjoint(rings) && i < |heads| && !Held(rings, req)
    modifies req`next, req`prev, rings[i]`next, rings[i]`prev
    ensures Circles(hs, rings[i := rings[i] + [req]])
  {
    assert rings[i] == rings[i] && req !in rings[i];
    var h := RequestInsert(req, heads[i], rings[i]);
    hs := heads[i := h];
    forall j | 0 <= j < |rings| && j != i
      ensures Ring(heads[j], rings[j])
    {
      assert req !in rings[j];
      assert forall m | 0 <= m < |rings[j]| :: rings[j][m] in rings[j] && rings[j][m] !in rings[i];
    }
  }

  // Removes request number `k` of circle `i`.
  method RemoveFrom(req: Request, heads: seq<Request?>, i: nat, ghost rings: seq<seq<Request>>, ghost k: nat) returns (hs: seq<Request?>)
    requires Circles(heads, rings) && Disjoint(rings) && i < |heads| && k < |rings[i]| && rings[i][k] == req
    modifies rings[i]`next, rings[i]`prev
    ensures Circles(hs, rings[i := rings[i][..k] + rings[i][k + 1..]])
  {
    var h := RequestRemove(req, heads[i], rings[i], k);
    hs := heads[i := h];
    forall j | 0 <= j < |rings| && j != i
      ensures Ring(heads[j], rings[j])
    {
      assert forall m | 0 <= m < |rings[j]| :: rings[j][m] in rings[j] && rings[j][m] !in rings[i];
    }
  }

  lemma {:induction false} MovedDisjoint(rings: seq<seq<Request>>, i: nat, j: nat)
    requires Disjoint(rings) && i < |rings| && j < |rings| && i != j && rings[i] != []
    ensures var r := rings[i][0]; var mid := rings[i := rings[i][1..]];
      Disjoint(mid) && !Held(mid, r) && Disjoint(mid[j := mid[j] + [r]])
  {
    var r, mid := rings[i][0], rings[i := rings[i][1..]];
    assert NoDup(rings[i]) && NoDup(rings[j]) && r in rings[i];
    forall k | 0 <= k < |mid|
      ensures NoDup(mid[k]) && r !in mid[k] && forall x | x in mid[k] :: x in rings[k]
    {
      assert NoDup(rings[k]);
    }
  }

  // Moves the first request of circle `i` to the end of circle `j`.
  method MoveFirst(heads: seq<Request?>, i: nat, j: nat, ghost rings: seq<seq<Request>>) returns (hs: seq<Request?>)
    requires Circles(heads, rings) && Disjoint(rings) && i < |heads| && j < |heads| && i != j && rings[i] != []
    modifies rings[i]`next, rings[i]`prev, rings[j]`next, rings[j]`prev
    ensures var mid := rings[i := rings[i][1..]];
      Circles(hs, mid[j := mid[j] + [rings[i][0]]]) && Disjoint(mid[j := mid[j] + [rings[i][0]]])
  {
    MovedDisjoint(rings, i, j);
    ghost var mid := rings[i := rings[i][1..]];
    assert rings[i][..0] + rings[i][0 + 1..] == rings[i][1..];
    var req := heads[i];
    hs := RemoveFrom(req, heads, i, rings, 0);
    hs := InsertAt(req, hs, j, mid);
  }
}
