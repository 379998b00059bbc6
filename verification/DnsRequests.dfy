// The requests of an evdns_base as a value: in flight or waiting, and the counters that go with them.
module DnsRequests {
  import opened Bytes
  import opened Queues

  class Nameserver {
    var requestsInflight: int

    constructor ()
      ensures requestsInflight == 0
    {
      requestsInflight := 0;
    }
  }

  class Request {
    var id: nat                  // trans_id
    var ns: Nameserver?
    var next: Request?
    var prev: Request?

    constructor (id: nat)
      ensures this.id == id && ns == null && next == null && prev == null
    {
      this.id, ns, next, prev := id, null, null, null;
    }
  }

  datatype Rec = Rec(id: nat, ns: Nameserver?)

  datatype State = State(
    recs: map<Request, Rec>,
    rings: seq<seq<Request>>,    // req_heads, each a circular list
    waiting: seq<Request>,       // req_waiting_head
    load: map<Nameserver, int>,  // requests_inflight of each nameserver
    inflight: int,               // global_requests_inflight
    waits: int,                  // global_requests_waiting
    most: int)                   // global_max_requests_inflight

  /** The requests assigned to `x`. */
  ghost function Assigned(recs: map<Request, Rec>, x: Nameserver): set<Request> {
    set r | r in recs && recs[r].ns == x
  }

  /** A request with a nameserver is in the list that its id says; one without is waiting. */
  ghost predicate Placed(s: State, r: Request)
    requires r in s.recs && |s.rings| > 0
  {
    && (forall i {:trigger s.rings[i]} | 0 <= i < |s.rings| ::
          r in s.rings[i] <==> s.recs[r].ns != null && i == s.recs[r].id % |s.rings|)
    && (r in s.waiting <==> s.recs[r].ns == null)
    && (s.recs[r].ns != null ==> s.recs[r].ns in s.load)
  }

  ghost predicate Shape(s: State) {
    && |s.rings| > 0
    && (forall r | r in s.recs :: Placed(s, r))
    && AllKnown(s.recs.Keys, s.rings) && Known(s.recs.Keys, s.waiting)
  }

  /** The counters say how long the lists are, and how many requests each nameserver has. */
  ghost predicate Counts(s: State) {
    && s.inflight == SumLen(s.rings) && s.waits == |s.waiting|
    && forall x | x in s.load :: s.load[x] == |Assigned(s.recs, x)|
  }

  ghost predicate Ok(s: State) { Shape(s) && Counts(s) }

  // ----- steps -----

  function Bump(load: map<Nameserver, int>, x: Nameserver, n: int): map<Nameserver, int>
    requires x in load
  {
    load[x := load[x] + n]
  }

  // Puts a request in flight: evdns_request_insert and the counters.
  function Launch(s: State, r: Request, id: nat, x: Nameserver): State
    requires |s.rings| > 0 && x in s.load
  {
    var i := id % |s.rings|;
    s.(recs := s.recs[r := Rec(id, x)], rings := s.rings[i := s.rings[i] + [r]],
       load := Bump(s.load, x, 1), inflight := s.inflight + 1)
  }

  // request_submit, for a request that request_new has given a nameserver, or none
  function Submit(s: State, r: Request, id: nat, ns: Nameserver?): State
    requires |s.rings| > 0 && (ns != null ==> ns in s.load)
  {
    if ns != null then Launch(s, r, id, ns)
    else s.(recs := s.recs[r := Rec(id, null)], waiting := s.waiting + [r], waits := s.waits + 1)
  }

  // request_finished, up to the pump
  function Finish(s: State, r: Request): State
    requires |s.rings| > 0 && r in s.recs && (s.recs[r].ns != null ==> s.recs[r].ns in s.load)
  {
    var x := s.recs[r].ns;
    if x != null then
      var i := s.recs[r].id % |s.rings|;
      s.(recs := s.recs - {r}, rings := s.rings[i := Remove(s.rings[i], r)], load := Bump(s.load, x, -1), inflight := s.inflight - 1)
    else s.(recs := s.recs - {r}, waiting := Remove(s.waiting, r), waits := s.waits - 1)
  }

  // request_swap_ns
  function Swap(s: State, r: Request, ns: Nameserver?): State
    requires r in s.recs && s.recs[r].ns != null && s.recs[r].ns in s.load && (ns != null ==> ns in s.load)
  {
    var x := s.recs[r].ns;
    if ns == null || ns == x then s
    else s.(recs := s.recs[r := s.recs[r].(ns := ns)], load := Bump(Bump(s.load, x, -1), ns, 1))
  }

  // One round of evdns_requests_pump_waiting_queue: the first waiting request goes out.
  function PumpOne(s: State, id: nat, x: Nameserver): State
    requires |s.rings| > 0 && s.waiting != [] && x in s.load
  {
    Launch(s.(waiting := s.waiting[1..], waits := s.waits - 1), s.waiting[0], id, x)
  }

  lemma {:induction false} AssignedUpdate(recs: map<Request, Rec>, r: Request, c: Rec, x: Nameserver)
    ensures |Assigned(recs[r := c], x)| == |Assigned(recs, x)|
      + (if c.ns == x then 1 else 0) - (if r in recs && recs[r].ns == x then 1 else 0)
  {
    var before, after := Assigned(recs, x), Assigned(recs[r := c], x);
    if r in before {
      assert after == if c.ns == x then before else before - {r};
    } else {
      assert after == if c.ns == x then before + {r} else before;
    }
  }

  lemma {:induction false} AssignedRemove(recs: map<Request, Rec>, r: Request, x: Nameserver)
    requires r in recs
    ensures |Assigned(recs - {r}, x)| == |Assigned(recs, x)| - (if recs[r].ns == x then 1 else 0)
  {
    assert Assigned(recs - {r}, x) == Assigned(recs, x) - {r};
  }

  lemma {:induction false} LoadLaunched(s: State, r: Request, id: nat, x: Nameserver)
    requires |s.rings| > 0 && x in s.load && (r in s.recs ==> s.recs[r].ns == null)
    requires forall y | y in s.load :: s.load[y] == |Assigned(s.recs, y)|
    ensures var t := Launch(s, r, id, x); forall y | y in t.load :: t.load[y] == |Assigned(t.recs, y)|
  {
    forall y | y in s.load
      ensures Launch(s, r, id, x).load[y] == |Assigned(s.recs[r := Rec(id, x)], y)|
    {
      AssignedUpdate(s.recs, r, Rec(id, x), y);
    }
  }

  /** The same nameservers, limit and number of lists. */
  ghost predicate SameBase(s: State, t: State) {
    t.load.Keys == s.load.Keys && t.most == s.most && |t.rings| == |s.rings|
  }

  /** A request that is submitted has its id and its nameserver, or waits behind all others; no other request changes. */
  lemma {:induction false} SubmitOk(s: State, r: Request, id: nat, ns: Nameserver?)
    requires Ok(s) && r !in s.recs && (ns != null ==> ns in s.load)
    ensures var t := Submit(s, r, id, ns);
      && Ok(t) && SameBase(s, t) && t.recs == s.recs[r := Rec(id, ns)]
      && t.waiting == if ns == null then s.waiting + [r] else s.waiting
  {
    var t := Submit(s, r, id, ns);
    KnownGrows(s.recs.Keys, t.recs.Keys, s.rings);
    if ns != null {
      var i := id % |s.rings|;
      LoadLaunched(s, r, id, ns);
      AllKnownUpdate(t.recs.Keys, s.rings, i, s.rings[i] + [r]);
      SumLenUpdate(s.rings, i, s.rings[i] + [r]);
    } else {
      forall x | x in s.load
        ensures |Assigned(t.recs, x)| == s.load[x]
      {
        AssignedUpdate(s.recs, r, Rec(id, null), x);
      }
    }
  }

  lemma {:induction false} KnownGrows(a: set<Request>, b: set<Request>, qs: seq<seq<Request>>)
    requires AllKnown(a, qs) && a <= b
    ensures AllKnown(b, qs)
  {
    forall i | 0 <= i < |qs|
      ensures Known(b, qs[i])
    {
      assert Known(a, qs[i]);
    }
  }

  /** A request that changes its nameserver has the new one, and its old id and place; without a new one nothing changes. */
  lemma {:induction false} SwapOk(s: State, r: Request, ns: Nameserver?)
    requires Ok(s) && r in s.recs && s.recs[r].ns != null && (ns != null ==> ns in s.load)
    ensures s.recs[r].ns in s.load
    ensures var t := Swap(s, r, ns);
      && Ok(t) && SameBase(s, t) && t.rings == s.rings && t.waiting == s.waiting
      && t.recs == if ns == null then s.recs else s.recs[r := Rec(s.recs[r].id, ns)]
  {
    assert Placed(s, r);
    var t := Swap(s, r, ns);
    if ns != null {
      forall x | x in s.load
        ensures t.load[x] == |Assigned(t.recs, x)|
      {
        AssignedUpdate(s.recs, r, s.recs[r].(ns := ns), x);
      }
    }
  }

  lemma {:induction false} FinishShape(s: State, r: Request)
    requires Ok(s) && r in s.recs
    ensures (s.recs[r].ns != null ==> s.recs[r].ns in s.load) && Shape(Finish(s, r))
  {
    assert Placed(s, r);
    var t := Finish(s, r);
    if s.recs[r].ns != null {
      var i := s.recs[r].id % |s.rings|;
      RemoveFacts(s.rings[i], r);
    } else {
      RemoveFacts(s.waiting, r);
    }
    forall i | 0 <= i < |t.rings|
      ensures Known(t.recs.Keys, t.rings[i])
    {
      assert Known(s.recs.Keys, s.rings[i]);
    }
  }

  /** A request that is finished is gone; no other request changes, and those that wait do so in the same order. */
  lemma {:induction false} FinishOk(s: State, r: Request)
    requires Ok(s) && r in s.recs
    ensures s.recs[r].ns != null ==> s.recs[r].ns in s.load
    ensures var t := Finish(s, r);
      Ok(t) && SameBase(s, t) && t.recs == s.recs - {r} && t.waiting == if r in s.waiting then Remove(s.waiting, r) else s.waiting
  {
    FinishShape(s, r);
    assert Placed(s, r);
    var t := Finish(s, r);
    if s.recs[r].ns != null {
      var i := s.recs[r].id % |s.rings|;
      RemoveFacts(s.rings[i], r);
      SumLenUpdate(s.rings, i, Remove(s.rings[i], r));
    } else {
      RemoveFacts(s.waiting, r);
    }
    forall x | x in s.load
      ensures t.load[x] == |Assigned(t.recs, x)|
    {
      AssignedRemove(s.recs, r, x);
    }
  }

  lemma {:induction false} PumpOneOk(s: State, id: nat, x: Nameserver)
    requires Ok(s) && s.waiting != [] && x in s.load
    ensures Ok(PumpOne(s, id, x))
  {
    var r, t := s.waiting[0], PumpOne(s, id, x);
    assert r in s.waiting && Placed(s, r);
    var i := id % |s.rings|;
    AllKnownUpdate(s.recs.Keys, s.rings, i, s.rings[i] + [r]);
    SumLenUpdate(s.rings, i, s.rings[i] + [r]);
    LoadLaunched(s.(waiting := s.waiting[1..], waits := s.waits - 1), r, id, x);
    assert t.recs.Keys == s.recs.Keys;
    FirstGone(s.waiting);
  }

  lemma {:induction false} FirstGone(q: seq<Request>)
    requires q != [] && NoDup(q)
    ensures NoDup(q[1..])
    ensures forall y {:trigger y in q} {:trigger y in q[1..]} :: y in q[1..] <==> y in q && y != q[0]
  {
    assert q == [q[0]] + q[1..];
  }

  // evdns_requests_pump_waiting_queue, from round `k` on; `pick` and `ids` say what nameserver_pick and
  // transaction_id_pick return in each round
  function Pump(s: State, pick: nat -> Nameserver?, ids: nat -> nat, k: nat): State
    requires Ok(s) && forall i :: pick(i) != null ==> pick(i) in s.load
    decreases |s.waiting|
  {
    if s.inflight >= s.most || s.waits == 0 || pick(k) == null then s
    else
      PumpOneOk(s, ids(k), pick(k));
      Pump(PumpOne(s, ids(k), pick(k)), pick, ids, k + 1)
  }

  /** The `i`-th of those that waited has the id and the nameserver that were picked in round `k` + `i`. */
  ghost predicate SentAs(s: State, t: State, i: nat, pick: nat -> Nameserver?, ids: nat -> nat, k: nat) {
    && i < |s.waiting| && s.waiting[i] in t.recs
    && pick(k + i) != null && t.recs[s.waiting[i]] == Rec(ids(k + i), pick(k + i))
  }

  /** `n` requests have gone out, those that had waited longest, with what was picked for them; nothing else changed. */
  ghost predicate SentFirst(s: State, t: State, n: nat, pick: nat -> Nameserver?, ids: nat -> nat, k: nat) {
    && n <= |s.waiting| && t.waiting == s.waiting[n..] && t.inflight == s.inflight + n
    && t.recs.Keys == s.recs.Keys && t.load.Keys == s.load.Keys && t.most == s.most
    && (forall i: nat | i < n :: SentAs(s, t, i, pick, ids, k))
    && (forall r | r in s.recs && r !in s.waiting[..n] :: t.recs[r] == s.recs[r])
  }

  /** ... and the pump has stopped only because nothing waits, the limit is reached, or there is no nameserver to send to. */
  ghost predicate Pumped(s: State, t: State, n: nat, pick: nat -> Nameserver?, ids: nat -> nat, k: nat) {
    && Ok(t) && SentFirst(s, t, n, pick, ids, k)
    && (n > 0 ==> t.inflight <= s.most)
    && (t.waiting == [] || t.inflight >= s.most || pick(k + n) == null)
  }

  /**
   * The pump sends the requests that have waited longest, in order, and stops only when nothing waits, when the
   * limit is reached, which it does not exceed, or when there is no nameserver to send to.
   */
  lemma {:induction false} PumpSends(s: State, pick: nat -> Nameserver?, ids: nat -> nat, k: nat) returns (n: nat)
    requires Ok(s) && forall i :: pick(i) != null ==> pick(i) in s.load
    ensures Pumped(s, Pump(s, pick, ids, k), n, pick, ids, k)
    decreases |s.waiting|
  {
    if s.inflight >= s.most || s.waits == 0 || pick(k) == null {
      SentNone(s, pick, ids, k);
      n := 0;
    } else {
      PumpOneOk(s, ids(k), pick(k));
      var u := PumpOne(s, ids(k), pick(k));
      var m := PumpSends(u, pick, ids, k + 1);
      PumpedOneMore(s, u, Pump(u, pick, ids, k + 1), m, pick, ids, k);
      n := m + 1;
    }
  }

  lemma {:induction false} SentNone(s: State, pick: nat -> Nameserver?, ids: nat -> nat, k: nat)
    requires Ok(s)
    requires s.inflight >= s.most || s.waits == 0 || pick(k) == null
    ensures Pumped(s, s, 0, pick, ids, k)
  {
  }

  lemma {:induction false} PumpedOneMore(s: State, u: State, t: State, m: nat, pick: nat -> Nameserver?, ids: nat -> nat, k: nat)
    requires Ok(s) && s.waits != 0 && s.inflight < s.most
    requires s.waiting != [] && pick(k) != null && pick(k) in s.load && u == PumpOne(s, ids(k), pick(k))
    requires Pumped(u, t, m, pick, ids, k + 1)
    ensures Pumped(s, t, m + 1, pick, ids, k)
  {
    SentOneMore(s, u, t, m, pick, ids, k);
    assert k + 1 + m == k + (m + 1);
  }

  lemma {:induction false} SentOneMore(s: State, u: State, t: State, m: nat, pick: nat -> Nameserver?, ids: nat -> nat, k: nat)
    requires Ok(s) && s.waiting != [] && pick(k) != null && pick(k) in s.load && u == PumpOne(s, ids(k), pick(k))
    requires SentFirst(u, t, m, pick, ids, k + 1)
    ensures SentFirst(s, t, m + 1, pick, ids, k)
  {
    assert s.waiting[0] in s.waiting && Placed(s, s.waiting[0]);
    assert u.waiting[m..] == s.waiting[m + 1..];
    assert t.recs.Keys == s.recs.Keys && t.load.Keys == s.load.Keys;
    SentInOrder(s, u, t, m, pick, ids, k);
    OthersWait(s, u, t, m, pick, ids, k);
  }

  lemma {:induction false} SentInOrder(s: State, u: State, t: State, m: nat, pick: nat -> Nameserver?, ids: nat -> nat, k: nat)
    requires |s.rings| > 0 && s.waiting != [] && pick(k) != null && pick(k) in s.load && u == PumpOne(s, ids(k), pick(k))
    requires SentFirst(u, t, m, pick, ids, k + 1) && NoDup(s.waiting)
    ensures m < |s.waiting| && forall i: nat | i < m + 1 :: SentAs(s, t, i, pick, ids, k)
  {
    assert s.waiting[0] !in u.waiting[..m] by {
      assert forall j | 0 <= j < m :: u.waiting[j] == s.waiting[j + 1] && s.waiting[0] != s.waiting[j + 1];
    }
    forall i: nat | i < m + 1
      ensures SentAs(s, t, i, pick, ids, k)
    {
      if i > 0 {
        assert SentAs(u, t, i - 1, pick, ids, k + 1);
        assert s.waiting[i] == u.waiting[i - 1] && k + i == k + 1 + (i - 1);
      } else {
        assert s.waiting[0] in u.recs && u.recs[s.waiting[0]] == Rec(ids(k), pick(k));
      }
    }
  }

  lemma {:induction false} OthersWait(s: State, u: State, t: State, m: nat, pick: nat -> Nameserver?, ids: nat -> nat, k: nat)
    requires |s.rings| > 0 && s.waiting != [] && pick(k) != null && pick(k) in s.load && u == PumpOne(s, ids(k), pick(k))
    requires SentFirst(u, t, m, pick, ids, k + 1) && m < |s.waiting|
    ensures forall r | r in s.recs && r !in s.waiting[..m + 1] :: r in t.recs && t.recs[r] == s.recs[r]
  {
    assert s.waiting[..m + 1] == [s.waiting[0]] + u.waiting[..m];
    forall r | r in s.recs && r !in s.waiting[..m + 1]
      ensures r in t.recs && t.recs[r] == s.recs[r]
    {
      assert r !in u.waiting[..m] && r != s.waiting[0] && u.recs[r] == s.recs[r];
    }
  }

  // ----- evdns_base_set_max_requests_inflight -----

  // Moves the requests of one old list into the new lists.
  function Spread(q: seq<Request>, recs: map<Request, Rec>, rings: seq<seq<Request>>): seq<seq<Request>>
    requires |rings| > 0 && forall r | r in q :: r in recs
  {
    if q == [] then rings
    else
      var i := recs[q[0]].id % |rings|;
      Spread(q[1..], recs, rings[i := rings[i] + [q[0]]])
  }

  // Moves the requests of all old lists.
  function SpreadAll(olds: seq<seq<Request>>, recs: map<Request, Rec>, rings: seq<seq<Request>>): (r: seq<seq<Request>>)
    requires |rings| > 0 && forall q, r | q in olds && r in q :: r in recs
  {
    if olds == [] then rings else SpreadRings(olds[0], recs, rings); SpreadAll(olds[1..], recs, Spread(olds[0], recs, rings))
  }

  lemma {:induction false} SpreadRings(q: seq<Request>, recs: map<Request, Rec>, rings: seq<seq<Request>>)
    requires |rings| > 0 && forall r | r in q :: r in recs
    ensures |Spread(q, recs, rings)| == |rings| && SumLen(Spread(q, recs, rings)) == SumLen(rings) + |q|
    decreases |q|
  {
    if q != [] {
      var i := recs[q[0]].id % |rings|;
      SumLenUpdate(rings, i, rings[i] + [q[0]]);
      SpreadRings(q[1..], recs, rings[i := rings[i] + [q[0]]]);
    }
  }

  /** The lists hold requests of `recs`, each in the list that its id says. */
  ghost predicate Sorted(recs: map<Request, Rec>, rings: seq<seq<Request>>) {
    |rings| > 0 && forall i {:trigger rings[i]} | 0 <= i < |rings| ::
      NoDup(rings[i]) && forall r | r in rings[i] :: r in recs && recs[r].id % |rings| == i
  }

  // Whether `r` is in one of the lists.
  ghost predicate Held(rings: seq<seq<Request>>, r: Request) {
    exists i {:trigger rings[i]} :: 0 <= i < |rings| && r in rings[i]
  }

  lemma {:induction false} SpreadSorted(q: seq<Request>, recs: map<Request, Rec>, rings: seq<seq<Request>>)
    requires Sorted(recs, rings) && NoDup(q) && forall r | r in q :: r in recs && !Held(rings, r)
    ensures var out := Spread(q, recs, rings);
      && |out| == |rings| && Sorted(recs, out)
      && forall r | r in recs :: Held(out, r) <==> Held(rings, r) || r in q
    decreases |q|
  {
    if q != [] {
      var i := recs[q[0]].id % |rings|;
      var next := rings[i := rings[i] + [q[0]]];
      forall r | r in recs
        ensures Held(next, r) <==> Held(rings, r) || r == q[0]
      {
        HeldUpdate(rings, i, q[0], r);
      }
      assert Sorted(recs, next);
      assert forall r | r in q[1..] :: r in q && r != q[0];
      SpreadSorted(q[1..], recs, next);
      assert forall r | r in q :: r == q[0] || r in q[1..];
    }
  }

  lemma {:induction false} HeldUpdate(rings: seq<seq<Request>>, i: nat, x: Request, r: Request)
    requires i < |rings|
    ensures Held(rings[i := rings[i] + [x]], r) <==> Held(rings, r) || r == x
  {
    var next := rings[i := rings[i] + [x]];
    assert next[i] == rings[i] + [x];
    if Held(rings, r) {
      var k :| 0 <= k < |rings| && r in rings[k];
      assert r in next[k];
    }
    if Held(next, r) {
      var k :| 0 <= k < |next| && r in next[k];
      assert r in rings[k] || r == x;
    }
  }

  lemma {:induction false} SpreadAllSorted(olds: seq<seq<Request>>, recs: map<Request, Rec>, rings: seq<seq<Request>>)
    requires Sorted(recs, rings) && forall q, r | q in olds && r in q :: r in recs && !Held(rings, r)
    requires forall i {:trigger olds[i]} | 0 <= i < |olds| :: NoDup(olds[i])
    requires forall i, j, r | 0 <= i < j < |olds| && r in olds[i] :: r !in olds[j]
    ensures var out := SpreadAll(olds, recs, rings);
      && |out| == |rings| && Sorted(recs, out) && SumLen(out) == SumLen(rings) + SumLen(olds)
      && forall r | r in recs :: Held(out, r) <==> Held(rings, r) || Held(olds, r)
    decreases |olds|
  {
    if olds != [] {
      var q := olds[0];
      assert q in olds;
      SpreadRings(q, recs, rings);
      SpreadSorted(q, recs, rings);
      var next := Spread(q, recs, rings);
      assert forall i | 0 <= i < |olds[1..]| :: olds[1..][i] == olds[i + 1];
      SpreadAllSorted(olds[1..], recs, next);
      forall r | r in recs
        ensures Held(olds, r) <==> r in q || Held(olds[1..], r)
      {
        HeldTail(olds, r);
      }
    }
  }

  lemma {:induction false} HeldTail(olds: seq<seq<Request>>, r: Request)
    requires olds != []
    ensures Held(olds, r) <==> r in olds[0] || Held(olds[1..], r)
  {
    if Held(olds, r) {
      var k :| 0 <= k < |olds| && r in olds[k];
      assert k > 0 ==> olds[1..][k - 1] == olds[k];
    }
    if Held(olds[1..], r) {
      var k :| 0 <= k < |olds[1..]| && r in olds[1..][k];
      assert olds[k + 1] == olds[1..][k];
    }
  }

  // How many lists evdns_base_set_max_requests_inflight makes: as many as leave five requests for each of them.
  function HeadCount(most: int): (n: nat)
    ensures n > 0 && 5 * (n - 1) < Max(most, 1) <= 5 * n
  {
    (Max(most, 1) + 4) / 5
  }

  function Empties(n: nat): (qs: seq<seq<Request>>)
    ensures |qs| == n && (forall i | 0 <= i < n :: qs[i] == []) && SumLen(qs) == 0
  {
    if n == 0 then [] else [[]] + Empties(n - 1)
  }

  lemma {:induction false} RingsApart(s: State)
    requires Shape(s)
    ensures forall q, r | q in s.rings && r in q :: r in s.recs
    ensures forall i {:trigger s.rings[i]} | 0 <= i < |s.rings| :: NoDup(s.rings[i])
    ensures forall i, j, r | 0 <= i < j < |s.rings| && r in s.rings[i] :: r !in s.rings[j]
  {
    forall i | 0 <= i < |s.rings|
      ensures Known(s.recs.Keys, s.rings[i])
    {
    }
    forall i, j, r | 0 <= i < j < |s.rings| && r in s.rings[i]
      ensures r !in s.rings[j]
    {
      assert Known(s.recs.Keys, s.rings[i]) && Placed(s, r);
    }
  }

  // evdns_base_set_max_requests_inflight
  function Rehash(s: State, most: int): State
    requires Shape(s)
  {
    RingsApart(s);
    s.(rings := SpreadAll(s.rings, s.recs, Empties(HeadCount(most))), most := Max(most, 1))
  }

  /** Changing the number of lists moves every request in flight to the list where it belongs now, and loses none. */
  lemma {:induction false} RehashOk(s: State, most: int)
    requires Ok(s)
    ensures var t := Rehash(s, most);
      && Ok(t) && t.recs == s.recs && t.waiting == s.waiting && t.load == s.load
      && t.most == Max(most, 1) && |t.rings| == HeadCount(most)
  {
    RingsApart(s);
    var empties := Empties(HeadCount(most));
    SpreadAllSorted(s.rings, s.recs, empties);
    var t := Rehash(s, most);
    forall r | r in t.recs
      ensures Placed(t, r)
    {
      assert Placed(s, r);
      if Held(t.rings, r) {
        var i :| 0 <= i < |t.rings| && r in t.rings[i];
      }
      if Held(s.rings, r) {
        var i :| 0 <= i < |s.rings| && r in s.rings[i];
      }
      if s.recs[r].ns != null {
        assert r in s.rings[s.recs[r].id % |s.rings|];
      }
    }
    forall i | 0 <= i < |t.rings|
      ensures Known(t.recs.Keys, t.rings[i])
    {
    }
  }

  // ----- runs -----

  datatype Op =
    | AddServer(server: Nameserver)
    | SubmitOp(request: Request, id: nat, ns: Nameserver?)
    | FinishOp(request: Request)
    | SwapOp(request: Request, ns: Nameserver?)
    | PumpOp(id: nat, server: Nameserver)
    | RehashOp(most: int)

  predicate Allowed(s: State, op: Op) {
    match op
    case AddServer(x) => x !in s.load
    case SubmitOp(r, _, ns) => r !in s.recs && (ns != null ==> ns in s.load)
    case FinishOp(r) => r in s.recs
    case SwapOp(r, ns) => r in s.recs && s.recs[r].ns != null && (ns != null ==> ns in s.load)
    case PumpOp(_, x) => s.inflight < s.most && s.waiting != [] && x in s.load
    case RehashOp(_) => true
  }

  function Step(s: State, op: Op): State
    requires Ok(s) && Allowed(s, op)
  {
    match op
    case AddServer(x) => s.(load := s.load[x := 0])
    case SubmitOp(r, id, ns) => Submit(s, r, id, ns)
    case FinishOp(r) => FinishOk(s, r); Finish(s, r)
    case SwapOp(r, ns) => SwapOk(s, r, ns); Swap(s, r, ns)
    case PumpOp(id, x) => PumpOne(s, id, x)
    case RehashOp(most) => Rehash(s, most)
  }

  lemma {:induction false} AddServerOk(s: State, x: Nameserver)
    requires Ok(s) && x !in s.load
    ensures Ok(s.(load := s.load[x := 0]))
  {
    var t := s.(load := s.load[x := 0]);
    forall r | r in s.recs
      ensures s.recs[r].ns != x && Placed(t, r)
    {
      assert Placed(s, r);
    }
    assert Assigned(s.recs, x) == {};
  }

  lemma {:induction false} StepOk(s: State, op: Op)
    requires Ok(s) && Allowed(s, op)
    ensures Ok(Step(s, op))
  {
    match op
    case AddServer(x) => AddServerOk(s, x);
    case SubmitOp(r, id, ns) => SubmitOk(s, r, id, ns);
    case FinishOp(r) => FinishOk(s, r);
    case SwapOp(r, ns) => SwapOk(s, r, ns);
    case PumpOp(id, x) => PumpOneOk(s, id, x);
    case RehashOp(most) => RehashOk(s, most);
  }

  ghost predicate IsRun(s: State, ops: seq<Op>)
    requires Ok(s)
    decreases |ops|
  {
    ops == [] || (Allowed(s, ops[0]) && (StepOk(s, ops[0]); IsRun(Step(s, ops[0]), ops[1..])))
  }

  function After(s: State, ops: seq<Op>): State
    requires Ok(s) && IsRun(s, ops)
    decreases |ops|
  {
    if ops == [] then s
    else
      StepOk(s, ops[0]);
      After(Step(s, ops[0]), ops[1..])
  }

  /** Over every run the lists agree with the counters, of the base and of each nameserver. */
  lemma {:induction false} RunOk(s: State, ops: seq<Op>)
    requires Ok(s) && IsRun(s, ops)
    ensures Ok(After(s, ops))
    decreases |ops|
  {
    if ops != [] {
      StepOk(s, ops[0]);
      RunOk(Step(s, ops[0]), ops[1..]);
    }
  }

  lemma {:induction false} NewOk(most: int)
    ensures Ok(State(map[], Empties(HeadCount(most)), [], map[], 0, 0, Max(most, 1)))
  {
  }
}
