// struct evdns_base: its request lists and counters, and the functions that move requests between them.
module DnsBases {
  import opened Bytes
  import opened Queues
  import opened DnsRequests
  import opened DnsRings

  class EvdnsBase {
    var heads: seq<Request?>       // req_heads
    var waitingHead: Request?      // req_waiting_head
    var inflight: int              // global_requests_inflight
    var waits: int                 // global_requests_waiting
    var most: int                  // global_max_requests_inflight

    ghost var rings: seq<seq<Request>>
    ghost var waiting: seq<Request>
    ghost var requests: set<Request>
    ghost var servers: set<Nameserver>

    // A base without requests or nameservers.
    constructor (maxInflight: int)
      ensures Valid() && servers == {} && requests == {}
      ensures View() == State(map[], Empties(HeadCount(maxInflight)), [], map[], 0, 0, Max(maxInflight, 1))
    {
      heads, waitingHead := seq(HeadCount(maxInflight), i => null), null;
      inflight, waits, most := 0, 0, Max(maxInflight, 1);
      rings, waiting, requests, servers := Empties(HeadCount(maxInflight)), [], {}, {};
      new;
      NewOk(maxInflight);
    }

    // A nameserver that has no requests yet.
    method AddNameserver(x: Nameserver)
      requires Valid() && x !in servers && x.requestsInflight == 0
      modifies this`servers
      ensures Valid() && servers == old(servers) + {x} && requests == old(requests)
      ensures View() == old(View()).(load := old(Load())[x := 0])
    {
      AddServerOk(View(), x);
      ghost var s := View();
      servers := servers + {x};
      assert View() == s.(load := s.load[x := 0]);
    }

    ghost function Recs(): map<Request, Rec>
      reads this`requests, requests`id, requests`ns
    {
      map r | r in requests :: Rec(r.id, r.ns)
    }

    ghost function Load(): map<Nameserver, int>
      reads this`servers, servers
    {
      map x | x in servers :: x.requestsInflight
    }

    ghost function View(): State
      reads this, requests`id, requests`ns, servers
    {
      State(Recs(), rings, waiting, Load(), inflight, waits, most)
    }

    ghost predicate Linked()
      reads *
    {
      Circles(heads + [waitingHead], rings + [waiting])
    }

    ghost predicate Valid()
      reads *
    {
      Linked() && Ok(View())
    }

    lemma {:induction false} LinkedHeads()
      requires Linked()
      ensures |heads| == |rings|
    {
      assert |heads + [waitingHead]| == |rings + [waiting]|;
    }

    // Assigns the lists and the counters.
    method Set(hs: seq<Request?>, n: int, w: int, ghost rs: seq<seq<Request>>, ghost ws: seq<Request>, ghost all: set<Request>)
      requires |hs| > 0 && Circles(hs, rs + [ws])
      modifies this
      ensures Linked() && heads == hs[..|hs| - 1] && rings == rs && waiting == ws && requests == all
      ensures inflight == n && waits == w && most == old(most) && servers == old(servers)
    {
      heads, waitingHead := hs[..|hs| - 1], hs[|hs| - 1];
      inflight, waits := n, w;
      rings, waiting, requests := rs, ws, all;
      assert heads + [waitingHead] == hs;
    }

    // requests_inflight of a nameserver
    method Count(x: Nameserver, n: int)
      requires Linked() && x in servers
      modifies x
      ensures Linked() && Load() == Bump(old(Load()), x, n)
    {
      x.requestsInflight := x.requestsInflight + n;
    }

    // evdns_request_insert with its counter, into list `i` or, behind the last list, among the waiting
    method Enqueue(req: Request, i: nat)
      requires Linked() && Shape(View()) && i <= |heads| && req !in requests
      modifies this, req`next, req`prev, requests`next, requests`prev
      ensures Linked() && requests == old(requests) + {req} && servers == old(servers) && most == old(most)
      ensures Recs() == old(Recs())[req := Rec(req.id, req.ns)] && Load() == old(Load())
      ensures rings == (if i < |old(rings)| then old(rings)[i := old(rings)[i] + [req]] else old(rings))
      ensures waiting == (if i < |old(rings)| then old(waiting) else old(waiting) + [req])
      ensures inflight == old(inflight) + (if i < |old(rings)| then 1 else 0)
      ensures waits == old(waits) + (if i < |old(rings)| then 0 else 1)
    {
      ListsApart(View(), req);
      ghost var all: seq<seq<Request>> := rings + [waiting];
      assert |heads + [waitingHead]| == |all|;
      assert forall x | x in all[i] :: x in requests;
      var n := |heads|;
      var hs := InsertAt(req, heads + [waitingHead], i, all);
      ghost var next := all[i := all[i] + [req]];
      Replaced(rings, waiting, i, all[i] + [req]);
      Set(hs, if i < n then inflight + 1 else inflight, if i < n then waits else waits + 1, next[..n], next[n], requests + {req});
    }

    // request_submit
    method Submit(req: Request)
      requires Valid() && req !in requests && (req.ns != null ==> req.ns in servers)
      modifies this, req`next, req`prev, requests`next, requests`prev, servers
      ensures Valid() && View() == DnsRequests.Submit(old(View()), req, req.id, req.ns)
      ensures requests == old(requests) + {req} && servers == old(servers)
    {
      SubmitOk(View(), req, req.id, req.ns);
      LinkedHeads();
      Place(req);
    }

    method Place(req: Request)
      requires Linked() && Shape(View()) && |heads| == |rings| && req !in requests && (req.ns != null ==> req.ns in servers)
      modifies this, req`next, req`prev, requests`next, requests`prev, servers
      ensures Linked() && View() == DnsRequests.Submit(old(View()), req, req.id, req.ns)
      ensures requests == old(requests) + {req} && servers == old(servers)
    {
      if req.ns != null {
        Enqueue(req, req.id % |heads|);
        Count(req.ns, 1);
      } else {
        Enqueue(req, |heads|);
      }
    }

    // evdns_request_remove from list `i` or, behind the last list, from the waiting
    method PullOut(req: Request, i: nat) returns (hs: seq<Request?>, ghost rs: seq<seq<Request>>, ghost ws: seq<Request>)
      requires Linked() && Shape(View()) && |heads| == |rings| && i <= |heads| && req in requests
      requires if i < |rings| then req in rings[i] else req in waiting
      modifies requests`next, requests`prev
      ensures Circles(hs, rs + [ws])
      ensures rs == (if i < |rings| then rings[i := Remove(rings[i], req)] else rings)
      ensures ws == (if i < |rings| then waiting else Remove(waiting, req))
    {
      ListsApart(View(), req);
      ghost var all: seq<seq<Request>> := rings + [waiting];
      assert |heads + [waitingHead]| == |all|;
      assert forall x | x in all[i] :: x in requests;
      ghost var k := Queues.RemoveAt<Request>(all[i], req);
      hs := RemoveFrom(req, heads + [waitingHead], i, all, k);
      ghost var left := all[i][..k] + all[i][k + 1..];
      Replaced(rings, waiting, i, left);
      rs, ws := all[i := left][..|rings|], all[i := left][|rings|];
    }

    // The same with its counter.
    method Dequeue(req: Request, i: nat)
      requires Linked() && Shape(View()) && |heads| == |rings| && i <= |heads| && req in requests
      requires if i < |rings| then req in rings[i] else req in waiting
      modifies this, requests`next, requests`prev
      ensures Linked() && |heads| == |rings|
      ensures requests == old(requests) - {req} && servers == old(servers) && most == old(most)
      ensures Recs() == old(Recs()) - {req} && Load() == old(Load())
      ensures rings == (if i < |old(rings)| then old(rings)[i := Remove(old(rings)[i], req)] else old(rings))
      ensures waiting == (if i < |old(rings)| then old(waiting) else Remove(old(waiting), req))
      ensures inflight == old(inflight) - (if i < |old(rings)| then 1 else 0)
      ensures waits == old(waits) - (if i < |old(rings)| then 0 else 1)
    {
      var n := |heads|;
      var hs, rs, ws := PullOut(req, i);
      Set(hs, if i < n then inflight - 1 else inflight, if i < n then waits else waits - 1, rs, ws, requests - {req});
      LinkedHeads();
    }

    // request_finished, up to the pump
    method Finished(req: Request)
      requires Valid() && req in requests
      modifies this, requests`next, requests`prev, servers
      ensures Valid() && requests == old(requests) - {req} && servers == old(servers)
      ensures |old(rings)| > 0 && (req.ns != null ==> req.ns in old(servers)) && View() == Finish(old(View()), req)
    {
      FinishOk(View(), req);
      LinkedHeads();
      Unplace(req);
    }

    method Unplace(req: Request)
      requires Linked() && Shape(View()) && |heads| == |rings| && req in requests && (req.ns != null ==> req.ns in servers)
      modifies this, requests`next, requests`prev, servers
      ensures Linked() && View() == Finish(old(View()), req)
      ensures requests == old(requests) - {req} && servers == old(servers)
    {
      assert Placed(View(), req);
      if req.ns != null {
        Dequeue(req, req.id % |heads|);
        Count(req.ns, -1);
      } else {
        Dequeue(req, |heads|);
      }
    }

    // request_swap_ns
    method SwapNs(req: Request, ns: Nameserver?)
      requires Valid() && req in requests && req.ns != null && (ns != null ==> ns in servers)
      modifies req`ns, servers
      ensures old(req.ns) in old(servers) && Valid() && View() == Swap(old(View()), req, ns)
      ensures requests == old(requests) && servers == old(servers)
    {
      SwapOk(View(), req, ns);
      Reassign(req, ns);
    }

    method Reassign(req: Request, ns: Nameserver?)
      requires Linked() && req in requests && req.ns != null && req.ns in servers && (ns != null ==> ns in servers)
      modifies req`ns, servers
      ensures Linked() && View() == Swap(old(View()), req, ns)
    {
      if ns != null && req.ns != ns {
        Count(req.ns, -1);
        Count(ns, 1);
        req.ns := ns;
      }
    }

    // One round of evdns_requests_pump_waiting_queue.
    method PumpFirst(ns: Nameserver, id: nat)
      requires Valid() && waiting != [] && ns in servers
      modifies this, requests, servers
      ensures Valid() && |old(rings)| > 0 && View() == PumpOne(old(View()), id, ns)
      ensures requests == old(requests) && servers == old(servers) && most == old(most)
    {
      PumpOneOk(View(), id, ns);
      PumpIsResubmission(View(), id, ns);
      LinkedHeads();
      FirstWaits();
      FinishOk(View(), waitingHead);
      Resubmit(waitingHead, ns, id);
    }

    method Resubmit(req: Request, ns: Nameserver, id: nat)
      requires Linked() && Ok(View()) && |heads| == |rings| && req in requests && req.ns == null && ns in servers
      requires Ok(Finish(View(), req))
      modifies this, requests, servers
      ensures Linked() && View() == DnsRequests.Submit(Finish(old(View()), req), req, id, ns)
      ensures requests == old(requests) && servers == old(servers)
    {
      Unplace(req);
      Relabel(req, ns, id);
      LinkedHeads();
      Place(req);
    }

    lemma {:induction false} FirstWaits()
      requires Linked() && Shape(View()) && waiting != []
      ensures waitingHead == waiting[0] && waitingHead in requests && waitingHead.ns == null
    {
      var all := rings + [waiting];
      assert |heads + [waitingHead]| == |all| && all[|rings|] == waiting;
      assert Ring((heads + [waitingHead])[|rings|], all[|rings|]);
      assert waiting[0] in waiting;
      assert Known(View().recs.Keys, waiting) && Placed(View(), waiting[0]);
    }

    method Relabel(req: Request, ns: Nameserver, id: nat)
      requires Linked() && Ok(View()) && req !in requests
      modifies req`ns, req`id
      ensures Linked() && View() == old(View()) && req.ns == ns && req.id == id
    {
      req.ns, req.id := ns, id;
    }

    // evdns_requests_pump_waiting_queue
    method PumpWaiting(pick: nat -> Nameserver?, ids: nat -> nat)
      requires Valid() && forall i :: pick(i) != null ==> pick(i) in servers
      modifies this, requests, servers
      ensures Valid() && requests == old(requests) && servers == old(servers) && most == old(most)
      ensures View() == Pump(old(View()), pick, ids, 0)
    {
      var i: nat := 0;
      while inflight < most && waits > 0
        invariant Valid() && requests == old(requests) && servers == old(servers) && most == old(most)
        invariant Pump(View(), pick, ids, i) == Pump(old(View()), pick, ids, 0)
        decreases waits
      {
        var ns := pick(i);
        if ns == null {
          return;
        }
        PumpFirst(ns, ids(i));
        i := i + 1;
      }
    }

    // request_finished
    method RequestFinished(req: Request, pick: nat -> Nameserver?, ids: nat -> nat)
      requires Valid() && req in requests && forall i :: pick(i) != null ==> pick(i) in servers
      modifies this, requests, servers
      ensures Valid() && requests == old(requests) - {req} && servers == old(servers)
      ensures |old(rings)| > 0 && (old(req.ns) != null ==> old(req.ns) in servers)
      ensures Ok(Finish(old(View()), req)) && View() == Pump(Finish(old(View()), req), pick, ids, 0)
    {
      FinishOk(View(), req);
      Finished(req);
      PumpWaiting(pick, ids);
    }

    // The inner loop of evdns_base_set_max_requests_inflight: empties old list `i` into the `m` new lists, which
    // come behind the `n` old ones and the list of those that wait.
    method EmptyList(heads0: seq<Request?>, i: nat, n: nat, m: nat, ghost rings0: seq<seq<Request>>)
      returns (hs: seq<Request?>, ghost rs: seq<seq<Request>>)
      requires i < n && m > 0 && |rings0| == n + 1 + m && Circles(heads0, rings0) && Disjoint(rings0)
      requires forall q, r | q in rings0 && r in q :: r in requests
      modifies requests`next, requests`prev
      ensures |rs| == n + 1 + m && Circles(hs, rs) && Disjoint(rs) && (forall q, r | q in rs && r in q :: r in requests)
      ensures rs[i] == [] && (forall k | 0 <= k <= n && k != i :: rs[k] == rings0[k])
      ensures (assert rings0[i] in rings0; rs[n + 1..] == Spread(rings0[i], Recs(), rings0[n + 1..]))
    {
      hs, rs := heads0, rings0;
      assert rings0[i] in rings0;
      while hs[i] != null
        invariant |rs| == n + 1 + m && Circles(hs, rs) && Disjoint(rs) && (forall q, r | q in rs && r in q :: r in requests)
        invariant forall k | 0 <= k <= n && k != i :: rs[k] == rings0[k]
        invariant Spread(rs[i], Recs(), rs[n + 1..]) == Spread(rings0[i], Recs(), rings0[n + 1..])
        decreases |rs[i]|
      {
        hs, rs := MoveOne(hs, i, n, m, rs);
      }
    }

    method MoveOne(heads0: seq<Request?>, i: nat, n: nat, m: nat, ghost rings0: seq<seq<Request>>)
      returns (hs: seq<Request?>, ghost rs: seq<seq<Request>>)
      requires i < n && m > 0 && |rings0| == n + 1 + m && Circles(heads0, rings0) && Disjoint(rings0) && heads0[i] != null
      requires forall q, r | q in rings0 && r in q :: r in requests
      modifies requests`next, requests`prev
      ensures |rs| == n + 1 + m && Circles(hs, rs) && Disjoint(rs) && (forall q, r | q in rs && r in q :: r in requests)
      ensures |rs[i]| < |rings0[i]| && forall k | 0 <= k <= n && k != i :: rs[k] == rings0[k]
      ensures (assert rings0[i] in rings0 && rs[i] in rs;
        Spread(rs[i], Recs(), rs[n + 1..]) == Spread(rings0[i], Recs(), rings0[n + 1..]))
    {
      assert Ring(heads0[i], rings0[i]);
      var req: Request := heads0[i];
      assert req in rings0[i] && rings0[i] in rings0;
      var k := req.id % m;
      var j := n + 1 + k;
      ghost var mid := rings0[i := rings0[i][1..]];
      rs := mid[j := mid[j] + [req]];
      forall x | 0 <= x < |rings0|
        ensures forall r | r in rings0[x] :: r in requests
      {
        assert rings0[x] in rings0;
      }
      hs := MoveFirst(heads0, i, j, rings0);
      assert rs[n + 1..] == rings0[n + 1..][k := rings0[n + 1..][k] + [req]];
      forall q, r | q in rs && r in q
        ensures r in requests
      {
        var x :| 0 <= x < |rs| && rs[x] == q;
        assert r in rings0[x] || r == req;
      }
    }

    // evdns_base_set_max_requests_inflight
    method SetMaxRequestsInflight(maxInflight: int)
      requires Valid()
      modifies this, requests`next, requests`prev
      ensures Valid() && View() == Rehash(old(View()), maxInflight)
    {
      LinkedHeads();
      RehashOk(View(), maxInflight);
      Redistribute(maxInflight);
    }

    method Redistribute(maxInflight: int)
      requires Linked() && Shape(View()) && |heads| == |rings|
      modifies this, requests`next, requests`prev
      ensures Linked() && View() == Rehash(old(View()), maxInflight)
    {
      RingsApart(View());
      var n, m := |heads|, HeadCount(maxInflight);
      var hs, rs := AllLists(m);
      hs, rs := EmptyAll(hs, n, m, rs);
      Adopt(hs, n, m, Max(maxInflight, 1), rs);
    }

    // The outer loop of evdns_base_set_max_requests_inflight.
    method EmptyAll(heads0: seq<Request?>, n: nat, m: nat, ghost rings0: seq<seq<Request>>)
      returns (hs: seq<Request?>, ghost rs: seq<seq<Request>>)
      requires m > 0 && n == |rings| && rings0 == rings + [waiting] + Empties(m) && Circles(heads0, rings0) && Disjoint(rings0)
      requires forall q, r | q in rings0 && r in q :: r in requests
      requires forall q, r | q in rings && r in q :: r in Recs()
      modifies requests`next, requests`prev
      ensures |rs| == n + 1 + m && Circles(hs, rs) && rs[n] == waiting
      ensures rs[n + 1..] == SpreadAll(rings, Recs(), Empties(m))
    {
      hs, rs := heads0, rings0;
      assert rs[n + 1..] == Empties(m) && rings[0..] == rings;
      for i := 0 to n
        invariant |rs| == n + 1 + m && Circles(hs, rs) && Disjoint(rs)
        invariant forall q, r | q in rs && r in q :: r in requests
        invariant forall k | i <= k <= n :: rs[k] == rings0[k]
        invariant forall q, r | q in rings[i..] && r in q :: r in Recs()
        invariant SpreadAll(rings[i..], Recs(), rs[n + 1..]) == SpreadAll(rings, Recs(), Empties(m))
      {
        assert rings[i..][1..] == rings[i + 1..] && rings[i..][0] == rs[i] && rs[i] in rs;
        assert forall q | q in rings[i + 1..] :: q in rings[i..];
        SpreadRings(rings[i], Recs(), rs[n + 1..]);
        hs, rs := EmptyList(hs, i, n, m, rs);
      }
    }

    // The lists of the base, with `m` empty ones behind them.
    method AllLists(m: nat) returns (hs: seq<Request?>, ghost rs: seq<seq<Request>>)
      requires Linked() && Shape(View())
      ensures rs == rings + [waiting] + Empties(m) && Circles(hs, rs) && Disjoint(rs)
      ensures forall q, r | q in rs && r in q :: r in requests
    {
      hs := heads + [waitingHead] + seq(m, i => null);
      rs := rings + [waiting] + Empties(m);
      if requests != {} {
        var x :| x in requests;
        ListsApart(View(), x);
      }
    }

    // Takes the new lists in place of the old ones.
    method Adopt(hs: seq<Request?>, n: nat, m: nat, limit: int, ghost rs: seq<seq<Request>>)
      requires |rs| == n + 1 + m && Circles(hs, rs) && rs[n] == waiting
      modifies this`heads, this`waitingHead, this`rings, this`most
      ensures Linked() && rings == rs[n + 1..] && most == limit
    {
      heads, waitingHead, most := hs[n + 1..], hs[n], limit;
      rings := rs[n + 1..];
    }
  }

  lemma {:induction false} Replaced(rings: seq<seq<Request>>, waiting: seq<Request>, i: nat, q: seq<Request>)
    requires i <= |rings|
    ensures var next := (rings + [waiting])[i := q]; var n := |rings|;
      && next == next[..n] + [next[n]]
      && next[..n] == (if i < n then rings[i := q] else rings) && next[n] == (if i < n then waiting else q)
  {
  }

  /** Pumping a request takes it out of the base and submits it again, with a nameserver. */
  lemma {:induction false} PumpIsResubmission(s: State, id: nat, ns: Nameserver)
    requires Ok(s) && s.waiting != [] && ns in s.load
    ensures s.waiting[0] in s.recs && s.recs[s.waiting[0]].ns == null
    ensures PumpOne(s, id, ns) == DnsRequests.Submit(Finish(s, s.waiting[0]), s.waiting[0], id, ns)
  {
    var r := s.waiting[0];
    assert r in s.waiting;
    assert Known(s.recs.Keys, s.waiting) && Placed(s, r);
    assert (s.recs - {r})[r := Rec(id, ns)] == s.recs[r := Rec(id, ns)];
  }

  /** The lists of a base share no request, and a request that is not in the base is in none of them. */
  lemma {:induction false} ListsApart(s: State, r: Request)
    requires Shape(s)
    ensures Disjoint(s.rings + [s.waiting])
    ensures r !in s.recs ==> !Held(s.rings + [s.waiting], r)
    ensures forall i, x | 0 <= i <= |s.rings| && x in (s.rings + [s.waiting])[i] :: x in s.recs
  {
    var all, n := s.rings + [s.waiting], |s.rings|;
    forall i | 0 <= i <= n
      ensures Known(s.recs.Keys, all[i])
    {
      if i < n {
        assert Known(s.recs.Keys, s.rings[i]);
      }
    }
    forall i, j, x | 0 <= i <= n && 0 <= j <= n && i != j && x in all[i]
      ensures x !in all[j]
    {
      assert Known(s.recs.Keys, all[i]) && Placed(s, x);
      assert i < n ==> x in s.rings[i];
      assert j < n ==> (x in all[j] <==> x in s.rings[j]);
    }
  }
}
