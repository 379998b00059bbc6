// What an event_base holds, as a value: the flags, the queues and the counters, and the steps that
// insert an event in one queue or remove it from one.
module EventState {
  import opened EventTime
  import opened Queues

  /** The EVLIST_* bits that change. */
  datatype Bit = InTimeout | Inserted | Active | ActiveLater

  datatype Flags = Flags(timeout: bool, inserted: bool, active: bool, later: bool, finalizing: bool)

  const NoFlags := Flags(false, false, false, false, false)

  predicate Has(f: Flags, b: Bit) {
    match b
    case InTimeout => f.timeout
    case Inserted => f.inserted
    case Active => f.active
    case ActiveLater => f.later
  }

  function Put(f: Flags, b: Bit, on: bool): Flags {
    match b
    case InTimeout => f.(timeout := on)
    case Inserted => f.(inserted := on)
    case Active => f.(active := on)
    case ActiveLater => f.(later := on)
  }

  /** The part of a struct event that changes. */
  datatype Rec = Rec(
    flags: Flags,
    timeout: Timeval,    // ev_timeout
    ioTimeout: Timeval,  // ev_io_timeout
    timedOut: bool,      // ev_res & EV_TIMEOUT
    deferred: bool)      // evcb_closure is EV_CLOSURE_CB_SELF

  function Fresh(deferred: bool): Rec {
    Rec(NoFlags, Timeval(0, 0), Timeval(0, 0), false, deferred)
  }

  class Event {
    const isEvent: bool      // EVLIST_INIT: a struct event, not a bare event_callback
    const internal: bool     // EVLIST_INTERNAL
    const io: bool           // ev_events has EV_READ, EV_WRITE, EV_CLOSED or EV_SIGNAL
    const signal: bool       // ev_events has EV_SIGNAL
    const persist: bool      // ev_events has EV_PERSIST
    const pri: nat
    var rec: Rec

    constructor (isEvent: bool, internal: bool, io: bool, signal: bool, persist: bool, deferred: bool, pri: nat)
      ensures rec == Fresh(deferred) && this.pri == pri && this.isEvent == isEvent && this.internal == internal
      ensures this.io == io && this.signal == signal && this.persist == persist
    {
      this.isEvent, this.internal, this.io, this.signal, this.persist := isEvent, internal, io, signal, persist;
      this.pri, rec := pri, Fresh(deferred);
    }

    // The closure is EV_CLOSURE_EVENT_PERSIST, as long as the event is not being finalized.
    predicate Repeats() { isEvent && persist && !signal }
  }

  datatype State = State(
    recs: map<Event, Rec>,
    heap: set<Event>,
    queues: seq<seq<Event>>,     // common_timeout_queues[i]->events
    timers: seq<Event>,          // common_timeout_queues[i]->timeout_event
    durations: seq<Timeval>,     // common_timeout_queues[i]->duration
    active: seq<seq<Event>>,
    later: seq<Event>,
    count: int,                  // event_count
    countActive: int,            // event_count_active
    deferreds: nat)              // n_deferreds_queued

  // ----- queues -----

  // TAILQ_FOREACH_REVERSE in insert_common_timeout_inorder: where `e` goes among the first `k`.
  function PosInOrder(q: seq<Event>, e: Event, at: map<Event, Rec>, k: nat): (p: nat)
    requires k <= |q| && e in at && forall x | x in q :: x in at
    ensures p <= k
    ensures p > 0 ==> !TimerLess(at[e].timeout, at[q[p - 1]].timeout)
    ensures forall i | p <= i < k :: TimerLess(at[e].timeout, at[q[i]].timeout)
  {
    if k == 0 || !TimerLess(at[e].timeout, at[q[k - 1]].timeout) then k else PosInOrder(q, e, at, k - 1)
  }

  // insert_common_timeout_inorder: behind the last event that is not due later.
  function InsertInOrder(q: seq<Event>, e: Event, at: map<Event, Rec>): seq<Event>
    requires e in at && forall x | x in q :: x in at
  {
    var p := PosInOrder(q, e, at, |q|);
    q[..p] + [e] + q[p..]
  }

  // ----- invariants -----

  /** The events that are in one kind of queue and not internal. */
  ghost function Holders(recs: map<Event, Rec>, b: Bit): set<Event> {
    set e | e in recs && !e.internal && Has(recs[e].flags, b)
  }

  /** How many queue memberships events hold that are not internal. */
  ghost function Held(recs: map<Event, Rec>): nat {
    |Holders(recs, InTimeout)| + |Holders(recs, Inserted)| + |Holders(recs, Active)| + |Holders(recs, ActiveLater)|
  }

  predicate IsCommon(s: State, r: Rec) {
    IsCommonTimeout(r.timeout, |s.queues|)
  }

  /** Each flag of `e` says which queue `e` is in. */
  ghost predicate Placed(s: State, e: Event)
    requires e in s.recs
  {
    var r := s.recs[e];
    && (e in s.heap <==> r.flags.timeout && !IsCommon(s, r))
    && (forall i {:trigger s.queues[i]} | 0 <= i < |s.queues| ::
          e in s.queues[i] <==> r.flags.timeout && IsCommon(s, r) && i == CommonIdx(r.timeout))
    && (forall i {:trigger s.active[i]} | 0 <= i < |s.active| :: e in s.active[i] <==> r.flags.active && i == e.pri)
    && e.pri < |s.active|
    && (e in s.later <==> r.flags.later)
    && !(r.flags.active && r.flags.later)
    && (r.flags.finalizing ==> !r.flags.timeout && !r.flags.inserted)
  }

  /** Flags and queues agree. */
  ghost predicate Shape(s: State) {
    && (forall e | e in s.recs :: Placed(s, e))
    && s.heap <= s.recs.Keys && Known(s.recs.Keys, s.later)
    && AllKnown(s.recs.Keys, s.queues) && AllKnown(s.recs.Keys, s.active)
  }

  /** Counters and queues agree. */
  ghost predicate Counts(s: State) {
    && s.count == Held(s.recs)
    && s.countActive == SumLen(s.active) + |s.later|
  }

  /** Common-timeout queues are in order of deadline. */
  ghost predicate Sorted(recs: map<Event, Rec>, q: seq<Event>) {
    && (forall e | e in q :: e in recs)
    && forall i, j | 0 <= i < j < |q| :: Due(recs[q[i]].timeout) <= Due(recs[q[j]].timeout)
  }

  /** `e` has joined `q` behind the first `p` events, which are not due later, and before the others, which are. */
  ghost predicate JoinedAt(q: seq<Event>, e: Event, at: map<Event, Rec>, r: seq<Event>, p: nat)
    requires e in at && forall x | x in q :: x in at
  {
    && p <= |q| && r == q[..p] + [e] + q[p..]
    && (forall i | 0 <= i < p :: Due(at[q[i]].timeout) <= Due(at[e].timeout))
    && (forall i | p <= i < |q| :: Due(at[e].timeout) < Due(at[q[i]].timeout))
  }

  /** Insertion in order keeps the order; the new event comes first only if everything else is due later. */
  lemma {:induction false} InsertInOrderFacts(q: seq<Event>, e: Event, at: map<Event, Rec>)
    requires NoDup(q) && Sorted(at, q) && e in at && e !in q
    requires forall x | x in q :: Tag(at[x].timeout) == Tag(at[e].timeout)
    ensures Joined(q, e, InsertInOrder(q, e, at)) && Sorted(at, InsertInOrder(q, e, at))
    ensures InsertInOrder(q, e, at)[0] == e <==> forall x | x in q :: Due(at[e].timeout) < Due(at[x].timeout)
    ensures exists p :: JoinedAt(q, e, at, InsertInOrder(q, e, at), p)
  {
    var k := PosInOrder(q, e, at, |q|);
    Spliced(q, e, k);
    forall i | 0 <= i < |q|
      ensures i < k ==> Due(at[q[i]].timeout) <= Due(at[e].timeout)
      ensures i >= k ==> Due(at[e].timeout) < Due(at[q[i]].timeout)
    {
      assert q[i] in q;
      SameTagCompare(at[e].timeout, at[q[i]].timeout);
      if i < k {
        assert q[k - 1] in q;
        SameTagCompare(at[e].timeout, at[q[k - 1]].timeout);
      }
    }
    SplicedSorted(q, e, at, k);
    assert JoinedAt(q, e, at, InsertInOrder(q, e, at), k);
    if k > 0 {
      assert q[0] in q && InsertInOrder(q, e, at)[0] == q[0];
    }
  }

  lemma {:induction false} SplicedSorted(q: seq<Event>, e: Event, at: map<Event, Rec>, k: nat)
    requires Sorted(at, q) && e in at && k <= |q|
    requires forall i | 0 <= i < k :: Due(at[q[i]].timeout) <= Due(at[e].timeout)
    requires forall i | k <= i < |q| :: Due(at[e].timeout) <= Due(at[q[i]].timeout)
    ensures Sorted(at, q[..k] + [e] + q[k..])
  {
    var r := q[..k] + [e] + q[k..];
    forall i, j | 0 <= i < j < |r|
      ensures Due(at[r[i]].timeout) <= Due(at[r[j]].timeout)
    {
      assert r[i] == if i < k then q[i] else if i == k then e else q[i - 1];
      assert r[j] == if j < k then q[j] else if j == k then e else q[j - 1];
    }
  }

  lemma {:induction false} Spliced(q: seq<Event>, e: Event, k: nat)
    requires NoDup(q) && e !in q && k <= |q|
    ensures Joined(q, e, q[..k] + [e] + q[k..])
  {
    var r := q[..k] + [e] + q[k..];
    assert r[k] == e;
    forall x | x in q
      ensures x in r
    {
      var j :| 0 <= j < |q| && q[j] == x;
      assert r[if j < k then j else j + 1] == x;
    }
  }

  ghost predicate Ordered(recs: map<Event, Rec>, qs: seq<seq<Event>>) {
    forall i {:trigger qs[i]} | 0 <= i < |qs| :: Sorted(recs, qs[i])
  }

  /** The queues stay in order as long as their events keep their deadlines. */
  lemma {:induction false} OrderedKept(recs: map<Event, Rec>, recs': map<Event, Rec>, qs: seq<seq<Event>>)
    requires Ordered(recs, qs)
    requires forall i, e | 0 <= i < |qs| && e in qs[i] :: e in recs' && recs'[e].timeout == recs[e].timeout
    ensures Ordered(recs', qs)
  {
    forall i | 0 <= i < |qs|
      ensures Sorted(recs', qs[i])
    {
    }
  }

  ghost predicate Ok(s: State) {
    Shape(s) && Counts(s) && Ordered(s.recs, s.queues)
  }

  // ----- steps on one queue -----

  function User(e: Event): int { if e.internal then 0 else 1 }

  // Sets or clears one flag; INCR_EVENT_COUNT and DECR_EVENT_COUNT.
  function Toggle(s: State, e: Event, b: Bit, on: bool): (t: State)
    requires e in s.recs
    ensures t.recs.Keys == s.recs.Keys
  {
    s.(recs := s.recs[e := s.recs[e].(flags := Put(s.recs[e].flags, b, on))],
       count := if on then s.count + User(e) else s.count - User(e))
  }

  lemma {:induction false} HoldersUpdate(recs: map<Event, Rec>, e: Event, r: Rec, b: Bit)
    requires e in recs
    ensures |Holders(recs[e := r], b)| == |Holders(recs, b)| +
              (if e.internal || Has(r.flags, b) == Has(recs[e].flags, b) then 0 else if Has(r.flags, b) then 1 else -1)
  {
    var before, after := Holders(recs, b), Holders(recs[e := r], b);
    var now := !e.internal && Has(r.flags, b);
    assert forall x | x != e :: x in after <==> x in before;
    assert e in after <==> now;
    assert e in before <==> !e.internal && Has(recs[e].flags, b);
    if e in before {
      assert after == if now then before else before - {e};
    } else {
      assert after == if now then before + {e} else before;
    }
  }

  lemma {:induction false} HeldToggled(s: State, e: Event, b: Bit, on: bool)
    requires e in s.recs && Has(s.recs[e].flags, b) == !on
    ensures Held(Toggle(s, e, b, on).recs) == Held(s.recs) + (if on then User(e) else -User(e))
  {
    var r := Toggle(s, e, b, on).recs[e];
    HoldersUpdate(s.recs, e, r, InTimeout);
    HoldersUpdate(s.recs, e, r, Inserted);
    HoldersUpdate(s.recs, e, r, Active);
    HoldersUpdate(s.recs, e, r, ActiveLater);
  }

  // event_queue_remove_inserted
  function RemoveInserted(s: State, e: Event): State
    requires e in s.recs
  {
    Toggle(s, e, Inserted, false)
  }

  // event_queue_insert_inserted
  function InsertInserted(s: State, e: Event): State
    requires e in s.recs
  {
    Toggle(s, e, Inserted, true)
  }

  // event_queue_remove_active
  function RemoveActive(s: State, e: Event): State
    requires e in s.recs && e.pri < |s.active|
  {
    Toggle(s, e, Active, false).(countActive := s.countActive - 1, active := s.active[e.pri := Remove(s.active[e.pri], e)])
  }

  // event_queue_insert_active
  function InsertActive(s: State, e: Event): State
    requires e in s.recs && e.pri < |s.active|
  {
    if s.recs[e].flags.active then s
    else Toggle(s, e, Active, true).(countActive := s.countActive + 1, active := s.active[e.pri := s.active[e.pri] + [e]])
  }

  // event_queue_remove_active_later
  function RemoveLater(s: State, e: Event): State
    requires e in s.recs
  {
    Toggle(s, e, ActiveLater, false).(countActive := s.countActive - 1, later := Remove(s.later, e))
  }

  // event_queue_insert_active_later
  function InsertLater(s: State, e: Event): State
    requires e in s.recs
  {
    if s.recs[e].flags.active || s.recs[e].flags.later then s
    else Toggle(s, e, ActiveLater, true).(countActive := s.countActive + 1, later := s.later + [e])
  }

  // event_queue_remove_timeout
  function RemoveTimeout(s: State, e: Event): State
    requires e in s.recs
  {
    var t := Toggle(s, e, InTimeout, false);
    if IsCommon(s, s.recs[e]) then
      var i := CommonIdx(s.recs[e].timeout);
      t.(queues := s.queues[i := Remove(s.queues[i], e)])
    else
      t.(heap := s.heap - {e})
  }

  // event_queue_insert_timeout
  function InsertTimeout(s: State, e: Event): State
    requires e in s.recs && (IsCommon(s, s.recs[e]) ==> Closed(s.recs.Keys, s.queues[CommonIdx(s.recs[e].timeout)]))
  {
    var t := Toggle(s, e, InTimeout, true);
    if IsCommon(s, s.recs[e]) then
      var i := CommonIdx(s.recs[e].timeout);
      t.(queues := s.queues[i := InsertInOrder(s.queues[i], e, s.recs)])
    else
      t.(heap := s.heap + {e})
  }

  lemma {:induction false} ToggledOrdered(s: State, e: Event, b: Bit, on: bool)
    requires Shape(s) && Ordered(s.recs, s.queues) && e in s.recs
    ensures Ordered(Toggle(s, e, b, on).recs, s.queues)
  {
    OrderedKept(s.recs, Toggle(s, e, b, on).recs, s.queues);
  }

  lemma {:induction false} ToggledInserted(s: State, e: Event, on: bool)
    requires Shape(s) && e in s.recs && (on ==> !s.recs[e].flags.finalizing)
    ensures Shape(Toggle(s, e, Inserted, on))
  {
    var t := Toggle(s, e, Inserted, on);
    forall x | x in t.recs
      ensures Placed(t, x)
    {
      assert Placed(s, x);
    }
  }

  lemma {:induction false} RemoveInsertedOk(s: State, e: Event)
    requires Ok(s) && e in s.recs && s.recs[e].flags.inserted
    ensures Ok(RemoveInserted(s, e))
  {
    ToggledInserted(s, e, false);
    HeldToggled(s, e, Inserted, false);
    ToggledOrdered(s, e, Inserted, false);
  }

  lemma {:induction false} InsertInsertedOk(s: State, e: Event)
    requires Ok(s) && e in s.recs && !s.recs[e].flags.inserted && !s.recs[e].flags.finalizing
    ensures Ok(InsertInserted(s, e))
  {
    ToggledInserted(s, e, true);
    HeldToggled(s, e, Inserted, true);
    ToggledOrdered(s, e, Inserted, true);
  }

  lemma {:induction false} RemoveActiveShape(s: State, e: Event)
    requires Shape(s) && e in s.recs && s.recs[e].flags.active
    ensures e.pri < |s.active| && Shape(RemoveActive(s, e))
  {
    assert Placed(s, e);
    RemoveFacts(s.active[e.pri], e);
    AllKnownUpdate(s.recs.Keys, s.active, e.pri, Remove(s.active[e.pri], e));
  }

  lemma {:induction false} RemoveActiveOk(s: State, e: Event)
    requires Ok(s) && e in s.recs && s.recs[e].flags.active
    ensures e.pri < |s.active| && Ok(RemoveActive(s, e))
  {
    RemoveActiveShape(s, e);
    RemoveFacts(s.active[e.pri], e);
    SumLenUpdate(s.active, e.pri, Remove(s.active[e.pri], e));
    HeldToggled(s, e, Active, false);
    ToggledOrdered(s, e, Active, false);
  }

  lemma {:induction false} InsertActiveShape(s: State, e: Event)
    requires Shape(s) && e in s.recs && !s.recs[e].flags.active && !s.recs[e].flags.later
    ensures e.pri < |s.active| && Shape(InsertActive(s, e))
  {
    assert Placed(s, e);
    AllKnownUpdate(s.recs.Keys, s.active, e.pri, s.active[e.pri] + [e]);
  }

  lemma {:induction false} InsertActiveOk(s: State, e: Event)
    requires Ok(s) && e in s.recs && !s.recs[e].flags.later
    ensures e.pri < |s.active| && Ok(InsertActive(s, e))
  {
    assert Placed(s, e);
    if !s.recs[e].flags.active {
      InsertActiveShape(s, e);
      SumLenUpdate(s.active, e.pri, s.active[e.pri] + [e]);
      HeldToggled(s, e, Active, true);
      ToggledOrdered(s, e, Active, true);
    }
  }

  lemma {:induction false} RemoveLaterShape(s: State, e: Event)
    requires Shape(s) && e in s.recs && s.recs[e].flags.later
    ensures Shape(RemoveLater(s, e))
  {
    assert Placed(s, e);
    RemoveFacts(s.later, e);
    var t := RemoveLater(s, e);
    forall x | x in t.recs
      ensures Placed(t, x)
    {
      assert Placed(s, x);
    }
  }

  lemma {:induction false} RemoveLaterOk(s: State, e: Event)
    requires Ok(s) && e in s.recs && s.recs[e].flags.later
    ensures Ok(RemoveLater(s, e))
  {
    RemoveLaterShape(s, e);
    assert Placed(s, e);
    RemoveFacts(s.later, e);
    HeldToggled(s, e, ActiveLater, false);
    ToggledOrdered(s, e, ActiveLater, false);
  }

  lemma {:induction false} InsertLaterShape(s: State, e: Event)
    requires Shape(s) && e in s.recs && !s.recs[e].flags.active && !s.recs[e].flags.later
    ensures Shape(InsertLater(s, e))
  {
    assert Placed(s, e);
    var t := InsertLater(s, e);
    forall x | x in t.recs
      ensures Placed(t, x)
    {
      assert Placed(s, x);
    }
  }

  lemma {:induction false} InsertLaterOk(s: State, e: Event)
    requires Ok(s) && e in s.recs
    ensures Ok(InsertLater(s, e))
  {
    if !s.recs[e].flags.active && !s.recs[e].flags.later {
      InsertLaterShape(s, e);
      HeldToggled(s, e, ActiveLater, true);
      ToggledOrdered(s, e, ActiveLater, true);
    }
  }

  /** One common-timeout queue is replaced by another in order. */
  lemma {:induction false} OrderedUpdate(recs: map<Event, Rec>, recs': map<Event, Rec>, qs: seq<seq<Event>>, k: nat, q: seq<Event>)
    requires k < |qs| && Ordered(recs, qs) && Sorted(recs', q)
    requires forall i, e | 0 <= i < |qs| && e in qs[i] :: e in recs' && recs'[e].timeout == recs[e].timeout
    ensures Ordered(recs', qs[k := q])
  {
    OrderedKept(recs, recs', qs);
  }

  lemma {:induction false} RemoveSorted(recs: map<Event, Rec>, q: seq<Event>, e: Event)
    requires Sorted(recs, q) && e in q
    ensures Sorted(recs, Remove(q, e))
  {
    var i := RemoveAt(q, e);
  }

  lemma {:induction false} RemoveTimeoutShape(s: State, e: Event)
    requires Shape(s) && e in s.recs && s.recs[e].flags.timeout
    ensures Shape(RemoveTimeout(s, e))
  {
    assert Placed(s, e);
    var i, t := CommonIdx(s.recs[e].timeout), RemoveTimeout(s, e);
    if IsCommon(s, s.recs[e]) {
      RemoveFacts(s.queues[i], e);
      AllKnownUpdate(s.recs.Keys, s.queues, i, Remove(s.queues[i], e));
    }
    forall x | x in t.recs
      ensures Placed(t, x)
    {
      assert Placed(s, x);
      assert forall j {:trigger t.queues[j]} | 0 <= j < |t.queues| :: j != i || !IsCommon(s, s.recs[e]) ==> t.queues[j] == s.queues[j];
    }
  }

  lemma {:induction false} RemoveTimeoutOk(s: State, e: Event)
    requires Ok(s) && e in s.recs && s.recs[e].flags.timeout
    ensures Ok(RemoveTimeout(s, e))
  {
    var t := RemoveTimeout(s, e);
    RemoveTimeoutShape(s, e);
    HeldToggled(s, e, InTimeout, false);
    if IsCommon(s, s.recs[e]) {
      var i := CommonIdx(s.recs[e].timeout);
      assert Placed(s, e);
      RemoveSorted(s.recs, s.queues[i], e);
      RemoveFacts(s.queues[i], e);
      OrderedUpdate(s.recs, t.recs, s.queues, i, Remove(s.queues[i], e));
    } else {
      OrderedKept(s.recs, t.recs, s.queues);
    }
  }

  /** The events of one common-timeout queue carry the same tag. */
  lemma {:induction false} OneTag(s: State, e: Event, x: Event)
    requires Shape(s) && e in s.recs && IsCommon(s, s.recs[e]) && x in s.queues[CommonIdx(s.recs[e].timeout)]
    ensures x in s.recs && Tag(s.recs[x].timeout) == Tag(s.recs[e].timeout)
  {
    assert Placed(s, x);
    CommonTag(s.recs[e].timeout, |s.queues|);
    CommonTag(s.recs[x].timeout, |s.queues|);
  }

  lemma {:induction false} InsertedInOrder(s: State, e: Event)
    requires Ok(s) && e in s.recs && !s.recs[e].flags.timeout && IsCommon(s, s.recs[e])
    ensures var q := s.queues[CommonIdx(s.recs[e].timeout)];
      && Joined(q, e, InsertInOrder(q, e, s.recs)) && Sorted(s.recs, InsertInOrder(q, e, s.recs))
      && (InsertInOrder(q, e, s.recs)[0] == e <==> forall x | x in q :: Due(s.recs[e].timeout) < Due(s.recs[x].timeout))
  {
    var q := s.queues[CommonIdx(s.recs[e].timeout)];
    assert Placed(s, e);
    forall x | x in q
      ensures Tag(s.recs[x].timeout) == Tag(s.recs[e].timeout)
    {
      OneTag(s, e, x);
    }
    InsertInOrderFacts(q, e, s.recs);
  }

  lemma {:induction false} InsertHeapShape(s: State, e: Event)
    requires Shape(s) && e in s.recs && !IsCommon(s, s.recs[e]) && !s.recs[e].flags.timeout && !s.recs[e].flags.finalizing
    ensures Shape(InsertTimeout(s, e))
  {
    var t := InsertTimeout(s, e);
    forall x | x in t.recs
      ensures Placed(t, x)
    {
      assert Placed(s, x);
    }
  }

  lemma {:induction false} InsertCommonShape(s: State, e: Event, i: nat, q: seq<Event>)
    requires Shape(s) && e in s.recs && IsCommon(s, s.recs[e]) && !s.recs[e].flags.timeout && !s.recs[e].flags.finalizing
    requires i == CommonIdx(s.recs[e].timeout) && Joined(s.queues[i], e, q)
    ensures Shape(Toggle(s, e, InTimeout, true).(queues := s.queues[i := q]))
  {
    assert Placed(s, e);
    AllKnownUpdate(s.recs.Keys, s.queues, i, q);
    var t := Toggle(s, e, InTimeout, true).(queues := s.queues[i := q]);
    forall x | x in t.recs
      ensures Placed(t, x)
    {
      assert Placed(s, x);
    }
  }

  lemma {:induction false} InsertTimeoutShape(s: State, e: Event)
    requires Ok(s) && e in s.recs && !s.recs[e].flags.timeout && !s.recs[e].flags.finalizing
    ensures Shape(InsertTimeout(s, e))
  {
    if IsCommon(s, s.recs[e]) {
      var i := CommonIdx(s.recs[e].timeout);
      InsertedInOrder(s, e);
      InsertCommonShape(s, e, i, InsertInOrder(s.queues[i], e, s.recs));
    } else {
      InsertHeapShape(s, e);
    }
  }

  lemma {:induction false} InsertTimeoutOk(s: State, e: Event)
    requires Ok(s) && e in s.recs && !s.recs[e].flags.timeout && !s.recs[e].flags.finalizing
    ensures Ok(InsertTimeout(s, e))
  {
    var t := InsertTimeout(s, e);
    InsertTimeoutShape(s, e);
    HeldToggled(s, e, InTimeout, true);
    if IsCommon(s, s.recs[e]) {
      var i := CommonIdx(s.recs[e].timeout);
      InsertedInOrder(s, e);
      OrderedUpdate(s.recs, t.recs, s.queues, i, InsertInOrder(s.queues[i], e, s.recs));
    } else {
      OrderedKept(s.recs, t.recs, s.queues);
    }
  }
}
