// What the functions of event.c do, told event by event: which events change, and what becomes of them.
module EventEffects {
  import opened Bytes
  import opened EventTime
  import opened EventState
  import opened Queues
  import opened EventSteps
  import opened EventTimers
  import opened EventDue
  import opened EventRuns

  // ----- the order of the queues -----

  /** An event is activated behind all that are active in its priority, and leaves the queue in which it waited. */
  lemma {:induction false} ActivatedLast(s: State, e: Event, timedOut: bool)
    requires e in s.recs && e.pri < |s.active| && !(s.recs[e].flags.active && s.recs[e].flags.later)
    ensures var f := s.recs[e].flags; var stays := f.finalizing || f.active;
      var active := if stays then s.active else s.active[e.pri := s.active[e.pri] + [e]];
      var later := if !stays && f.later then Remove(s.later, e) else s.later;
      && Activate(s, e, timedOut).active == CallbackActivate(s, e).0.active == active
      && Activate(s, e, timedOut).later == CallbackActivate(s, e).0.later == later
  {
  }

  /** An event that has to wait does so behind all others that wait. */
  lemma {:induction false} WaitsLast(s: State, e: Event, timedOut: bool)
    requires e in s.recs
    ensures var f := s.recs[e].flags; var later := if f.active || f.later then s.later else s.later + [e];
      && ActivateLater(s, e, timedOut).later == CallbackActivateLater(s, e).0.later == later
      && ActivateLater(s, e, timedOut).active == CallbackActivateLater(s, e).0.active == s.active
  {
  }

  /** Deletion leaves the others in their order. */
  lemma {:induction false} DelKeepsOrder(s: State, e: Event)
    requires e in s.recs && e.pri < |s.active| && !(s.recs[e].flags.active && s.recs[e].flags.later) && !s.recs[e].flags.finalizing
    ensures var t := Del(s, e, false); var f := s.recs[e].flags;
      && t.active == (if f.active then s.active[e.pri := Remove(s.active[e.pri], e)] else s.active)
      && t.later == (if f.later then Remove(s.later, e) else s.later)
      && t.heap == (if f.timeout && !IsCommon(s, s.recs[e]) then s.heap - {e} else s.heap)
  {
    NoTimeoutEffect(s, e);
  }

  // ----- effects -----

  /** Of all events but the timers of common timeouts, only `e` may have changed. */
  ghost predicate ChangesOnly(s: State, t: State, e: Event) {
    SameBase(s, t) && forall x | x in s.recs && x !in s.timers && x != e :: t.recs[x] == s.recs[x]
  }

  lemma {:induction false} ScheduleEffect(s: State, k: nat, now: Timeval)
    requires k < |s.queues| && InvBut(s, k) && s.queues[k] != [] && Plain(now)
    ensures var t := Schedule(s, k, now);
      SameBase(s, t) && forall x | x in s.recs && x != s.timers[k] :: t.recs[x] == s.recs[x]
  {
    ScheduleInv(s, k, now);
    TimedEffect(s, s.timers[k], Strip(s.recs[s.queues[k][0]].timeout), true, now);
  }

  lemma {:induction false} ScheduleArms(s: State, k: nat, now: Timeval)
    requires k < |s.queues| && InvBut(s, k) && s.queues[k] != [] && Plain(now)
    ensures var t, m, h := Schedule(s, k, now), s.timers[k], s.queues[k][0];
      SameBase(s, t) && m in t.recs && h in s.recs && t.recs[m].flags.timeout && t.recs[m].timeout == Strip(s.recs[h].timeout)
  {
    ScheduleInv(s, k, now);
    TimedEffect(s, s.timers[k], Strip(s.recs[s.queues[k][0]].timeout), true, now);
  }

  /** A timer of the base is in the heap, and never in a common-timeout queue. */
  lemma {:induction false} ScheduleQueues(s: State, k: nat, now: Timeval)
    requires k < |s.queues| && InvBut(s, k) && s.queues[k] != [] && Plain(now)
    ensures Schedule(s, k, now).queues == s.queues
  {
    ScheduleInv(s, k, now);
    var m, tv := s.timers[k], Strip(s.recs[s.queues[k][0]].timeout);
    assert IsTimer(s, m);
    PlainNotCommon(tv, |s.queues|);
    ClearedEffect(s, m, tv, true);
    ClearedOk(s, m, tv, true);
  }

  /**
   * After its callback, the timer of a common timeout is pending for exactly the deadline of the first event that is
   * left, and not pending at all if none is.
   */
  lemma {:induction false} RunTimerSchedules(s: State, k: nat, now: Timeval)
    requires Inv(s) && k < |s.timers| && Plain(now)
    ensures var t, m := RunTimer(s, k, now), s.timers[k];
      && m in t.recs && k < |t.queues| && (t.queues[k] == [] <==> !t.recs[m].flags.timeout)
      && (t.queues[k] != [] ==> t.queues[k][0] in t.recs && t.recs[m].timeout == Strip(t.recs[t.queues[k][0]].timeout))
  {
    var m := s.timers[k];
    TimerRemoved(s, k);
    var s1 := Del(s, m, false);
    DrainEffect(s1, k, now);
    var s2 := Drain(s1, k, now);
    NotQueued(s1, m, k, k);
    if s2.queues[k] != [] {
      ScheduleEffect(s2, k, now);
      ScheduleArms(s2, k, now);
      ScheduleQueues(s2, k, now);
      NotQueued(s2, m, k, k);
    }
  }

  lemma {:induction false} NotQueued(s: State, m: Event, i: nat, k: nat)
    requires InvBut(s, k) && m in s.timers && i < |s.queues|
    ensures m !in s.queues[i]
  {
    assert IsTimer(s, m) && Placed(s, m);
  }

  lemma {:induction false} ThenSchedule(s: State, t: State, e: Event, k: nat, now: Timeval)
    requires k < |t.queues| && InvBut(t, k) && t.queues[k] != [] && Plain(now)
    requires ChangesOnly(s, t, e) && e in s.recs && e !in s.timers
    ensures var u := Schedule(t, k, now); ChangesOnly(s, u, e) && u.recs[e] == t.recs[e]
  {
    ScheduleEffect(t, k, now);
    assert t.timers[k] in s.timers;
  }

  lemma {:induction false} TimedChangesOnly(s: State, e: Event, tv: Timeval, absolute: bool, now: Timeval)
    requires Inv(s) && e !in s.timers && MayTime(s, e, tv, absolute, now)
    ensures var t := Timed(s, e, tv, absolute, now);
      ChangesOnly(s, t, e) && t.recs[e] == Armed(s.recs[e], e, tv, absolute, now, |s.queues|)
  {
    TimedEffect(s, e, tv, absolute, now);
  }

  lemma {:induction false} AddTimeoutEffect(s: State, e: Event, tv: Timeval, absolute: bool, now: Timeval)
    requires Inv(s) && e !in s.timers && MayTime(s, e, tv, absolute, now)
    ensures var t := AddTimeout(s, e, tv, absolute, now);
      ChangesOnly(s, t, e) && t.recs[e] == Armed(s.recs[e], e, tv, absolute, now, |s.queues|)
  {
    TimedInv(s, e, tv, absolute, now);
    TimedChangesOnly(s, e, tv, absolute, now);
    var t, k := Timed(s, e, tv, absolute, now), CommonIdx(tv);
    if IsCommonTimeout(tv, |s.queues|) && FirstIs(t.queues[k], e) {
      ThenSchedule(s, t, e, k, now);
    }
  }

  /** The event is due at `moment`, in microseconds, in the heap or in the queue that `tv` names. */
  ghost predicate DueAt(r: Rec, moment: int, tv: Timeval, n: nat) {
    && r.flags.timeout && Strip(r.timeout).usec < MILLION && Micros(Strip(r.timeout)) == moment
    && (IsCommonTimeout(r.timeout, n) <==> IsCommonTimeout(tv, n))
    && (IsCommonTimeout(tv, n) ==> CommonIdx(r.timeout) == CommonIdx(tv))
  }

  /** What a successful event_add_nolock_ makes of the record. */
  ghost predicate Added(r: Rec, r': Rec, e: Event, tv: Option<Timeval>, absolute: bool, now: Timeval, n: nat) {
    && r'.flags.inserted == (r.flags.inserted || (e.io && !r.flags.active && !r.flags.later))
    && (if tv.Some? then DueAt(r', Micros(Strip(tv.value)) + if absolute then 0 else Micros(now), tv.value, n)
        else r'.flags.timeout == r.flags.timeout && r'.timeout == r.timeout)
    && r'.flags.active == (r.flags.active && !(tv.Some? && r.timedOut))
    && r'.flags.later == r.flags.later && r'.flags.finalizing == r.flags.finalizing
    && r'.ioTimeout == (if tv.Some? && e.Repeats() && !absolute then tv.value else r.ioTimeout)
    && r'.timedOut == r.timedOut && r'.deferred == r.deferred
  }

  lemma {:induction false} ArmedIsAdded(r: Rec, e: Event, tv: Timeval, absolute: bool, now: Timeval, n: nat)
    requires Plain(now) && if absolute then Tidy(tv, n) else Proper(tv, n)
    ensures var i := r.(flags := r.flags.(inserted := r.flags.inserted || NeedsMap(r, e)));
      Added(r, Armed(i, e, tv, absolute, now, n), e, Some(tv), absolute, now, n)
  {
    DeadlineFacts(tv, absolute, now, n);
  }

  /**
   * Adding succeeds exactly if the event is not being finalized and the map takes it. Then the event is inserted
   * if it had to be, and, given a timeout, due that long after now or at that time, with an earlier timeout
   * forgotten. No other event changes.
   */
  lemma {:induction false} AddEffect(s: State, e: Event, tv: Option<Timeval>, absolute: bool, now: Timeval, mapOk: bool)
    requires Inv(s) && IsUser(s, e) && e.isEvent && Plain(now) && (tv.Some? ==> GoodTimeout(s, e, tv.value, absolute))
    ensures var (t, res) := Add(s, e, tv, absolute, now, mapOk); var r := s.recs[e];
      && ChangesOnly(s, t, e)
      && (res == 0 <==> !r.flags.finalizing && (mapOk || !e.io || r.flags.inserted || r.flags.active || r.flags.later))
      && (res == 0 ==> Added(r, t.recs[e], e, tv, absolute, now, |s.queues|))
  {
    if !s.recs[e].flags.finalizing && (NeedsMap(s.recs[e], e) ==> mapOk) {
      InsertedFirstInv(s, e);
      if tv.Some? {
        AddTimeoutAdded(s, InsertedFirst(s, e), e, tv.value, absolute, now);
      }
    }
  }

  lemma {:induction false} AddTimeoutAdded(s: State, t: State, e: Event, tv: Timeval, absolute: bool, now: Timeval)
    requires e in s.recs && e !in s.timers && Inv(t) && MayTime(t, e, tv, absolute, now)
    requires var r := s.recs[e]; Sets(s, t, e, r.(flags := r.flags.(inserted := r.flags.inserted || NeedsMap(r, e))))
    ensures var u := AddTimeout(t, e, tv, absolute, now);
      ChangesOnly(s, u, e) && Added(s.recs[e], u.recs[e], e, Some(tv), absolute, now, |s.queues|)
  {
    AddTimeoutEffect(t, e, tv, absolute, now);
    ArmedIsAdded(s.recs[e], e, tv, absolute, now, |s.queues|);
  }

  /** The event is periodic, and not being finalized. */
  predicate Reschedules(r: Rec, e: Event) {
    e.isEvent && e.persist && !e.signal && !r.flags.finalizing && r.ioTimeout != Timeval(0, 0)
  }

  /** The event is inserted if it has to be, and due again. */
  ghost predicate Rescheduled(r: Rec, r': Rec, e: Event, now: Timeval, n: nat) {
    && DueAt(r', NextRun(r, now), r.timeout, n)
    && r' == r.(flags := r.flags.(timeout := true, inserted := r.flags.inserted || e.io), timeout := r'.timeout)
  }

  lemma {:induction false} ClosureEffect(s: State, e: Event, now: Timeval, mapOk: bool)
    requires Inv(s) && IsUser(s, e) && Plain(now) && !s.recs[e].flags.active && !s.recs[e].flags.later
    ensures var t := Closure(s, e, now, mapOk); var r := s.recs[e];
      && ChangesOnly(s, t, e)
      && (if Reschedules(r, e) && (mapOk || !e.io || r.flags.inserted) then Rescheduled(r, t.recs[e], e, now, |s.queues|) else t == s)
  {
    var r := s.recs[e];
    if Reschedules(r, e) {
      assert Clean(r, e, |s.queues|);
      RunAtFacts(r, now, |s.queues|);
      AddEffect(s, e, Some(RunAt(r, now, |s.queues|)), true, now, mapOk);
      AddInv(s, e, Some(RunAt(r, now, |s.queues|)), true, now, mapOk);
      SameTag(RunAt(r, now, |s.queues|), r.timeout, |s.queues|);
    }
  }

  lemma {:induction false} SameTag(a: Timeval, b: Timeval, n: nat)
    requires Tag(a) == Tag(b)
    ensures IsCommonTimeout(a, n) == IsCommonTimeout(b, n) && CommonIdx(a) == CommonIdx(b)
  {
    assert Tag(a) == MICROSECONDS * (a.usec / MICROSECONDS) && Tag(b) == MICROSECONDS * (b.usec / MICROSECONDS);
    assert a.usec / MICROSECONDS == b.usec / MICROSECONDS;
    assert a.usec / COMMON_TIMEOUT_UNIT == a.usec / MICROSECONDS / 256;
    assert b.usec / COMMON_TIMEOUT_UNIT == b.usec / MICROSECONDS / 256;
  }

  lemma {:induction false} DequeueEffect(s: State, e: Event)
    requires Inv(s) && IsUser(s, e) && s.recs[e].flags.active
    ensures var t := Dequeue(s, e); var r := s.recs[e];
      && SameBase(s, t) && t.recs == s.recs[e := r.(flags :=
           if e.isEvent && !e.persist && !r.flags.finalizing then NoFlags else r.flags.(active := false))]
  {
    if e.isEvent && !e.persist && !s.recs[e].flags.finalizing {
      DelEffect(s, e, false);
    } else {
      DequeuedEffect(s, e);
    }
  }

  /** What becomes of the record of an event whose callback runs. */
  ghost predicate Processed(r: Rec, r': Rec, e: Event, now: Timeval, mapOk: bool, n: nat) {
    var off := r.(flags := if e.isEvent && !e.persist && !r.flags.finalizing then NoFlags else r.flags.(active := false));
    if Reschedules(off, e) && (mapOk || !e.io || r.flags.inserted) then Rescheduled(off, r', e, now, n) else r' == off
  }

  lemma {:induction false} DequeuedThenClosure(s: State, e: Event, now: Timeval, mapOk: bool)
    requires Inv(s) && IsUser(s, e) && s.recs[e].flags.active && Plain(now)
    ensures Inv(Dequeue(s, e)) && IsUser(Dequeue(s, e), e)
    ensures var t := Closure(Dequeue(s, e), e, now, mapOk);
      ChangesOnly(s, t, e) && Processed(s.recs[e], t.recs[e], e, now, mapOk, |s.queues|)
  {
    DequeueInv(s, e);
    DequeueEffect(s, e);
    ClosureEffect(Dequeue(s, e), e, now, mapOk);
  }

  /**
   * The first event of an active queue, if it is not a timer of the base, is not active any more when its callback
   * runs: out of every queue if it does not persist, and due again one interval later if it is periodic. No other
   * event changes.
   */
  lemma {:induction false} ProcessEffect(s: State, p: nat, now: Timeval, mapOk: bool)
    requires Inv(s) && p < |s.active| && s.active[p] != [] && Plain(now) && s.active[p][0] !in s.timers
    ensures var e := s.active[p][0]; var t := Process(s, p, now, mapOk);
      && e in s.recs && ChangesOnly(s, t, e)
      && Processed(s.recs[e], t.recs[e], e, now, mapOk, |s.queues|)
  {
    FirstActive(s, p);
    Users(s, s.active[p][0]);
    DequeuedThenClosure(s, s.active[p][0], now, mapOk);
  }

  /** Removing a timer forgets the timeout and the interval, and nothing else. */
  lemma {:induction false} RemoveTimerEffect(s: State, e: Event)
    requires e in s.recs
    ensures var r := s.recs[e];
      Sets(s, RemoveTimer(s, e), e,
           if r.flags.timeout then r.(flags := r.flags.(timeout := false), ioTimeout := Timeval(0, 0)) else r)
  {
    var r := s.recs[e];
    if r.flags.timeout {
      var t, r0 := NoTimeout(s, e), r.(flags := r.flags.(timeout := false));
      NoTimeoutEffect(s, e);
      SetsAgain(s, t, RemoveTimer(s, e), e, r0, r0.(ioTimeout := Timeval(0, 0)));
    } else {
      assert s.recs[e := r] == s.recs;
    }
  }

  /**
   * A periodic event keeps its pace: added at `now` with an interval, activated by its timeout and run at `later`, it is
   * due next two intervals after `now`, unless this is past; then it is due one interval after `later`.
   */
  lemma {:induction false} KeepsPace(r: Rec, r': Rec, e: Event, tv: Timeval, now: Timeval, later: Timeval, n: nat)
    requires Added(r, r', e, Some(tv), false, now, n) && e.Repeats()
    ensures var interval := Micros(Strip(tv)); var second := Micros(now) + 2 * interval;
      NextRun(Fired(r'), later) == if second < Micros(later) then Micros(later) + interval else second
  {
  }

  /** Being finalized: in no queue but the active one, and not deferred any more; twice makes no difference. */
  function Finalized(r: Rec): Rec {
    r.(flags := if r.flags.finalizing then r.flags else NoFlags.(active := true, finalizing := true), deferred := false)
  }

  /** Finalizing an event takes it out of everything and makes it active once more, for its finalizer. */
  lemma {:induction false} FinalizeEffect(s: State, e: Event)
    requires Inv(s) && IsUser(s, e)
    ensures var t := Finalize(s, e);
      && ChangesOnly(s, t, e)
      && t.recs[e] == Finalized(s.recs[e].(timedOut := s.recs[e].timedOut && s.recs[e].flags.finalizing))
  {
    DelEffect(s, e, false);
    ActivateEffect(Del(s, e, false), e, false);
  }

  /** Cancelling a callback takes it out of every queue, unless it is finalizing. */
  lemma {:induction false} CancelEffect(s: State, e: Event, evenIfFinalizing: bool)
    requires Inv(s) && IsUser(s, e)
    ensures var t := Cancel(s, e, evenIfFinalizing);
      SameBase(s, t) && t.recs == s.recs[e := Deleted(s.recs[e], evenIfFinalizing)]
  {
    if e.isEvent || (s.recs[e].flags.finalizing && !evenIfFinalizing) {
      DelEffect(s, e, evenIfFinalizing);
    } else {
      DequeuedEffect(s, e);
      assert Clean(s.recs[e], e, |s.queues|);
    }
  }

  // The first step of event_callback_finalize_nolock_.
  lemma {:induction false} CancelledEffect(s: State, e: Event)
    requires Inv(s) && IsUser(s, e)
    ensures var t := if e.isEvent then Del(s, e, false) else Cancel(s, e, false);
      SameBase(s, t) && t.recs == s.recs[e := Deleted(s.recs[e], false)]
  {
    if e.isEvent {
      DelEffect(s, e, false);
    } else {
      CancelEffect(s, e, false);
    }
  }

  lemma {:induction false} CancelledActivated(s: State, e: Event)
    requires Inv(s) && IsUser(s, e)
    ensures var t := CallbackActivate(if e.isEvent then Del(s, e, false) else Cancel(s, e, false), e).0;
      SameBase(s, t) && t.recs == s.recs[e := Activated(Deleted(s.recs[e], false))]
  {
    var s1 := if e.isEvent then Del(s, e, false) else Cancel(s, e, false);
    CancelledEffect(s, e);
    CallbackActivateEffect(s1, e);
    UpdateTwice(s.recs, e, s1.recs[e], Activated(s1.recs[e]));
  }

  lemma {:induction false} CallbackFinalizeEffect(s: State, e: Event)
    requires Inv(s) && IsUser(s, e)
    ensures var t := CallbackFinalize(s, e);
      && ChangesOnly(s, t, e)
      && t.recs[e] == Finalized(s.recs[e])
  {
    CancelledActivated(s, e);
  }

  /** The events of one priority, in order. */
  function OfPriority(q: seq<Event>, p: nat): seq<Event> {
    if q == [] then [] else (if q[0].pri == p then [q[0]] else []) + OfPriority(q[1..], p)
  }

  /** The record of an event that no longer waits for the next pass. */
  function NoLongerLater(r: Rec): Rec {
    if r.flags.later then r.(flags := r.flags.(later := false, active := true)) else r
  }

  /** How many of these are deferred callbacks. */
  ghost function DeferredIn(recs: map<Event, Rec>, q: seq<Event>): nat {
    if q == [] then 0 else (if q[0] in recs && recs[q[0]].deferred then 1 else 0) + DeferredIn(recs, q[1..])
  }

  lemma {:induction false} SameDeferred(recs: map<Event, Rec>, recs': map<Event, Rec>, q: seq<Event>)
    requires recs'.Keys == recs.Keys && forall e | e in recs :: recs'[e].deferred == recs[e].deferred
    ensures DeferredIn(recs', q) == DeferredIn(recs, q)
    decreases |q|
  {
    if q != [] {
      SameDeferred(recs, recs', q[1..]);
    }
  }

  /** Everything that waited in `s` is active in `t`, and the deferred callbacks among it count as scheduled in this pass. */
  ghost predicate MadeActive(s: State, t: State) {
    && t.later == [] && t.deferreds == s.deferreds + DeferredIn(s.recs, s.later)
    && t.recs.Keys == s.recs.Keys && (forall e | e in s.recs :: t.recs[e] == NoLongerLater(s.recs[e]))
    && |t.active| == |s.active|
    && (forall p {:trigger t.active[p]} | 0 <= p < |s.active| :: t.active[p] == s.active[p] + OfPriority(s.later, p))
  }

  lemma {:induction false} NoneWaits(s: State)
    requires Ok(s) && s.later == []
    ensures MadeActive(s, s)
  {
    forall e | e in s.recs
      ensures !s.recs[e].flags.later
    {
      assert Placed(s, e);
    }
  }

  lemma {:induction false} OneDeferred(s: State)
    requires s.later != [] && s.later[0] in s.recs && s.later[0].pri < |s.active|
    ensures var u := MakeOneActive(s);
      u.deferreds + DeferredIn(u.recs, u.later) == s.deferreds + DeferredIn(s.recs, s.later)
  {
    var u := MakeOneActive(s);
    SameDeferred(s.recs, u.recs, u.later);
  }

  lemma {:induction false} OneWaitsNoLonger(s: State, t: State)
    requires Ok(s) && s.later != [] && s.later[0] in s.recs && s.later[0].pri < |s.active| && MadeActive(MakeOneActive(s), t)
    ensures MadeActive(s, t)
  {
    FirstLater(s);
    var u := MakeOneActive(s);
    OneDeferred(s);
    forall p | 0 <= p < |s.active|
      ensures t.active[p] == s.active[p] + OfPriority(s.later, p)
    {
      assert u.active[p] + OfPriority(u.later, p) == s.active[p] + OfPriority(s.later, p);
    }
  }

  /**
   * Everything that waited for the next pass is active, behind what was active already and in the order in which
   * it waited; nothing else changes.
   */
  lemma {:induction false} MakeActiveEffect(s: State)
    requires Inv(s)
    ensures MadeActive(s, MakeActive(s))
    decreases |s.later|
  {
    if s.later != [] {
      MakeOneActiveInv(s);
      MakeActiveEffect(MakeOneActive(s));
      OneWaitsNoLonger(s, MakeActive(s));
    } else {
      NoneWaits(s);
    }
  }
}
