// Every run of an event_base: what may be called between two callbacks, and what always holds.
module EventRuns {
  import opened Bytes
  import opened EventTime
  import opened EventState
  import opened Queues
  import opened EventSteps
  import opened EventTimers
  import opened EventDue

  /** Between `s` and `t` only `e` has changed, and it has started no timeout. */
  ghost predicate Touches(s: State, t: State, e: Event) {
    && e in s.recs && SameBase(s, t) && t.recs == s.recs[e := t.recs[e]]
    && t.recs[e].timeout == s.recs[e].timeout && t.recs[e].ioTimeout == s.recs[e].ioTimeout
    && (t.recs[e].flags.timeout ==> s.recs[e].flags.timeout)
    && (t.recs[e].flags.inserted ==> s.recs[e].flags.inserted || e.isEvent)
  }

  lemma {:induction false} TouchInv(s: State, t: State, e: Event)
    requires Inv(s) && e !in s.timers && Touches(s, t, e) && Ok(t)
    ensures Inv(t)
  {
    UserStep(s, e, t.recs[e], t, -1);
  }

  /** A user event of the base: not one of its timers. */
  ghost predicate IsUser(s: State, e: Event) {
    e in s.recs && e !in s.timers && e.pri < |s.active| && !(s.recs[e].flags.active && s.recs[e].flags.later)
  }

  lemma {:induction false} Users(s: State, e: Event)
    requires Inv(s) && e in s.recs && e !in s.timers
    ensures IsUser(s, e)
  {
    assert Placed(s, e);
  }

  lemma {:induction false} DelInv(s: State, e: Event, evenIfFinalizing: bool)
    requires Inv(s) && IsUser(s, e)
    ensures Inv(Del(s, e, evenIfFinalizing)) && Touches(s, Del(s, e, evenIfFinalizing), e)
  {
    DelOk(s, e, evenIfFinalizing);
    DelEffect(s, e, evenIfFinalizing);
    TouchInv(s, Del(s, e, evenIfFinalizing), e);
  }

  lemma {:induction false} CallbackActivateInv(s: State, e: Event)
    requires Inv(s) && IsUser(s, e)
    ensures Inv(CallbackActivate(s, e).0) && Touches(s, CallbackActivate(s, e).0, e)
  {
    CallbackActivateOk(s, e);
    CallbackActivateEffect(s, e);
    TouchInv(s, CallbackActivate(s, e).0, e);
  }

  lemma {:induction false} ActivateInv(s: State, e: Event, timedOut: bool)
    requires Inv(s) && IsUser(s, e)
    ensures Inv(Activate(s, e, timedOut)) && Touches(s, Activate(s, e, timedOut), e)
  {
    ActivateOk(s, e, timedOut);
    ActivateEffect(s, e, timedOut);
    TouchInv(s, Activate(s, e, timedOut), e);
  }

  lemma {:induction false} ActivateLaterInv(s: State, e: Event, timedOut: bool)
    requires Inv(s) && IsUser(s, e)
    ensures Inv(ActivateLater(s, e, timedOut))
  {
    ActivateLaterOk(s, e, timedOut);
    ActivateLaterEffect(s, e, timedOut);
    TouchInv(s, ActivateLater(s, e, timedOut), e);
  }

  lemma {:induction false} CancelInv(s: State, e: Event, evenIfFinalizing: bool)
    requires Inv(s) && IsUser(s, e)
    ensures Inv(Cancel(s, e, evenIfFinalizing)) && Touches(s, Cancel(s, e, evenIfFinalizing), e)
  {
    CancelOk(s, e, evenIfFinalizing);
    if e.isEvent {
      DelEffect(s, e, evenIfFinalizing);
    } else {
      DequeuedEffect(s, e);
    }
    TouchInv(s, Cancel(s, e, evenIfFinalizing), e);
  }

  lemma {:induction false} DeferInv(s: State, e: Event)
    requires Inv(s) && IsUser(s, e)
    ensures Inv(Defer(s, e).0)
  {
    DeferOk(s, e);
    DeferEffect(s, e);
    TouchInv(s, Defer(s, e).0, e);
  }

  lemma {:induction false} FinalizingInv(s: State, e: Event)
    requires Inv(s) && IsUser(s, e) && !s.recs[e].flags.timeout && !s.recs[e].flags.inserted
    ensures Inv(WithRec(s, e, Finalizing(s.recs[e])))
  {
    FinalizingOk(s, e);
    TouchInv(s, WithRec(s, e, Finalizing(s.recs[e])), e);
  }

  /** A finalized event is in no timer queue and not inserted, whatever it was doing before. */
  lemma {:induction false} FinalizeInv(s: State, e: Event)
    requires Inv(s) && IsUser(s, e)
    ensures var t := Finalize(s, e);
      Inv(t) && t.recs[e].flags.finalizing && !t.recs[e].flags.timeout && !t.recs[e].flags.inserted
  {
    assert Placed(s, e);
    DelInv(s, e, false);
    DelEffect(s, e, false);
    var s1 := Del(s, e, false);
    Users(s1, e);
    ActivateInv(s1, e, false);
    ActivateEffect(s1, e, false);
    var s2 := Activate(s1, e, false);
    Users(s2, e);
    FinalizingInv(s2, e);
  }

  lemma {:induction false} CallbackFinalizeInv(s: State, e: Event)
    requires Inv(s) && IsUser(s, e)
    ensures var t := CallbackFinalize(s, e);
      Inv(t) && t.recs[e].flags.finalizing && !t.recs[e].flags.timeout && !t.recs[e].flags.inserted
  {
    assert Placed(s, e);
    assert Clean(s.recs[e], e, |s.queues|);
    var s1 := if e.isEvent then Del(s, e, false) else Cancel(s, e, false);
    if e.isEvent {
      DelInv(s, e, false);
      DelEffect(s, e, false);
    } else {
      CancelInv(s, e, false);
    }
    Users(s1, e);
    CallbackActivateInv(s1, e);
    CallbackActivateEffect(s1, e);
    var s2 := CallbackActivate(s1, e).0;
    Users(s2, e);
    FinalizingInv(s2, e);
  }

  // event_remove_timer_nolock_
  function RemoveTimer(s: State, e: Event): State
    requires e in s.recs
  {
    if s.recs[e].flags.timeout then
      var t := RemoveTimeout(s, e);
      WithRec(t, e, t.recs[e].(ioTimeout := Timeval(0, 0)))
    else s
  }

  lemma {:induction false} RemoveTimerInv(s: State, e: Event)
    requires Inv(s) && IsUser(s, e)
    ensures Inv(RemoveTimer(s, e))
  {
    if s.recs[e].flags.timeout {
      RemoveTimeoutOk(s, e);
      NoTimeoutEffect(s, e);
      var t, r0 := NoTimeout(s, e), s.recs[e].(flags := s.recs[e].flags.(timeout := false));
      var r := r0.(ioTimeout := Timeval(0, 0));
      WithRecOk(t, e, r);
      SetsAgain(s, t, WithRec(t, e, r), e, r0, r);
      assert Clean(s.recs[e], e, |s.queues|);
      UserStep(s, e, r, WithRec(t, e, r), -1);
    }
  }

  /** What event_add_nolock_ may be given for the timeout of `e`. */
  ghost predicate GoodTimeout(s: State, e: Event, tv: Timeval, absolute: bool)
    requires e in s.recs
  {
    if absolute then
      && Tidy(tv, |s.queues|)
      && (e.Repeats() && s.recs[e].ioTimeout != Timeval(0, 0) ==> Tag(s.recs[e].ioTimeout) == Tag(tv))
    else Proper(tv, |s.queues|)
  }

  lemma {:induction false} InsertedInv(s: State, e: Event)
    requires Inv(s) && IsUser(s, e) && e.isEvent && !s.recs[e].flags.inserted && !s.recs[e].flags.finalizing
    ensures Inv(InsertInserted(s, e)) && Touches(s, InsertInserted(s, e), e)
  {
    InsertInsertedOk(s, e);
    TouchInv(s, InsertInserted(s, e), e);
  }

  /** Whether event_add_nolock_ has to put the event in the I/O or signal map. */
  predicate NeedsMap(r: Rec, e: Event) {
    e.io && !r.flags.inserted && !r.flags.active && !r.flags.later
  }

  // The state in which event_add_nolock_ sets the timeout.
  function InsertedFirst(s: State, e: Event): State
    requires e in s.recs
  {
    if NeedsMap(s.recs[e], e) then InsertInserted(s, e) else s
  }

  lemma {:induction false} InsertedFirstInv(s: State, e: Event)
    requires Inv(s) && IsUser(s, e) && e.isEvent && !s.recs[e].flags.finalizing
    ensures var t := InsertedFirst(s, e); var r := s.recs[e];
      Inv(t) && Sets(s, t, e, r.(flags := r.flags.(inserted := r.flags.inserted || NeedsMap(r, e))))
  {
    if NeedsMap(s.recs[e], e) {
      InsertedInv(s, e);
    } else {
      assert s.recs[e := s.recs[e]] == s.recs;
    }
  }

  // event_add_nolock_; `mapOk` says whether the I/O or signal map takes the event.
  function Add(s: State, e: Event, tv: Option<Timeval>, absolute: bool, now: Timeval, mapOk: bool): (State, int)
    requires Inv(s) && IsUser(s, e) && e.isEvent && Plain(now) && (tv.Some? ==> GoodTimeout(s, e, tv.value, absolute))
  {
    if s.recs[e].flags.finalizing || (NeedsMap(s.recs[e], e) && !mapOk) then (s, -1)
    else
      InsertedFirstInv(s, e);
      (if tv.Some? then AddTimeout(InsertedFirst(s, e), e, tv.value, absolute, now) else InsertedFirst(s, e), 0)
  }

  /** Adding an event changes nothing when it fails. */
  lemma {:induction false} AddInv(s: State, e: Event, tv: Option<Timeval>, absolute: bool, now: Timeval, mapOk: bool)
    requires Inv(s) && IsUser(s, e) && e.isEvent && Plain(now) && (tv.Some? ==> GoodTimeout(s, e, tv.value, absolute))
    ensures var (t, res) := Add(s, e, tv, absolute, now, mapOk);
      Inv(t) && (res == 0 || res == -1) && (res == -1 ==> t == s)
  {
    if !s.recs[e].flags.finalizing && (NeedsMap(s.recs[e], e) ==> mapOk) {
      InsertedFirstInv(s, e);
      if tv.Some? {
        AddTimeoutInv(InsertedFirst(s, e), e, tv.value, absolute, now);
      }
    }
  }

  // When event_persist_closure runs a persistent event next.
  function RunAt(r: Rec, now: Timeval, n: nat): Timeval
    requires Plain(now) && Tidy(r.timeout, n) && Proper(r.ioTimeout, n) && Tag(r.ioTimeout) == Tag(r.timeout)
  {
    var common := IsCommonTimeout(r.timeout, n);
    var delay := if common then Strip(r.ioTimeout) else r.ioTimeout;
    var relativeTo := if !r.timedOut then now else if common then Strip(r.timeout) else r.timeout;
    var runAt := TimerAdd(relativeTo, delay);
    var later := if TimerLess(runAt, now) then TimerAdd(now, delay) else runAt;
    if common then WithTag(later, r.ioTimeout) else later
  }

  lemma {:induction false} NotEarlier(now: Timeval, interval: Timeval, next: Timeval)
    requires Plain(now) && Plain(next) && !TimerLess(next, now)
    ensures Due(next) >= Due(now)
  {
  }

  /** One interval after the deadline if the timeout has run, or after now; but after now if that moment is past. */
  function NextRun(r: Rec, now: Timeval): int {
    var interval := Micros(Strip(r.ioTimeout));
    var scheduled := interval + if r.timedOut then Micros(Strip(r.timeout)) else Micros(now);
    if scheduled < Micros(now) then Micros(now) + interval else scheduled
  }

  /** A persistent event runs next one interval after it was due, or after now if it was not due or is late. */
  lemma {:induction false} RunAtFacts(r: Rec, now: Timeval, n: nat)
    requires Plain(now) && Tidy(r.timeout, n) && Proper(r.ioTimeout, n) && Tag(r.ioTimeout) == Tag(r.timeout)
    ensures var next := RunAt(r, now, n);
      && Tidy(next, n) && Tag(next) == Tag(r.ioTimeout)
      && (r.ioTimeout.sec >= 0 ==> Due(next) >= Due(now))
      && Strip(next).usec < MILLION && Micros(Strip(next)) == NextRun(r, now)
  {
    var interval := Strip(r.ioTimeout);
    var scheduled := TimerAdd(if r.timedOut then Strip(r.timeout) else now, interval);
    var next := if TimerLess(scheduled, now) then TimerAdd(now, interval) else scheduled;
    if interval.sec >= 0 {
      NotEarlier(now, interval, next);
    }
    NextTagged(r, next, n);
    TimerAddMicros(if r.timedOut then Strip(r.timeout) else now, interval);
    TimerAddMicros(now, interval);
    MicrosCompare(scheduled, now);
    assert RunAt(r, now, n) == if IsCommonTimeout(r.timeout, n) then WithTag(next, r.ioTimeout) else next;
  }

  lemma {:induction false} NextTagged(r: Rec, next: Timeval, n: nat)
    requires Tidy(r.timeout, n) && Proper(r.ioTimeout, n) && Tag(r.ioTimeout) == Tag(r.timeout) && Plain(next)
    ensures var d := if IsCommonTimeout(r.timeout, n) then WithTag(next, r.ioTimeout) else next;
      Tidy(d, n) && Tag(d) == Tag(r.ioTimeout) && Strip(d) == next && Due(d) == Due(next)
    ensures !IsCommonTimeout(r.timeout, n) ==> Strip(r.timeout) == r.timeout && Strip(r.ioTimeout) == r.ioTimeout
  {
    if IsCommonTimeout(r.timeout, n) {
      Retag(next, r.timeout, n);
      CommonTag(r.timeout, n);
      CommonTag(WithTag(next, r.timeout), n);
    } else {
      assert Strip(r.timeout) == r.timeout && Strip(r.ioTimeout) == r.ioTimeout;
    }
  }

  // ----- event_process_active_single_queue -----

  // The closure of an event that has been taken off its queue, up to the call of its callback.
  function Closure(s: State, e: Event, now: Timeval, mapOk: bool): State
    requires Inv(s) && IsUser(s, e) && Plain(now)
  {
    var r := s.recs[e];
    if e.Repeats() && !r.flags.finalizing && r.ioTimeout != Timeval(0, 0) then
      assert Clean(r, e, |s.queues|);
      RunAtFacts(r, now, |s.queues|);
      Add(s, e, Some(RunAt(r, now, |s.queues|)), true, now, mapOk).0
    else s
  }

  lemma {:induction false} ClosureInv(s: State, e: Event, now: Timeval, mapOk: bool)
    requires Inv(s) && IsUser(s, e) && Plain(now)
    ensures Inv(Closure(s, e, now, mapOk))
  {
    var r := s.recs[e];
    if e.Repeats() && !r.flags.finalizing && r.ioTimeout != Timeval(0, 0) {
      assert Clean(r, e, |s.queues|);
      RunAtFacts(r, now, |s.queues|);
      AddInv(s, e, Some(RunAt(r, now, |s.queues|)), true, now, mapOk);
    }
  }

  // How an event leaves its active queue: event_queue_remove_active or event_del_nolock_.
  function Dequeue(s: State, e: Event): State
    requires e in s.recs && e.pri < |s.active|
  {
    if e.isEvent && !e.persist && !s.recs[e].flags.finalizing then Del(s, e, false) else RemoveActive(s, e)
  }

  lemma {:induction false} DequeueInv(s: State, e: Event)
    requires Inv(s) && IsUser(s, e) && s.recs[e].flags.active
    ensures Inv(Dequeue(s, e)) && IsUser(Dequeue(s, e), e)
  {
    if e.isEvent && !e.persist && !s.recs[e].flags.finalizing {
      DelInv(s, e, false);
    } else {
      RemoveActiveOk(s, e);
      DequeuedEffect(s, e);
      TouchInv(s, RemoveActive(s, e), e);
    }
    Users(Dequeue(s, e), e);
  }

  lemma {:induction false} FirstActive(s: State, p: nat)
    requires Ok(s) && p < |s.active| && s.active[p] != []
    ensures s.active[p][0] in s.recs && s.recs[s.active[p][0]].flags.active && s.active[p][0].pri == p
  {
    assert s.active[p][0] in s.active[p];
    assert Placed(s, s.active[p][0]);
  }

  // The common timeout that a timer belongs to: the argument of its callback.
  function TimerOf(timers: seq<Event>, m: Event): (k: nat)
    requires m in timers
    ensures k < |timers| && timers[k] == m
  {
    if timers[0] == m then 0 else 1 + TimerOf(timers[1..], m)
  }

  // One round of event_process_active_single_queue, up to the call of the user's callback.
  function Process(s: State, p: nat, now: Timeval, mapOk: bool): State
    requires Inv(s) && p < |s.active| && s.active[p] != [] && Plain(now)
  {
    FirstActive(s, p);
    var e := s.active[p][0];
    if e in s.timers then
      RunTimer(s, TimerOf(s.timers, e), now)
    else
      Users(s, e);
      DequeueInv(s, e);
      Closure(Dequeue(s, e), e, now, mapOk)
  }

  lemma {:induction false} ProcessInv(s: State, p: nat, now: Timeval, mapOk: bool)
    requires Inv(s) && p < |s.active| && s.active[p] != [] && Plain(now)
    ensures Inv(Process(s, p, now, mapOk))
  {
    FirstActive(s, p);
    var e := s.active[p][0];
    if e in s.timers {
      RunTimerEffect(s, TimerOf(s.timers, e), now);
    } else {
      Users(s, e);
      DequeueInv(s, e);
      ClosureInv(Dequeue(s, e), e, now, mapOk);
    }
  }

  // ----- event_queue_make_later_events_active -----

  // One round of the loop: the first event of the queue becomes active.
  function MakeOneActive(s: State): State
    requires s.later != [] && s.later[0] in s.recs && s.later[0].pri < |s.active|
  {
    var e := s.later[0];
    var r := s.recs[e];
    s.(recs := s.recs[e := r.(flags := r.flags.(later := false, active := true))],
       later := s.later[1..],
       active := s.active[e.pri := s.active[e.pri] + [e]],
       deferreds := s.deferreds + if r.deferred then 1 else 0)
  }

  lemma {:induction false} FirstLater(s: State)
    requires Ok(s) && s.later != []
    ensures s.later[0] in s.recs && s.later[0].pri < |s.active| && s.recs[s.later[0]].flags.later
  {
    assert s.later[0] in s.later;
    assert Placed(s, s.later[0]);
  }

  lemma {:induction false} MakeOneActiveShape(s: State)
    requires Ok(s) && s.later != []
    ensures s.later[0] in s.recs && s.later[0].pri < |s.active| && Shape(MakeOneActive(s))
  {
    FirstLater(s);
    var e := s.later[0];
    AllKnownUpdate(s.recs.Keys, s.active, e.pri, s.active[e.pri] + [e]);
    assert forall x | x in s.later :: x == e || x in s.later[1..];
    assert forall x | x in s.later[1..] :: x in s.later && x != e;
    var t := MakeOneActive(s);
    forall x | x in t.recs
      ensures Placed(t, x)
    {
      assert Placed(s, x);
    }
  }

  lemma {:induction false} MakeOneActiveInv(s: State)
    requires Inv(s) && s.later != []
    ensures s.later[0] in s.recs && s.later[0].pri < |s.active| && Inv(MakeOneActive(s))
  {
    FirstLater(s);
    MakeOneActiveShape(s);
    MakeOneActiveCounts(s);
    var t := MakeOneActive(s);
    assert SameBase(s, t) && t.queues == s.queues;
    OrderedKept(s.recs, t.recs, s.queues);
    TouchInv(s, t, s.later[0]);
  }

  lemma {:induction false} MakeOneActiveCounts(s: State)
    requires Ok(s) && s.later != [] && s.later[0] in s.recs && s.later[0].pri < |s.active|
    ensures Counts(MakeOneActive(s))
  {
    var e, t := s.later[0], MakeOneActive(s);
    var r := t.recs[e];
    assert e in s.later && Placed(s, e);
    HoldersUpdate(s.recs, e, r, InTimeout);
    HoldersUpdate(s.recs, e, r, Inserted);
    HoldersUpdate(s.recs, e, r, Active);
    HoldersUpdate(s.recs, e, r, ActiveLater);
    SumLenUpdate(s.active, e.pri, s.active[e.pri] + [e]);
  }

  // The whole loop.
  function MakeActive(s: State): State
    requires Inv(s)
    decreases |s.later|
  {
    if s.later == [] then s else
    MakeOneActiveInv(s);
    MakeActive(MakeOneActive(s))
  }

  lemma {:induction false} MakeActiveInv(s: State)
    requires Inv(s)
    ensures Inv(MakeActive(s)) && MakeActive(s).later == []
    decreases |s.later|
  {
    if s.later != [] {
      MakeOneActiveInv(s);
      MakeActiveInv(MakeOneActive(s));
    }
  }

  // ----- new events and common timeouts -----

  // event_assign, for an event that the base has not seen.
  function Assign(s: State, e: Event, deferred: bool): State {
    s.(recs := s.recs[e := Fresh(deferred)])
  }

  lemma {:induction false} AssignOk(s: State, e: Event, deferred: bool)
    requires Ok(s) && e !in s.recs && e.pri < |s.active|
    ensures Ok(Assign(s, e, deferred))
  {
    var t := Assign(s, e, deferred);
    HoldersAssign(s.recs, e, deferred, InTimeout);
    HoldersAssign(s.recs, e, deferred, Inserted);
    HoldersAssign(s.recs, e, deferred, Active);
    HoldersAssign(s.recs, e, deferred, ActiveLater);
    forall i | 0 <= i < |s.queues|
      ensures Known(t.recs.Keys, s.queues[i]) && e !in s.queues[i] && Sorted(t.recs, s.queues[i])
    {
    }
    forall i | 0 <= i < |s.active|
      ensures Known(t.recs.Keys, s.active[i]) && e !in s.active[i]
    {
    }
    forall x | x in t.recs
      ensures Placed(t, x)
    {
      assert x != e ==> Placed(s, x);
    }
  }

  lemma {:induction false} HoldersAssign(recs: map<Event, Rec>, e: Event, deferred: bool, b: Bit)
    requires e !in recs
    ensures Holders(recs[e := Fresh(deferred)], b) == Holders(recs, b)
  {
  }

  lemma {:induction false} AssignInv(s: State, e: Event, deferred: bool)
    requires Inv(s) && e !in s.recs && e.pri < |s.active|
    ensures Inv(Assign(s, e, deferred))
  {
    AssignOk(s, e, deferred);
    var t := Assign(s, e, deferred);
    forall m | m in t.timers
      ensures IsTimer(t, m)
    {
      assert IsTimer(s, m);
    }
    forall x | x in t.recs
      ensures Clean(t.recs[x], x, |t.queues|)
    {
      assert x != e ==> Clean(s.recs[x], x, |s.queues|);
    }
    forall x | x in t.recs && t.recs[x].flags.timeout && IsCommon(t, t.recs[x])
      ensures Covers(t.recs, t.timers[CommonIdx(t.recs[x].timeout)], x)
    {
      assert Covers(s.recs, s.timers[CommonIdx(s.recs[x].timeout)], x);
    }
  }

  // What event_base_init_common_timeout makes of the duration it is given.
  function Normalized(d: Timeval, n: nat): (r: Timeval)
    ensures r.usec <= MILLION
  {
    if d.usec <= MILLION then d else
    var u := if IsCommonTimeout(d, n) then d.usec % MICROSECONDS else d.usec;
    Timeval(d.sec + u / MILLION, u % MILLION)
  }

  /** Normalizing keeps the length of the duration, and drops a tag with which it comes. */
  lemma {:induction false} NormalizedMicros(d: Timeval, n: nat)
    ensures Micros(Normalized(d, n)) == Micros(if d.usec > MILLION && IsCommonTimeout(d, n) then Strip(d) else d)
    ensures d.usec > MILLION ==> Normalized(d, n).usec < MILLION
  {
  }

  // The first common timeout of this duration, or how many there are.
  function FindDuration(durations: seq<Timeval>, d: Timeval): (k: nat)
    ensures k <= |durations|
    ensures k < |durations| ==> Strip(durations[k]) == d
    ensures forall i | 0 <= i < k :: Strip(durations[i]) != d
  {
    if durations == [] || Strip(durations[0]) == d then 0 else 1 + FindDuration(durations[1..], d)
  }

  // Adds a common timeout with timer `m`.
  function NewCommon(s: State, d: Timeval, m: Event): State {
    var n := |s.queues|;
    Assign(s, m, false).(
      queues := s.queues + [[]],
      timers := s.timers + [m],
      durations := s.durations +
        [Timeval(d.sec, d.usec + COMMON_TIMEOUT_MAGIC * COMMON_TIMEOUT_UNIT + n * MICROSECONDS)])
  }

  /** Event `m` can serve as a timer: evtimer_assign, EVLIST_INTERNAL and priority 0. */
  ghost predicate NewTimer(s: State, m: Event) {
    m !in s.recs && m.internal && m.isEvent && !m.io && !m.persist && m.pri == 0 && |s.active| > 0
  }

  // event_base_init_common_timeout
  function InitCommon(s: State, duration: Timeval, m: Event): (State, Option<nat>)
    requires Inv(s) && NewTimer(s, m)
  {
    var n := |s.queues|;
    var d := Normalized(duration, n);
    var k := FindDuration(s.durations, d);
    if k < n then (s, Some(k))
    else if n == MAX_COMMON_TIMEOUTS then (s, None)
    else (NewCommon(s, d, m), Some(n))
  }

  /** A deadline names the same queue, or none, when one more common timeout exists. */
  lemma {:induction false} CommonGrows(tv: Timeval, n: nat)
    requires Tidy(tv, n) || Proper(tv, n)
    ensures IsCommonTimeout(tv, n + 1) <==> IsCommonTimeout(tv, n)
  {
  }

  lemma {:induction false} NewCommonOk(s: State, d: Timeval, m: Event)
    requires Inv(s) && NewTimer(s, m)
    ensures Ok(NewCommon(s, d, m))
  {
    var t, u := NewCommon(s, d, m), Assign(s, m, false);
    AssignInv(s, m, false);
    forall x | x in t.recs
      ensures Placed(t, x)
    {
      assert Placed(u, x) && Clean(u.recs[x], x, |s.queues|);
      CommonGrows(u.recs[x].timeout, |s.queues|);
    }
    forall i | 0 <= i < |t.queues|
      ensures Known(t.recs.Keys, t.queues[i]) && Sorted(t.recs, t.queues[i])
    {
      if i < |s.queues| {
        assert Known(u.recs.Keys, u.queues[i]) && Sorted(u.recs, u.queues[i]);
      }
    }
    assert AllKnown(t.recs.Keys, u.active);
  }

  lemma {:induction false} NewTag(sec: int, usec: nat, n: nat)
    requires usec < MICROSECONDS && n < MAX_COMMON_TIMEOUTS
    ensures var tv := Timeval(sec, usec + COMMON_TIMEOUT_MAGIC * COMMON_TIMEOUT_UNIT + n * MICROSECONDS);
      IsCommonTimeout(tv, n + 1) && CommonIdx(tv) == n && Strip(tv) == Timeval(sec, usec)
  {
    var v := usec + COMMON_TIMEOUT_MAGIC * COMMON_TIMEOUT_UNIT + n * MICROSECONDS;
    assert v / MICROSECONDS == COMMON_TIMEOUT_MAGIC * MAX_COMMON_TIMEOUTS + n;
  }

  lemma {:induction false} StaysClean(r: Rec, e: Event, n: nat)
    requires Clean(r, e, n)
    ensures Clean(r, e, n + 1) && (IsCommonTimeout(r.timeout, n + 1) <==> IsCommonTimeout(r.timeout, n))
  {
    CommonGrows(r.timeout, n);
    if e.Repeats() && r.ioTimeout != Timeval(0, 0) {
      CommonGrows(r.ioTimeout, n);
    }
  }

  lemma {:induction false} NewCommonInv(s: State, d: Timeval, m: Event)
    requires Inv(s) && NewTimer(s, m) && |s.queues| < MAX_COMMON_TIMEOUTS && d.usec <= MILLION
    ensures Inv(NewCommon(s, d, m))
  {
    var t, n := NewCommon(s, d, m), |s.queues|;
    NewCommonOk(s, d, m);
    NewTag(d.sec, d.usec, n);
    forall x | x in t.recs
      ensures Clean(t.recs[x], x, n + 1)
      ensures x in s.recs ==> (IsCommon(t, t.recs[x]) <==> IsCommon(s, s.recs[x]))
    {
      if x in s.recs {
        assert Clean(s.recs[x], x, n);
        StaysClean(s.recs[x], x, n);
      }
    }
    forall x | x in t.timers
      ensures IsTimer(t, x)
    {
      assert x != m ==> IsTimer(s, x);
    }
    NewDurations(s, d, m);
  }

  lemma {:induction false} NewDurations(s: State, d: Timeval, m: Event)
    requires DurationsOk(s) && |s.durations| == |s.queues| < MAX_COMMON_TIMEOUTS && d.usec <= MILLION
    ensures DurationsOk(NewCommon(s, d, m))
  {
    var t, n := NewCommon(s, d, m), |s.queues|;
    NewTag(d.sec, d.usec, n);
    forall i | 0 <= i < |t.durations|
      ensures Proper(t.durations[i], n + 1) && IsCommonTimeout(t.durations[i], n + 1) && CommonIdx(t.durations[i]) == i
    {
      assert i < n ==> t.durations[i] == s.durations[i];
    }
  }

  /** Asking for a common timeout gives the one queue of that duration; 256 durations can be had. */
  lemma {:induction false} InitCommonInv(s: State, duration: Timeval, m: Event)
    requires Inv(s) && NewTimer(s, m)
    ensures var (t, k) := InitCommon(s, duration, m); var d := Normalized(duration, |s.queues|);
      && Inv(t) && s.durations <= t.durations
      && (k.Some? ==> k.value < |t.durations| && Strip(t.durations[k.value]) == d)
      && (k.Some? <==> |s.durations| < MAX_COMMON_TIMEOUTS || exists i :: 0 <= i < |s.durations| && Strip(s.durations[i]) == d)
  {
    var n := |s.queues|;
    var d := Normalized(duration, n);
    if FindDuration(s.durations, d) == n && n < MAX_COMMON_TIMEOUTS {
      NewCommonInv(s, d, m);
      NewTag(d.sec, d.usec, n);
    }
  }

  // ----- runs -----

  // The atomic steps of a base: one call from outside, or one round of one of the loop's own loops.
  datatype Op =
    | AssignOp(event: Event, deferred: bool)
    | InitCommonOp(duration: Timeval, timer: Event)
    | AddOp(event: Event, timeout: Option<Timeval>, now: Timeval, mapOk: bool)
    | DelOp(event: Event, evenIfFinalizing: bool)
    | RemoveTimerOp(event: Event)
    | ActivateOp(event: Event, timedOut: bool)
    | ActivateLaterOp(event: Event, timedOut: bool)
    | CallbackActivateOp(event: Event)
    | CallbackActivateLaterOp(event: Event)
    | CancelOp(event: Event, evenIfFinalizing: bool)
    | DeferOp(event: Event)
    | FinalizeOp(event: Event)
    | CallbackFinalizeOp(event: Event)
    | StartLoopOp
    | MakeOneActiveOp
    | TimeoutOp(event: Event, now: Timeval)
    | ProcessOp(pri: nat, now: Timeval, mapOk: bool)

  /** What may happen in `s`. Only the base itself touches its timers. */
  ghost predicate Allowed(s: State, op: Op)
    requires Inv(s)
  {
    match op
    case AssignOp(e, _) => e !in s.recs && e.pri < |s.active|
    case InitCommonOp(_, m) => NewTimer(s, m)
    case AddOp(e, tv, now, _) =>
      IsUser(s, e) && e.isEvent && Plain(now) && (tv.Some? ==> Proper(tv.value, |s.queues|))
    case StartLoopOp => true
    case MakeOneActiveOp => s.later != []
    case TimeoutOp(e, now) =>
      IsTop(s, e) && s.recs[e].flags.timeout && Plain(now) && !TimerLess(now, s.recs[e].timeout)
    case ProcessOp(p, now, _) => p < |s.active| && s.active[p] != [] && Plain(now)
    case _ => IsUser(s, op.event)
  }

  function Apply(s: State, op: Op): State
    requires Inv(s) && Allowed(s, op)
  {
    match op
    case AssignOp(e, deferred) => Assign(s, e, deferred)
    case InitCommonOp(duration, m) => InitCommon(s, duration, m).0
    case AddOp(e, tv, now, mapOk) => Add(s, e, tv, false, now, mapOk).0
    case DelOp(e, even) => Del(s, e, even)
    case RemoveTimerOp(e) => RemoveTimer(s, e)
    case ActivateOp(e, timedOut) => Activate(s, e, timedOut)
    case ActivateLaterOp(e, timedOut) => ActivateLater(s, e, timedOut)
    case CallbackActivateOp(e) => CallbackActivate(s, e).0
    case CallbackActivateLaterOp(e) => CallbackActivateLater(s, e).0
    case CancelOp(e, even) => Cancel(s, e, even)
    case DeferOp(e) => Defer(s, e).0
    case FinalizeOp(e) => Finalize(s, e)
    case CallbackFinalizeOp(e) => CallbackFinalize(s, e)
    case StartLoopOp => s.(deferreds := 0)
    case MakeOneActiveOp => FirstLater(s); MakeOneActive(s)
    case TimeoutOp(e, now) => FireEffect(s, e); Fire(s, e)
    case ProcessOp(p, now, mapOk) => Process(s, p, now, mapOk)
  }

  lemma {:induction false} CallbackActivateLaterInv(s: State, e: Event)
    requires Inv(s) && IsUser(s, e)
    ensures Inv(CallbackActivateLater(s, e).0)
  {
    InsertLaterOk(s, e);
    CallbackActivateLaterEffect(s, e);
    TouchInv(s, CallbackActivateLater(s, e).0, e);
  }

  /** Every step keeps the invariant. */
  lemma {:induction false} ApplyInv(s: State, op: Op)
    requires Inv(s) && Allowed(s, op)
    ensures Inv(Apply(s, op))
  {
    match op
    case AssignOp(e, deferred) => AssignInv(s, e, deferred);
    case InitCommonOp(duration, m) => InitCommonInv(s, duration, m);
    case AddOp(e, tv, now, mapOk) => AddInv(s, e, tv, false, now, mapOk);
    case DelOp(e, even) => DelInv(s, e, even);
    case RemoveTimerOp(e) => RemoveTimerInv(s, e);
    case ActivateOp(e, timedOut) => ActivateInv(s, e, timedOut);
    case ActivateLaterOp(e, timedOut) => ActivateLaterInv(s, e, timedOut);
    case CallbackActivateOp(e) => CallbackActivateInv(s, e);
    case CallbackActivateLaterOp(e) => CallbackActivateLaterInv(s, e);
    case CancelOp(e, even) => CancelInv(s, e, even);
    case DeferOp(e) => DeferInv(s, e);
    case FinalizeOp(e) => FinalizeInv(s, e);
    case CallbackFinalizeOp(e) => CallbackFinalizeInv(s, e);
    case StartLoopOp => StartLoopInv(s);
    case MakeOneActiveOp => MakeOneActiveInv(s);
    case TimeoutOp(e, now) => FireInv(s, e, -1);
    case ProcessOp(p, now, mapOk) => ProcessInv(s, p, now, mapOk);
  }

  lemma {:induction false} StartLoopInv(s: State)
    requires Inv(s)
    ensures Inv(s.(deferreds := 0))
  {
    OrderedKept(s.recs, s.recs, s.queues);
  }

  lemma {:induction false} NewSum(qs: seq<seq<Event>>)
    requires forall i | 0 <= i < |qs| :: qs[i] == []
    ensures SumLen(qs) == 0
  {
    if qs != [] {
      NewSum(qs[1..]);
    }
  }

  lemma {:induction false} EmptyInv(s: State)
    requires s == State(map[], {}, [], [], [], s.active, [], 0, 0, 0) && forall i | 0 <= i < |s.active| :: s.active[i] == []
    ensures Inv(s)
  {
    NewSum(s.active);
    assert Holders(map[], InTimeout) == Holders(map[], Inserted) == Holders(map[], Active) == Holders(map[], ActiveLater) == {};
  }

  // event_base_new, with `n` priorities.
  function New(n: nat): (s: State)
    ensures Inv(s)
  {
    var s := State(map[], {}, [], [], [], seq(n, i => []), [], 0, 0, 0);
    EmptyInv(s);
    s
  }

  /** Every step of the run is allowed where it happens. */
  ghost predicate IsRun(s: State, ops: seq<Op>)
    requires Inv(s)
    decreases |ops|
  {
    ops == [] || (Allowed(s, ops[0]) && (ApplyInv(s, ops[0]); IsRun(Apply(s, ops[0]), ops[1..])))
  }

  function After(s: State, ops: seq<Op>): State
    requires Inv(s) && IsRun(s, ops)
    decreases |ops|
  {
    if ops == [] then s
    else
      ApplyInv(s, ops[0]);
      After(Apply(s, ops[0]), ops[1..])
  }

  /** Over every run, flags, queues, counters, deadlines and timers stay consistent. */
  lemma {:induction false} RunInv(s: State, ops: seq<Op>)
    requires Inv(s) && IsRun(s, ops)
    ensures Inv(After(s, ops))
    decreases |ops|
  {
    if ops != [] {
      ApplyInv(s, ops[0]);
      RunInv(Apply(s, ops[0]), ops[1..]);
    }
  }

  /** From a new base on, the counters count, no event is both active and waiting, and a finalizing event has no timeout. */
  lemma {:induction false} RunFacts(n: nat, ops: seq<Op>)
    requires IsRun(New(n), ops)
    ensures var s := After(New(n), ops);
      && Inv(s) && s.count == Held(s.recs) && s.countActive == SumLen(s.active) + |s.later|
      && forall e | e in s.recs ::
           && !(s.recs[e].flags.active && s.recs[e].flags.later)
           && (s.recs[e].flags.finalizing ==> e !in s.heap && forall i | 0 <= i < |s.queues| :: e !in s.queues[i])
  {
    RunInv(New(n), ops);
    var s := After(New(n), ops);
    forall e | e in s.recs
      ensures !(s.recs[e].flags.active && s.recs[e].flags.later)
      ensures s.recs[e].flags.finalizing ==> e !in s.heap && forall i | 0 <= i < |s.queues| :: e !in s.queues[i]
    {
      assert Placed(s, e);
    }
  }

  // ----- event_base_assert_ok_nolock_ -----

  // What is checked of entry `j` of common-timeout queue `i`.
  ghost predicate QueueEntryOk(s: State, i: nat, j: nat)
    requires i < |s.queues| && j < |s.queues[i]|
  {
    var e := s.queues[i][j];
    && e in s.recs && s.recs[e].flags.timeout && IsCommon(s, s.recs[e]) && CommonIdx(s.recs[e].timeout) == i
    && (j > 0 ==> s.queues[i][j - 1] in s.recs && !TimerLess(s.recs[e].timeout, s.recs[s.queues[i][j - 1]].timeout))
  }

  // What is checked of entry `j` of active queue `i`.
  ghost predicate ActiveEntryOk(s: State, i: nat, j: nat)
    requires i < |s.active| && j < |s.active[i]|
  {
    var e := s.active[i][j];
    e in s.recs && s.recs[e].flags.active && !s.recs[e].flags.later && e.pri == i
  }

  /** The checks that event_base_assert_ok_nolock_ makes, except for the shape of the heap. */
  ghost predicate AssertOk(s: State) {
    && (forall e | e in s.heap :: e in s.recs && s.recs[e].flags.timeout)
    && (forall i: nat, j: nat | i < |s.queues| && j < |s.queues[i]| :: QueueEntryOk(s, i, j))
    && (forall i: nat, j: nat | i < |s.active| && j < |s.active[i]| :: ActiveEntryOk(s, i, j))
    && (forall e | e in s.later :: e in s.recs && !s.recs[e].flags.active && s.recs[e].flags.later)
    && s.countActive == SumLen(s.active) + |s.later|
  }

  lemma {:induction false} QueueEntries(s: State, i: nat, j: nat)
    requires Ok(s) && i < |s.queues| && j < |s.queues[i]|
    ensures QueueEntryOk(s, i, j)
  {
    var e := s.queues[i][j];
    assert e in s.queues[i];
    assert Placed(s, e);
    if j > 0 {
      var d := s.queues[i][j - 1];
      assert d in s.queues[i];
      OneTag(s, e, d);
      SameTagCompare(s.recs[e].timeout, s.recs[d].timeout);
    }
  }

  lemma {:induction false} ActiveEntries(s: State, i: nat, j: nat)
    requires Ok(s) && i < |s.active| && j < |s.active[i]|
    ensures ActiveEntryOk(s, i, j)
  {
    assert s.active[i][j] in s.active[i];
    assert Placed(s, s.active[i][j]);
  }

  lemma {:induction false} Waiters(s: State, e: Event)
    requires Ok(s)
    ensures e in s.later ==> e in s.recs && !s.recs[e].flags.active && s.recs[e].flags.later
    ensures e in s.heap ==> e in s.recs && s.recs[e].flags.timeout
  {
    if e in s.recs {
      assert Placed(s, e);
    }
  }

  /** The base's own consistency check never fails. */
  lemma {:induction false} AssertionsHold(s: State)
    requires Inv(s)
    ensures AssertOk(s)
  {
    forall e | e in s.later || e in s.heap
      ensures e in s.later ==> e in s.recs && !s.recs[e].flags.active && s.recs[e].flags.later
      ensures e in s.heap ==> e in s.recs && s.recs[e].flags.timeout
    {
      Waiters(s, e);
    }
    forall i: nat, j: nat | i < |s.queues| && j < |s.queues[i]|
      ensures QueueEntryOk(s, i, j)
    {
      QueueEntries(s, i, j);
    }
    forall i: nat, j: nat | i < |s.active| && j < |s.active[i]|
      ensures ActiveEntryOk(s, i, j)
    {
      ActiveEntries(s, i, j);
    }
  }
}
