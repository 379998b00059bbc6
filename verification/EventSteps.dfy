// What the event functions do to an event_base, as functions on its state.
module EventSteps {
  import opened EventTime
  import opened EventState
  import opened Queues

  const MAX_DEFERREDS_QUEUED: nat := 32

  /** The same events, timers, priorities and common timeouts. */
  ghost predicate SameBase(s: State, t: State) {
    && t.recs.Keys == s.recs.Keys && t.timers == s.timers && t.durations == s.durations
    && |t.queues| == |s.queues| && |t.active| == |s.active|
  }

  /** Only the record of `e` has changed, and the queues and counters with it. */
  ghost predicate Sets(s: State, t: State, e: Event, r: Rec) {
    SameBase(s, t) && t.deferreds == s.deferreds && t.recs == s.recs[e := r]
  }

  lemma {:induction false} SetsAgain(s: State, u: State, t: State, e: Event, r: Rec, r': Rec)
    requires Sets(s, u, e, r) && Sets(u, t, e, r')
    ensures Sets(s, t, e, r') && u.recs[e] == r
  {
  }

  function WithRec(s: State, e: Event, r: Rec): State
    requires e in s.recs
  {
    s.(recs := s.recs[e := r])
  }

  /** A record may change freely outside its flags, and in its deadline while it has no timeout. */
  lemma {:induction false} WithRecOk(s: State, e: Event, r: Rec)
    requires Ok(s) && e in s.recs && r.flags == s.recs[e].flags
    requires r.timeout == s.recs[e].timeout || !r.flags.timeout
    ensures Ok(WithRec(s, e, r))
  {
    var t := WithRec(s, e, r);
    HoldersUpdate(s.recs, e, r, InTimeout);
    HoldersUpdate(s.recs, e, r, Inserted);
    HoldersUpdate(s.recs, e, r, Active);
    HoldersUpdate(s.recs, e, r, ActiveLater);
    assert Placed(s, e);
    OrderedKept(s.recs, t.recs, s.queues);
  }

  // ----- event_del_nolock_ -----

  // The steps of event_del_nolock_: out of the timer queues, out of the active queues, out of the inserted events.
  function NoTimeout(s: State, e: Event): State
    requires e in s.recs
  {
    if s.recs[e].flags.timeout then RemoveTimeout(s, e) else s
  }

  function Dequeued(s: State, e: Event): State
    requires e in s.recs && e.pri < |s.active|
  {
    if s.recs[e].flags.active then RemoveActive(s, e) else if s.recs[e].flags.later then RemoveLater(s, e) else s
  }

  function OutOfQueues(s: State, e: Event): (t: State)
    requires e in s.recs && e.pri < |s.active|
    ensures e in t.recs
  {
    NoTimeoutEffect(s, e);
    Dequeued(NoTimeout(s, e), e)
  }

  function NotInserted(s: State, e: Event): State
    requires e in s.recs
  {
    if s.recs[e].flags.inserted then RemoveInserted(s, e) else s
  }

  function Del(s: State, e: Event, evenIfFinalizing: bool): (t: State)
    requires e in s.recs && e.pri < |s.active|
  {
    if s.recs[e].flags.finalizing && !evenIfFinalizing then s
    else NotInserted(OutOfQueues(s, e), e)
  }

  /** The record of an event that has been deleted: out of every queue, unless it is finalizing. */
  function Deleted(r: Rec, evenIfFinalizing: bool): Rec {
    if r.flags.finalizing && !evenIfFinalizing then r
    else r.(flags := NoFlags.(finalizing := r.flags.finalizing))
  }

  lemma {:induction false} NoTimeoutEffect(s: State, e: Event)
    requires e in s.recs
    ensures var t := NoTimeout(s, e);
      && SameBase(s, t) && t.deferreds == s.deferreds
      && t.recs == s.recs[e := s.recs[e].(flags := s.recs[e].flags.(timeout := false))]
  {
  }

  lemma {:induction false} DequeuedEffect(s: State, e: Event)
    requires e in s.recs && e.pri < |s.active| && !(s.recs[e].flags.active && s.recs[e].flags.later)
    ensures var t := Dequeued(s, e);
      && SameBase(s, t) && t.deferreds == s.deferreds
      && t.recs == s.recs[e := s.recs[e].(flags := s.recs[e].flags.(active := false, later := false))]
  {
  }

  lemma {:induction false} NotInsertedEffect(s: State, e: Event)
    requires e in s.recs
    ensures var t := NotInserted(s, e);
      && SameBase(s, t) && t.deferreds == s.deferreds
      && t.recs == s.recs[e := s.recs[e].(flags := s.recs[e].flags.(inserted := false))]
  {
  }

  /** Deletion takes the event out of every queue and touches no other event. */
  lemma {:induction false} DelEffect(s: State, e: Event, evenIfFinalizing: bool)
    requires e in s.recs && e.pri < |s.active| && !(s.recs[e].flags.active && s.recs[e].flags.later)
    ensures var t := Del(s, e, evenIfFinalizing);
      SameBase(s, t) && t.deferreds == s.deferreds && t.recs == s.recs[e := Deleted(s.recs[e], evenIfFinalizing)]
  {
    var r := s.recs[e];
    var s1, s2 := NoTimeout(s, e), OutOfQueues(s, e);
    var r1 := r.(flags := r.flags.(timeout := false));
    var r2 := r1.(flags := r1.flags.(active := false, later := false));
    NoTimeoutEffect(s, e);
    DequeuedEffect(s1, e);
    SetsAgain(s, s1, s2, e, r1, r2);
    NotInsertedEffect(s2, e);
    SetsAgain(s, s2, NotInserted(s2, e), e, r2, r2.(flags := r2.flags.(inserted := false)));
  }

  lemma {:induction false} NoTimeoutOk(s: State, e: Event)
    requires Ok(s) && e in s.recs
    ensures Ok(NoTimeout(s, e))
  {
    if s.recs[e].flags.timeout { RemoveTimeoutOk(s, e); }
  }

  lemma {:induction false} DequeuedOk(s: State, e: Event)
    requires Ok(s) && e in s.recs && e.pri < |s.active|
    ensures Ok(Dequeued(s, e))
  {
    if s.recs[e].flags.active { RemoveActiveOk(s, e); }
    if !s.recs[e].flags.active && s.recs[e].flags.later { RemoveLaterOk(s, e); }
  }

  lemma {:induction false} NotInsertedOk(s: State, e: Event)
    requires Ok(s) && e in s.recs
    ensures Ok(NotInserted(s, e))
  {
    if s.recs[e].flags.inserted { RemoveInsertedOk(s, e); }
  }

  lemma {:induction false} DelOk(s: State, e: Event, evenIfFinalizing: bool)
    requires Ok(s) && e in s.recs && e.pri < |s.active|
    ensures Ok(Del(s, e, evenIfFinalizing))
  {
    NoTimeoutEffect(s, e);
    NoTimeoutOk(s, e);
    DequeuedOk(NoTimeout(s, e), e);
    NotInsertedOk(OutOfQueues(s, e), e);
  }

  // ----- activation -----

  // event_callback_activate_nolock_
  function CallbackActivate(s: State, e: Event): (State, int)
    requires e in s.recs && e.pri < |s.active|
  {
    var f := s.recs[e].flags;
    if f.finalizing || f.active then (s, 0)
    else if f.later then (InsertActive(RemoveLater(s, e), e), 0)
    else (InsertActive(s, e), 1)
  }

  function Activated(r: Rec): Rec {
    if r.flags.finalizing then r else r.(flags := r.flags.(active := true, later := false))
  }

  lemma {:induction false} CallbackActivateEffect(s: State, e: Event)
    requires e in s.recs && e.pri < |s.active| && !(s.recs[e].flags.active && s.recs[e].flags.later)
    ensures var (t, r) := CallbackActivate(s, e);
      && SameBase(s, t) && t.deferreds == s.deferreds && t.recs == s.recs[e := Activated(s.recs[e])]
      && (r == 0 || r == 1) && (r == 1 <==> s.recs[e].flags.(timeout := false, inserted := false) == NoFlags)
  {
  }

  lemma {:induction false} CallbackActivateOk(s: State, e: Event)
    requires Ok(s) && e in s.recs && e.pri < |s.active|
    ensures Ok(CallbackActivate(s, e).0)
  {
    var f := s.recs[e].flags;
    if !f.finalizing && !f.active {
      if f.later {
        RemoveLaterOk(s, e);
        InsertActiveOk(RemoveLater(s, e), e);
      } else {
        InsertActiveOk(s, e);
      }
    }
  }

  // event_callback_activate_later_nolock_
  function CallbackActivateLater(s: State, e: Event): (State, int)
    requires e in s.recs
  {
    if s.recs[e].flags.active || s.recs[e].flags.later then (s, 0) else (InsertLater(s, e), 1)
  }

  // event_active_nolock_; `timedOut` says whether the result has EV_TIMEOUT.
  function Activate(s: State, e: Event, timedOut: bool): State
    requires e in s.recs && e.pri < |s.active|
  {
    var r := s.recs[e];
    if r.flags.finalizing then s
    else if r.flags.active then WithRec(s, e, r.(timedOut := r.timedOut || timedOut))
    else if r.flags.later then CallbackActivate(WithRec(s, e, r.(timedOut := r.timedOut || timedOut)), e).0
    else CallbackActivate(WithRec(s, e, r.(timedOut := timedOut)), e).0
  }

  /** What activation makes of a record: active, with the new result added to one not yet delivered. */
  function Triggered(r: Rec, timedOut: bool): Rec {
    if r.flags.finalizing then r
    else Activated(r.(timedOut := timedOut || (r.timedOut && (r.flags.active || r.flags.later))))
  }

  lemma {:induction false} ActivateEffect(s: State, e: Event, timedOut: bool)
    requires e in s.recs && e.pri < |s.active| && !(s.recs[e].flags.active && s.recs[e].flags.later)
    ensures var t := Activate(s, e, timedOut);
      SameBase(s, t) && t.deferreds == s.deferreds && t.recs == s.recs[e := Triggered(s.recs[e], timedOut)]
  {
  }

  lemma {:induction false} ActivateOk(s: State, e: Event, timedOut: bool)
    requires Ok(s) && e in s.recs && e.pri < |s.active|
    ensures Ok(Activate(s, e, timedOut))
  {
    var r := s.recs[e];
    if !r.flags.finalizing {
      var r1 := r.(timedOut := timedOut || (r.timedOut && (r.flags.active || r.flags.later)));
      WithRecOk(s, e, r1);
      CallbackActivateOk(WithRec(s, e, r1), e);
    }
  }

  // event_active_later_nolock_
  function ActivateLater(s: State, e: Event, timedOut: bool): State
    requires e in s.recs
  {
    var r := s.recs[e];
    if r.flags.active || r.flags.later then WithRec(s, e, r.(timedOut := r.timedOut || timedOut))
    else CallbackActivateLater(WithRec(s, e, r.(timedOut := timedOut)), e).0
  }

  lemma {:induction false} ActivateLaterOk(s: State, e: Event, timedOut: bool)
    requires Ok(s) && e in s.recs
    ensures Ok(ActivateLater(s, e, timedOut))
  {
    var r := s.recs[e];
    var r1 := r.(timedOut := timedOut || (r.timedOut && (r.flags.active || r.flags.later)));
    WithRecOk(s, e, r1);
    InsertLaterOk(WithRec(s, e, r1), e);
  }

  /** What waiting for the next pass makes of a record that is not queued already. */
  function Waiting(r: Rec): Rec {
    if r.flags.active || r.flags.later then r else r.(flags := r.flags.(later := true))
  }

  lemma {:induction false} CallbackActivateLaterEffect(s: State, e: Event)
    requires e in s.recs
    ensures Sets(s, CallbackActivateLater(s, e).0, e, Waiting(s.recs[e]))
  {
    assert s.recs[e := s.recs[e]] == s.recs;
  }

  lemma {:induction false} ActivateLaterEffect(s: State, e: Event, timedOut: bool)
    requires e in s.recs
    ensures var r := s.recs[e];
      Sets(s, ActivateLater(s, e, timedOut), e, Waiting(r.(timedOut := timedOut || (r.timedOut && (r.flags.active || r.flags.later)))))
  {
    var r := s.recs[e];
    if !r.flags.active && !r.flags.later {
      var r1 := r.(timedOut := timedOut);
      CallbackActivateLaterEffect(WithRec(s, e, r1), e);
      SetsAgain(s, WithRec(s, e, r1), ActivateLater(s, e, timedOut), e, r1, Waiting(r1));
    }
  }

  // event_callback_cancel_nolock_
  function Cancel(s: State, e: Event, evenIfFinalizing: bool): State
    requires e in s.recs && e.pri < |s.active|
  {
    var f := s.recs[e].flags;
    if f.finalizing && !evenIfFinalizing then s
    else if e.isEvent then Del(s, e, evenIfFinalizing)
    else if f.active then RemoveActive(s, e)
    else if f.later then RemoveLater(s, e)
    else s
  }

  lemma {:induction false} CancelOk(s: State, e: Event, evenIfFinalizing: bool)
    requires Ok(s) && e in s.recs && e.pri < |s.active|
    ensures Ok(Cancel(s, e, evenIfFinalizing))
  {
    var f := s.recs[e].flags;
    if e.isEvent {
      DelOk(s, e, evenIfFinalizing);
    } else if f.active {
      RemoveActiveOk(s, e);
    } else if f.later {
      RemoveLaterOk(s, e);
    }
  }

  // event_deferred_cb_schedule_
  function Defer(s: State, e: Event): (State, int)
    requires e in s.recs && e.pri < |s.active|
  {
    if s.deferreds > MAX_DEFERREDS_QUEUED then CallbackActivateLater(s, e)
    else
      var (t, r) := CallbackActivate(s, e);
      (if r != 0 then t.(deferreds := s.deferreds + 1) else t, r)
  }

  /** Scheduling a deferred callback makes it active, or has it wait for the next pass. */
  lemma {:induction false} DeferEffect(s: State, e: Event)
    requires e in s.recs && e.pri < |s.active| && !(s.recs[e].flags.active && s.recs[e].flags.later)
    ensures var (t, r) := Defer(s, e); var f := s.recs[e].flags; var over := s.deferreds > MAX_DEFERREDS_QUEUED;
      && SameBase(s, t) && t.recs == s.recs[e := if over then Waiting(s.recs[e]) else Activated(s.recs[e])]
      && r == (if f.active || f.later || (f.finalizing && !over) then 0 else 1)
      && t.deferreds == s.deferreds + if over then 0 else r
  {
    if s.deferreds > MAX_DEFERREDS_QUEUED {
      CallbackActivateLaterEffect(s, e);
    } else {
      CallbackActivateEffect(s, e);
    }
  }

  lemma {:induction false} DeferredsOk(s: State, n: nat)
    requires Ok(s)
    ensures Ok(s.(deferreds := n))
  {
  }

  lemma {:induction false} DeferOk(s: State, e: Event)
    requires Ok(s) && e in s.recs && e.pri < |s.active|
    ensures Ok(Defer(s, e).0)
  {
    if s.deferreds > MAX_DEFERREDS_QUEUED {
      InsertLaterOk(s, e);
      assert Defer(s, e).0 == InsertLater(s, e);
    } else {
      var (t, r) := CallbackActivate(s, e);
      CallbackActivateOk(s, e);
      DeferredsOk(t, s.deferreds + 1);
      assert Defer(s, e).0 == if r != 0 then t.(deferreds := s.deferreds + 1) else t;
    }
  }

  // ----- finalization -----

  // Sets EVLIST_FINALIZING and a finalizing closure.
  function Finalizing(r: Rec): Rec {
    r.(flags := r.flags.(finalizing := true), deferred := false)
  }

  lemma {:induction false} FinalizingOk(s: State, e: Event)
    requires Ok(s) && e in s.recs && !s.recs[e].flags.timeout && !s.recs[e].flags.inserted
    ensures Ok(WithRec(s, e, Finalizing(s.recs[e])))
  {
    var r := Finalizing(s.recs[e]);
    HoldersUpdate(s.recs, e, r, InTimeout);
    HoldersUpdate(s.recs, e, r, Inserted);
    HoldersUpdate(s.recs, e, r, Active);
    HoldersUpdate(s.recs, e, r, ActiveLater);
    assert Placed(s, e);
    OrderedKept(s.recs, s.recs[e := r], s.queues);
  }

  // event_finalize_nolock_
  function Finalize(s: State, e: Event): State
    requires e in s.recs && e.pri < |s.active|
  {
    var s1 := Activate(Del(s, e, false), e, false);
    WithRec(s1, e, Finalizing(s1.recs[e]))
  }

  // event_callback_finalize_nolock_
  function CallbackFinalize(s: State, e: Event): State
    requires e in s.recs && e.pri < |s.active|
  {
    var s1 := if e.isEvent then Del(s, e, false) else Cancel(s, e, false);
    var s2 := CallbackActivate(s1, e).0;
    WithRec(s2, e, Finalizing(s2.recs[e]))
  }
}
