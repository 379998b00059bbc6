// Deferred callbacks cannot starve the loop: what one pass over an active queue can run.
module EventDeferred {
  import opened Bytes
  import opened EventTime
  import opened EventState
  import opened Queues
  import opened EventSteps
  import opened EventTimers
  import opened EventRuns

  // What a callback does that only schedules deferred callbacks, those of `script`.
  function DeferAll(s: State, script: seq<Event>): State
    requires Inv(s) && forall e | e in script :: e in s.recs && e !in s.timers
    decreases |script|
  {
    if script == [] then s else
    Users(s, script[0]);
    DeferInv(s, script[0]);
    DeferSame(s, script[0]);
    DeferAll(Defer(s, script[0]).0, script[1..])
  }

  lemma {:induction false} DeferSame(s: State, e: Event)
    requires IsUser(s, e)
    ensures SameBase(s, Defer(s, e).0)
  {
    CallbackActivateEffect(s, e);
  }

  // One round of event_process_active_single_queue for a bare callback that runs `script`.
  function Round(s: State, p: nat, script: seq<Event>): State
    requires Inv(s) && p < |s.active| && s.active[p] != [] && !s.active[p][0].isEvent
    requires forall e | e in script :: e in s.recs && e !in s.timers
  {
    BareFirst(s, p);
    DequeueInv(s, s.active[p][0]);
    DequeuedEffect(s, s.active[p][0]);
    DeferAll(Dequeue(s, s.active[p][0]), script)
  }

  lemma {:induction false} BareFirst(s: State, p: nat)
    requires Inv(s) && p < |s.active| && s.active[p] != [] && !s.active[p][0].isEvent
    ensures var e := s.active[p][0];
      IsUser(s, e) && s.recs[e].flags.active && e.pri == p && Dequeue(s, e) == RemoveActive(s, e)
  {
    FirstActive(s, p);
    var e := s.active[p][0];
    assert e in s.timers ==> IsTimer(s, e);
    Users(s, e);
  }

  /** What is still to run in this pass, at most: the queue, and what may yet be scheduled to run at once. */
  ghost function Budget(s: State, p: nat): int
    requires p < |s.active|
  {
    |s.active[p]| + Max(0, MAX_DEFERREDS_QUEUED + 1 - s.deferreds)
  }

  /** Callbacks wait for the next pass only when more than the limit have been scheduled in this one. */
  ghost predicate Bounded(s: State) {
    s.later == [] || s.deferreds > MAX_DEFERREDS_QUEUED
  }

  /** Scheduling a deferred callback costs as much of the budget as it uses. */
  lemma {:induction false} DeferBudget(s: State, e: Event, p: nat)
    requires Inv(s) && IsUser(s, e) && p < |s.active| && Bounded(s)
    ensures var t := Defer(s, e).0;
      |t.active| == |s.active| && Bounded(t) && Budget(t, p) <= Budget(s, p)
  {
    assert Placed(s, e);
  }

  lemma {:induction false} DeferAllBudget(s: State, script: seq<Event>, p: nat)
    requires Inv(s) && (forall e | e in script :: e in s.recs && e !in s.timers) && p < |s.active| && Bounded(s)
    ensures var t := DeferAll(s, script);
      Inv(t) && SameBase(s, t) && Bounded(t) && Budget(t, p) <= Budget(s, p)
    decreases |script|
  {
    if script != [] {
      Users(s, script[0]);
      DeferInv(s, script[0]);
      DeferSame(s, script[0]);
      DeferBudget(s, script[0], p);
      DeferAllBudget(Defer(s, script[0]).0, script[1..], p);
    }
  }

  /** Each callback that runs uses up one unit of the budget. */
  lemma {:induction false} RoundBudget(s: State, p: nat, script: seq<Event>)
    requires Inv(s) && p < |s.active| && s.active[p] != [] && !s.active[p][0].isEvent && Bounded(s)
    requires forall e | e in script :: e in s.recs && e !in s.timers
    ensures var t := Round(s, p, script);
      Inv(t) && SameBase(s, t) && Bounded(t) && Budget(t, p) < Budget(s, p)
  {
    BareFirst(s, p);
    var e := s.active[p][0];
    DequeueInv(s, e);
    DequeuedEffect(s, e);
    DeferAllBudget(Dequeue(s, e), script, p);
  }

  /** A pass over queue `p`, in which the callbacks run one after the other and do what `scripts` say. */
  ghost predicate IsPass(s: State, p: nat, scripts: seq<seq<Event>>)
    requires Inv(s) && p < |s.active| && Bounded(s)
    decreases |scripts|
  {
    scripts == [] || (
      && s.active[p] != [] && !s.active[p][0].isEvent
      && (forall e | e in scripts[0] :: e in s.recs && e !in s.timers)
      && (RoundBudget(s, p, scripts[0]); IsPass(Round(s, p, scripts[0]), p, scripts[1..])))
  }

  /**
   * Whatever callbacks schedule, a pass that starts with nothing waiting runs no more callbacks than were
   * queued, plus as many as the limit still lets be scheduled to run at once.
   */
  lemma {:induction false} PassBound(s: State, p: nat, scripts: seq<seq<Event>>)
    requires Inv(s) && p < |s.active| && Bounded(s) && IsPass(s, p, scripts)
    ensures |scripts| <= |s.active[p]| + Max(0, 33 - s.deferreds)
    decreases |scripts|
  {
    if scripts != [] {
      RoundBudget(s, p, scripts[0]);
      PassBound(Round(s, p, scripts[0]), p, scripts[1..]);
    }
  }

  /** Only bare callbacks join a queue of bare callbacks. */
  ghost predicate Bare(s: State, p: nat)
    requires p < |s.active|
  {
    forall e | e in s.active[p] :: !e.isEvent
  }

  lemma {:induction false} DeferBare(s: State, e: Event, p: nat)
    requires e in s.recs && e.pri < |s.active| && !e.isEvent && p < |s.active| && Bare(s, p)
    ensures |Defer(s, e).0.active| == |s.active| && Bare(Defer(s, e).0, p)
  {
  }

  lemma {:induction false} DeferAllBare(s: State, script: seq<Event>, p: nat)
    requires Inv(s) && (forall e | e in script :: e in s.recs && e !in s.timers && !e.isEvent) && p < |s.active| && Bare(s, p)
    ensures |DeferAll(s, script).active| == |s.active| && Bare(DeferAll(s, script), p)
    decreases |script|
  {
    if script != [] {
      Users(s, script[0]);
      DeferInv(s, script[0]);
      DeferSame(s, script[0]);
      DeferBare(s, script[0], p);
      DeferAllBare(Defer(s, script[0]).0, script[1..], p);
    }
  }

  lemma {:induction false} RoundBare(s: State, p: nat, script: seq<Event>)
    requires Inv(s) && p < |s.active| && s.active[p] != [] && !s.active[p][0].isEvent && Bare(s, p)
    requires forall e | e in script :: e in s.recs && e !in s.timers && !e.isEvent
    ensures |Round(s, p, script).active| == |s.active| && Bare(Round(s, p, script), p)
  {
    BareFirst(s, p);
    var e := s.active[p][0];
    DequeueInv(s, e);
    DequeuedEffect(s, e);
    assert Dequeue(s, e).active[p] == s.active[p][1..];
    DeferAllBare(Dequeue(s, e), script, p);
  }
}
