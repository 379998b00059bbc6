// Timeouts: event_add_nolock_, common-timeout queues and their timers, and the processing of what is due.
module EventTimers {
  import opened Bytes
  import opened EventTime
  import opened EventState
  import opened Queues
  import opened EventSteps

  /** A timeout a caller may pass: a normalized time, or the duration of a common timeout. */
  predicate Proper(tv: Timeval, n: nat) {
    tv.usec < MILLION || (IsCommonTimeout(tv, n) && Strip(tv).usec <= MILLION)
  }

  /** A deadline as the base stores it: a normalized time, tagged if it is for a common timeout. */
  predicate Tidy(tv: Timeval, n: nat) {
    Strip(tv).usec < MILLION && (tv.usec < MICROSECONDS || IsCommonTimeout(tv, n))
  }

  // tv_usec |= tag, for a tag whose bits are free in `tv`
  function WithTag(tv: Timeval, tag: Timeval): Timeval
    requires tv.usec < MICROSECONDS
  {
    tv.(usec := tv.usec + Tag(tag))
  }

  // The deadline that event_add_nolock_ computes.
  function Deadline(tv: Timeval, absolute: bool, now: Timeval, n: nat): (d: Timeval)
    requires Plain(now) && if absolute then Tidy(tv, n) else Proper(tv, n)
  {
    if absolute then tv
    else if IsCommonTimeout(tv, n) then WithTag(TimerAdd(now, Strip(tv)), tv)
    else TimerAdd(now, tv)
  }

  /** The deadline is `now` plus the interval, and belongs to the queue that the interval names. */
  lemma {:induction false} DeadlineFacts(tv: Timeval, absolute: bool, now: Timeval, n: nat)
    requires Plain(now) && if absolute then Tidy(tv, n) else Proper(tv, n)
    ensures var d := Deadline(tv, absolute, now, n);
      && Tidy(d, n)
      && (IsCommonTimeout(d, n) <==> IsCommonTimeout(tv, n))
      && (IsCommonTimeout(tv, n) ==> CommonIdx(d) == CommonIdx(tv) && Tag(d) == Tag(tv))
      && (if absolute then d == tv else Micros(Strip(d)) == Micros(now) + Micros(Strip(tv)))
  {
    if !absolute {
      TimerAddMicros(now, Strip(tv));
      var t := TimerAdd(now, Strip(tv));
      if IsCommonTimeout(tv, n) {
        Retag(t, tv, n);
        CommonTag(tv, n);
        CommonTag(WithTag(t, tv), n);
      } else {
        PlainNotCommon(TimerAdd(now, tv), n);
      }
    }
  }

  // Rescheduling an event that its timeout has made active takes it off the active queue.
  function NotTimedOut(s: State, e: Event): State
    requires e in s.recs && e.pri < |s.active|
  {
    if s.recs[e].flags.active && s.recs[e].timedOut then RemoveActive(s, e) else s
  }

  // What event_add_nolock_ does before it sets the deadline.
  function Unscheduled(s: State, e: Event): State
    requires e in s.recs && e.pri < |s.active|
  {
    NoTimeoutEffect(s, e);
    NotTimedOut(NoTimeout(s, e), e)
  }

  lemma {:induction false} NotTimedOutOk(s: State, e: Event)
    requires Ok(s) && e in s.recs && e.pri < |s.active|
    ensures Ok(NotTimedOut(s, e))
  {
    if s.recs[e].flags.active { RemoveActiveOk(s, e); }
  }

  lemma {:induction false} UnscheduledOk(s: State, e: Event)
    requires Ok(s) && e in s.recs && e.pri < |s.active|
    ensures Ok(Unscheduled(s, e))
  {
    NoTimeoutEffect(s, e);
    NoTimeoutOk(s, e);
    NotTimedOutOk(NoTimeout(s, e), e);
  }

  lemma {:induction false} NotTimedOutEffect(s: State, e: Event)
    requires e in s.recs && e.pri < |s.active|
    ensures var r := s.recs[e];
      Sets(s, NotTimedOut(s, e), e, r.(flags := r.flags.(active := r.flags.active && !r.timedOut)))
  {
  }

  lemma {:induction false} UnscheduledEffect(s: State, e: Event)
    requires e in s.recs && e.pri < |s.active|
    ensures var t := Unscheduled(s, e); var r := s.recs[e];
      && SameBase(s, t) && t.deferreds == s.deferreds
      && t.recs == s.recs[e := r.(flags := r.flags.(timeout := false, active := r.flags.active && !r.timedOut))]
  {
    var r := s.recs[e];
    var u, r1 := NoTimeout(s, e), r.(flags := r.flags.(timeout := false));
    NoTimeoutEffect(s, e);
    NotTimedOutEffect(u, e);
    SetsAgain(s, u, Unscheduled(s, e), e, r1, r1.(flags := r1.flags.(active := r.flags.active && !r.timedOut)));
  }

  // Sets the deadline and puts the event in the queue or the heap.
  function StartTimeout(s: State, e: Event, deadline: Timeval): State
    requires Ok(s) && e in s.recs && !s.recs[e].flags.timeout && !s.recs[e].flags.finalizing
  {
    var r := s.recs[e].(timeout := deadline);
    WithRecOk(s, e, r);
    InsertTimeout(WithRec(s, e, r), e)
  }

  lemma {:induction false} StartTimeoutOk(s: State, e: Event, deadline: Timeval)
    requires Ok(s) && e in s.recs && !s.recs[e].flags.timeout && !s.recs[e].flags.finalizing
    ensures Ok(StartTimeout(s, e, deadline))
  {
    var r := s.recs[e].(timeout := deadline);
    WithRecOk(s, e, r);
    InsertTimeoutOk(WithRec(s, e, r), e);
  }

  /** Every common timeout has a timer of its own. */
  ghost predicate HasTimers(s: State) {
    && |s.timers| == |s.queues| == |s.durations| <= MAX_COMMON_TIMEOUTS && NoDup(s.timers)
    && forall i {:trigger s.timers[i]} | 0 <= i < |s.timers| :: s.timers[i] in s.recs
  }

  /** `s` without the timeout of `e`, with the interval remembered for a persistent event. */
  function Cleared(s: State, e: Event, tv: Timeval, absolute: bool): State
    requires e in s.recs && e.pri < |s.active|
  {
    Unscheduled(if e.Repeats() && !absolute then WithRec(s, e, s.recs[e].(ioTimeout := tv)) else s, e)
  }

  lemma {:induction false} ClearedOk(s: State, e: Event, tv: Timeval, absolute: bool)
    requires Ok(s) && e in s.recs && e.pri < |s.active|
    ensures Ok(Cleared(s, e, tv, absolute))
  {
    var r := s.recs[e].(ioTimeout := tv);
    WithRecOk(s, e, r);
    UnscheduledOk(if e.Repeats() && !absolute then WithRec(s, e, r) else s, e);
  }

  lemma {:induction false} ClearedEffect(s: State, e: Event, tv: Timeval, absolute: bool)
    requires e in s.recs && e.pri < |s.active|
    ensures var t := Cleared(s, e, tv, absolute); var r := s.recs[e];
      && SameBase(s, t) && t.deferreds == s.deferreds
      && t.recs == s.recs[e := r.(
           flags := r.flags.(timeout := false, active := r.flags.active && !r.timedOut),
           ioTimeout := if e.Repeats() && !absolute then tv else r.ioTimeout)]
  {
    UnscheduledEffect(if e.Repeats() && !absolute then WithRec(s, e, s.recs[e].(ioTimeout := tv)) else s, e);
  }

  lemma {:induction false} InsertTimeoutEffect(s: State, e: Event)
    requires e in s.recs && (IsCommon(s, s.recs[e]) ==> Closed(s.recs.Keys, s.queues[CommonIdx(s.recs[e].timeout)]))
    ensures Sets(s, InsertTimeout(s, e), e, s.recs[e].(flags := s.recs[e].flags.(timeout := true)))
  {
  }

  lemma {:induction false} StartTimeoutEffect(s: State, e: Event, deadline: Timeval)
    requires Ok(s) && e in s.recs && !s.recs[e].flags.timeout && !s.recs[e].flags.finalizing
    ensures var t := StartTimeout(s, e, deadline); var r := s.recs[e];
      && SameBase(s, t) && t.deferreds == s.deferreds
      && t.recs == s.recs[e := r.(timeout := deadline, flags := r.flags.(timeout := true))]
  {
    var r := s.recs[e].(timeout := deadline);
    WithRecOk(s, e, r);
    InsertTimeoutEffect(WithRec(s, e, r), e);
    SetsAgain(s, WithRec(s, e, r), StartTimeout(s, e, deadline), e, r, r.(flags := r.flags.(timeout := true)));
  }

  // event_add_nolock_ once the event is inserted: its timeout, without the timer of its queue.
  function Timed(s: State, e: Event, tv: Timeval, absolute: bool, now: Timeval): State
    requires Ok(s) && e in s.recs && e.pri < |s.active| && !s.recs[e].flags.finalizing
    requires Plain(now) && if absolute then Tidy(tv, |s.queues|) else Proper(tv, |s.queues|)
  {
    ClearedOk(s, e, tv, absolute);
    ClearedEffect(s, e, tv, absolute);
    StartTimeout(Cleared(s, e, tv, absolute), e, Deadline(tv, absolute, now, |s.queues|))
  }

  /** The record of an event whose timeout has been set. */
  function Armed(r: Rec, e: Event, tv: Timeval, absolute: bool, now: Timeval, n: nat): Rec
    requires Plain(now) && if absolute then Tidy(tv, n) else Proper(tv, n)
  {
    r.(flags := r.flags.(timeout := true, active := r.flags.active && !r.timedOut),
       timeout := Deadline(tv, absolute, now, n),
       ioTimeout := if e.Repeats() && !absolute then tv else r.ioTimeout)
  }

  lemma {:induction false} TimedOk(s: State, e: Event, tv: Timeval, absolute: bool, now: Timeval)
    requires Ok(s) && e in s.recs && e.pri < |s.active| && !s.recs[e].flags.finalizing
    requires Plain(now) && if absolute then Tidy(tv, |s.queues|) else Proper(tv, |s.queues|)
    ensures Ok(Timed(s, e, tv, absolute, now))
  {
    ClearedOk(s, e, tv, absolute);
    ClearedEffect(s, e, tv, absolute);
    StartTimeoutOk(Cleared(s, e, tv, absolute), e, Deadline(tv, absolute, now, |s.queues|));
  }

  lemma {:induction false} TimedEffect(s: State, e: Event, tv: Timeval, absolute: bool, now: Timeval)
    requires Ok(s) && e in s.recs && e.pri < |s.active| && !s.recs[e].flags.finalizing
    requires Plain(now) && if absolute then Tidy(tv, |s.queues|) else Proper(tv, |s.queues|)
    ensures var t := Timed(s, e, tv, absolute, now);
      && SameBase(s, t) && t.deferreds == s.deferreds
      && t.recs == s.recs[e := Armed(s.recs[e], e, tv, absolute, now, |s.queues|)]
  {
    ClearedOk(s, e, tv, absolute);
    ClearedEffect(s, e, tv, absolute);
    var c, d := Cleared(s, e, tv, absolute), Deadline(tv, absolute, now, |s.queues|);
    StartTimeoutEffect(c, e, d);
    UpdateTwice(s.recs, e, c.recs[e], c.recs[e].(timeout := d, flags := c.recs[e].flags.(timeout := true)));
  }

  lemma {:induction false} UpdateTwice(recs: map<Event, Rec>, e: Event, r: Rec, r': Rec)
    ensures recs[e := r][e := r'] == recs[e := r']
  {
  }

  // ----- the invariant of a base -----

  /** An event of the base that is the timer of a common timeout. */
  ghost predicate IsTimer(s: State, t: Event) {
    && t in s.recs && t.internal && t.isEvent && !t.io && !t.persist
    && var r := s.recs[t];
       !r.flags.inserted && !r.flags.later && !r.flags.finalizing && !IsCommon(s, r) && (r.flags.active ==> r.timedOut)
  }

  /**
   * The deadline is stored tidily, the interval of a persistent event is for the same queue, and only
   * a struct event is ever added.
   */
  ghost predicate Clean(r: Rec, e: Event, n: nat) {
    && (e.isEvent || (!r.flags.timeout && !r.flags.inserted))
    && Tidy(r.timeout, n)
    && (e.Repeats() && r.ioTimeout != Timeval(0, 0) ==> Proper(r.ioTimeout, n) && Tag(r.ioTimeout) == Tag(r.timeout))
  }

  /** `t` will run no later than `e` is due: it is active already, or pending with no later deadline. */
  ghost predicate Covers(recs: map<Event, Rec>, t: Event, e: Event)
    requires t in recs && e in recs
  {
    recs[t].flags.active || (recs[t].flags.timeout && Due(recs[t].timeout) <= Due(recs[e].timeout))
  }

  /** No timeout is forgotten in a common-timeout queue, except perhaps in queue `k`. */
  ghost predicate CoveredBut(s: State, k: int)
    requires HasTimers(s)
  {
    forall e | e in s.recs && s.recs[e].flags.timeout && IsCommon(s, s.recs[e]) && CommonIdx(s.recs[e].timeout) != k ::
      Covers(s.recs, s.timers[CommonIdx(s.recs[e].timeout)], e)
  }

  ghost predicate DurationsOk(s: State) {
    forall i {:trigger s.durations[i]} | 0 <= i < |s.durations| ::
      Proper(s.durations[i], |s.durations|) && IsCommonTimeout(s.durations[i], |s.durations|) && CommonIdx(s.durations[i]) == i
  }

  /** The invariant while the timer of queue `k` is being handled. */
  ghost predicate InvBut(s: State, k: int) {
    && Ok(s) && HasTimers(s) && DurationsOk(s)
    && (forall t | t in s.timers :: IsTimer(s, t))
    && (forall e | e in s.recs :: Clean(s.recs[e], e, |s.queues|))
    && CoveredBut(s, k)
  }

  /** The invariant that holds between any two calls. */
  ghost predicate Inv(s: State) {
    InvBut(s, -1)
  }

  /** A step that changes one user event keeps the invariant, unless it starts a timeout in another queue than `k`. */
  lemma {:induction false} UserStep(s: State, e: Event, r: Rec, t: State, k: int)
    requires InvBut(s, k) && e in s.recs && e !in s.timers && Ok(t) && SameBase(s, t) && t.recs == s.recs[e := r]
    requires Clean(r, e, |s.queues|)
    requires r.flags.timeout && IsCommon(s, r) && CommonIdx(r.timeout) != k ==>
      s.recs[e].flags.timeout && r.timeout == s.recs[e].timeout
    ensures InvBut(t, k)
  {
    forall m | m in t.timers
      ensures IsTimer(t, m)
    {
      assert IsTimer(s, m);
    }
    forall x | x in t.recs
      ensures Clean(t.recs[x], x, |t.queues|)
    {
      assert Clean(s.recs[x], x, |s.queues|);
    }
    UserCovered(s, e, r, t, k);
  }

  lemma {:induction false} UserCovered(s: State, e: Event, r: Rec, t: State, k: int)
    requires HasTimers(s) && CoveredBut(s, k) && e in s.recs && e !in s.timers && SameBase(s, t) && t.recs == s.recs[e := r]
    requires r.flags.timeout && IsCommon(s, r) && CommonIdx(r.timeout) != k ==>
      s.recs[e].flags.timeout && r.timeout == s.recs[e].timeout
    ensures HasTimers(t) && CoveredBut(t, k)
  {
    forall x | x in t.recs && t.recs[x].flags.timeout && IsCommon(t, t.recs[x]) && CommonIdx(t.recs[x].timeout) != k
      ensures Covers(t.recs, t.timers[CommonIdx(t.recs[x].timeout)], x)
    {
      assert Covers(s.recs, s.timers[CommonIdx(s.recs[x].timeout)], x);
    }
  }

  /** In a common-timeout queue nothing is due before the first event. */
  lemma {:induction false} FirstIsEarliest(s: State, e: Event)
    requires Ok(s) && e in s.recs && s.recs[e].flags.timeout && IsCommon(s, s.recs[e])
    ensures var i := CommonIdx(s.recs[e].timeout); var q := s.queues[i];
      && q != [] && q[0] in s.recs && Due(s.recs[q[0]].timeout) <= Due(s.recs[e].timeout)
      && s.recs[q[0]].flags.timeout && IsCommon(s, s.recs[q[0]]) && CommonIdx(s.recs[q[0]].timeout) == i
  {
    var q := s.queues[CommonIdx(s.recs[e].timeout)];
    assert Placed(s, e);
    assert q[0] in q;
    assert Placed(s, q[0]);
    var j :| 0 <= j < |q| && q[j] == e;
  }

  // What event_add_nolock_ may be called with.
  ghost predicate MayTime(s: State, e: Event, tv: Timeval, absolute: bool, now: Timeval) {
    && e in s.recs && e.isEvent && e.pri < |s.active| && !s.recs[e].flags.finalizing && Plain(now)
    && (if absolute then Tidy(tv, |s.queues|) else Proper(tv, |s.queues|))
    && (absolute && e.Repeats() && s.recs[e].ioTimeout != Timeval(0, 0) ==> Tag(s.recs[e].ioTimeout) == Tag(tv))
  }

  lemma {:induction false} ArmedClean(s: State, e: Event, tv: Timeval, absolute: bool, now: Timeval)
    requires MayTime(s, e, tv, absolute, now) && Clean(s.recs[e], e, |s.queues|)
    ensures Clean(Armed(s.recs[e], e, tv, absolute, now, |s.queues|), e, |s.queues|)
  {
    DeadlineFacts(tv, absolute, now, |s.queues|);
  }

  /** Setting the timeout of a user event leaves open only the timer of its own queue. */
  lemma {:induction false} TimedInv(s: State, e: Event, tv: Timeval, absolute: bool, now: Timeval)
    requires Inv(s) && e !in s.timers && MayTime(s, e, tv, absolute, now)
    ensures InvBut(Timed(s, e, tv, absolute, now), if IsCommonTimeout(tv, |s.queues|) then CommonIdx(tv) else -1)
  {
    TimedOk(s, e, tv, absolute, now);
    TimedEffect(s, e, tv, absolute, now);
    DeadlineFacts(tv, absolute, now, |s.queues|);
    var k := if IsCommonTimeout(tv, |s.queues|) then CommonIdx(tv) else -1;
    var r := Armed(s.recs[e], e, tv, absolute, now, |s.queues|);
    ArmedClean(s, e, tv, absolute, now);
    UserStep(s, e, r, Timed(s, e, tv, absolute, now), k);
  }

  /** A step that sets the timer of queue `k` early enough for the first event of the queue. */
  lemma {:induction false} TimerStep(s: State, k: nat, r: Rec, t: State)
    requires k < |s.queues| && InvBut(s, k) && s.queues[k] != []
    requires Ok(t) && SameBase(s, t) && t.recs == s.recs[s.timers[k] := r]
    requires s.queues[k][0] in s.recs && Due(r.timeout) <= Due(s.recs[s.queues[k][0]].timeout)
    requires Clean(r, s.timers[k], |s.queues|) && IsTimer(t, s.timers[k]) && r.flags.timeout
    ensures Inv(t)
  {
    forall m | m in t.timers
      ensures IsTimer(t, m)
    {
      assert IsTimer(s, m);
    }
    forall x | x in t.recs
      ensures Clean(t.recs[x], x, |t.queues|)
    {
      assert Clean(s.recs[x], x, |s.queues|);
    }
    forall e | e in t.recs && t.recs[e].flags.timeout && IsCommon(t, t.recs[e])
      ensures Covers(t.recs, t.timers[CommonIdx(t.recs[e].timeout)], e)
    {
      if CommonIdx(t.recs[e].timeout) == k {
        FirstIsEarliest(s, e);
      } else {
        assert Covers(s.recs, s.timers[CommonIdx(s.recs[e].timeout)], e);
      }
    }
  }

  /** Setting the timer of a queue to the deadline of the queue's first event covers the queue. */
  lemma {:induction false} ScheduleInv(s: State, k: nat, now: Timeval)
    requires k < |s.queues| && InvBut(s, k) && s.queues[k] != [] && Plain(now)
    ensures s.queues[k][0] in s.recs && MayTime(s, s.timers[k], Strip(s.recs[s.queues[k][0]].timeout), true, now)
    ensures Inv(Timed(s, s.timers[k], Strip(s.recs[s.queues[k][0]].timeout), true, now))
  {
    var h, m := s.queues[k][0], s.timers[k];
    assert h in s.queues[k];
    assert m in s.timers && IsTimer(s, m);
    assert Placed(s, m);
    var tv := Strip(s.recs[h].timeout);
    PlainNotCommon(tv, |s.queues|);
    TimedOk(s, m, tv, true, now);
    TimedEffect(s, m, tv, true, now);
    TimerStep(s, k, Armed(s.recs[m], m, tv, true, now, |s.queues|), Timed(s, m, tv, true, now));
  }

  // ----- event_add_nolock_ -----

  // ev == TAILQ_FIRST(q)
  predicate FirstIs(q: seq<Event>, e: Event) { q != [] && q[0] == e }

  // common_timeout_schedule: event_add_nolock_ on the timer, which is a plain event of the heap.
  function Schedule(s: State, k: nat, now: Timeval): State
    requires k < |s.queues| && InvBut(s, k) && s.queues[k] != [] && Plain(now)
  {
    ScheduleInv(s, k, now);
    Timed(s, s.timers[k], Strip(s.recs[s.queues[k][0]].timeout), true, now)
  }

  // The timeout part of event_add_nolock_, for an event that is no timer.
  function AddTimeout(s: State, e: Event, tv: Timeval, absolute: bool, now: Timeval): State
    requires Inv(s) && e !in s.timers && MayTime(s, e, tv, absolute, now)
  {
    TimedInv(s, e, tv, absolute, now);
    TimedEffect(s, e, tv, absolute, now);
    DeadlineFacts(tv, absolute, now, |s.queues|);
    var t := Timed(s, e, tv, absolute, now);
    if IsCommonTimeout(tv, |s.queues|) && FirstIs(t.queues[CommonIdx(tv)], e) then Schedule(t, CommonIdx(tv), now) else t
  }

  lemma {:induction false} AddTimeoutInv(s: State, e: Event, tv: Timeval, absolute: bool, now: Timeval)
    requires Inv(s) && e !in s.timers && MayTime(s, e, tv, absolute, now)
    ensures Inv(AddTimeout(s, e, tv, absolute, now))
  {
    TimedInv(s, e, tv, absolute, now);
    TimedEffect(s, e, tv, absolute, now);
    DeadlineFacts(tv, absolute, now, |s.queues|);
    var t := Timed(s, e, tv, absolute, now);
    if IsCommonTimeout(tv, |s.queues|) {
      if FirstIs(t.queues[CommonIdx(tv)], e) {
        ScheduleInv(t, CommonIdx(tv), now);
      } else {
        NotFirstCovered(s, e, t);
      }
    }
  }

  /** An event behind another one in its queue is covered by the timer that covers the other. */
  lemma {:induction false} NotFirstCovered(s: State, e: Event, t: State)
    requires Inv(s) && e in s.recs && e !in s.timers && SameBase(s, t) && t.recs == s.recs[e := t.recs[e]]
    requires t.recs[e].flags.timeout && IsCommon(t, t.recs[e]) && InvBut(t, CommonIdx(t.recs[e].timeout))
    requires !FirstIs(t.queues[CommonIdx(t.recs[e].timeout)], e)
    ensures Inv(t)
  {
    FirstIsEarliest(t, e);
    var k := CommonIdx(t.recs[e].timeout);
    var h := t.queues[k][0];
    assert Covers(s.recs, s.timers[k], h);
    forall x | x in t.recs && t.recs[x].flags.timeout && IsCommon(t, t.recs[x])
      ensures Covers(t.recs, t.timers[CommonIdx(t.recs[x].timeout)], x)
    {
      if x != e {
        assert Covers(s.recs, s.timers[CommonIdx(s.recs[x].timeout)], x);
      }
    }
  }
}
