// Processing what is due: timeout_process, common_timeout_callback, and what the two do together.
module EventDue {
  import opened EventTime
  import opened EventState
  import opened Queues
  import opened EventSteps
  import opened EventTimers

  // event_del_nolock_ followed by event_active_nolock_ with EV_TIMEOUT.
  function Fire(s: State, e: Event): State
    requires e in s.recs && e.pri < |s.active| && !(s.recs[e].flags.active && s.recs[e].flags.later)
  {
    DelEffect(s, e, false);
    Activate(Del(s, e, false), e, true)
  }

  /** The record of an event that has been activated by its timeout. */
  function Fired(r: Rec): Rec {
    r.(flags := NoFlags.(active := true), timedOut := true)
  }

  lemma {:induction false} FireEffect(s: State, e: Event)
    requires Ok(s) && e in s.recs && s.recs[e].flags.timeout
    ensures e.pri < |s.active| && !(s.recs[e].flags.active && s.recs[e].flags.later)
    ensures var t := Fire(s, e);
      Ok(t) && SameBase(s, t) && t.recs == s.recs[e := Fired(s.recs[e])]
  {
    assert Placed(s, e);
    DelOk(s, e, false);
    DelEffect(s, e, false);
    var t := Del(s, e, false);
    ActivateOk(t, e, true);
    ActivateEffect(t, e, true);
    UpdateTwice(s.recs, e, t.recs[e], Fired(s.recs[e]));
  }

  lemma {:induction false} FireInv(s: State, e: Event, k: int)
    requires InvBut(s, k) && e in s.recs && s.recs[e].flags.timeout
    ensures e.pri < |s.active| && !(s.recs[e].flags.active && s.recs[e].flags.later) && InvBut(Fire(s, e), k)
  {
    FireEffect(s, e);
    var t := Fire(s, e);
    if e in s.timers {
      TimerFires(s, e, t, k);
    } else {
      UserStep(s, e, Fired(s.recs[e]), t, k);
    }
  }

  /** A timer that has been activated covers its queue. */
  lemma {:induction false} TimerFires(s: State, m: Event, t: State, k: int)
    requires InvBut(s, k) && m in s.timers && Ok(t) && SameBase(s, t) && m in s.recs
    requires t.recs == s.recs[m := Fired(s.recs[m])]
    ensures InvBut(t, k)
  {
    assert IsTimer(s, m);
    forall x | x in t.timers
      ensures IsTimer(t, x)
    {
      assert IsTimer(s, x);
    }
    forall x | x in t.recs
      ensures Clean(t.recs[x], x, |t.queues|)
    {
      assert Clean(s.recs[x], x, |s.queues|);
    }
    forall x | x in t.recs && t.recs[x].flags.timeout && IsCommon(t, t.recs[x]) && CommonIdx(t.recs[x].timeout) != k
      ensures Covers(t.recs, t.timers[CommonIdx(t.recs[x].timeout)], x)
    {
      assert Covers(s.recs, s.timers[CommonIdx(s.recs[x].timeout)], x);
    }
  }

  // ----- common_timeout_callback -----

  lemma {:induction false} FireQueues(s: State, k: nat)
    requires Ok(s) && k < |s.queues| && s.queues[k] != [] && s.queues[k][0] in s.recs
    ensures var e := s.queues[k][0];
      && s.recs[e].flags.timeout && e.pri < |s.active| && !(s.recs[e].flags.active && s.recs[e].flags.later)
      && Fire(s, e).queues == s.queues[k := s.queues[k][1..]]
  {
    var e := s.queues[k][0];
    assert e in s.queues[k];
    assert Placed(s, e);
    NoTimeoutQueues(s, e, k);
    DelEffect(s, e, false);
    DelQueues(s, e);
    ActivateQueues(Del(s, e, false), e, true);
  }

  lemma {:induction false} NoTimeoutQueues(s: State, e: Event, k: nat)
    requires e in s.recs && s.recs[e].flags.timeout && IsCommon(s, s.recs[e]) && k == CommonIdx(s.recs[e].timeout)
    requires s.queues[k] != [] && s.queues[k][0] == e
    ensures NoTimeout(s, e).queues == s.queues[k := s.queues[k][1..]]
  {
  }

  /** Beyond its timeout, deleting or activating an event does not concern the common-timeout queues. */
  lemma {:induction false} DelQueues(s: State, e: Event)
    requires e in s.recs && e.pri < |s.active| && !s.recs[e].flags.finalizing
    ensures Del(s, e, false).queues == NoTimeout(s, e).queues
  {
  }

  lemma {:induction false} ActivateQueues(s: State, e: Event, timedOut: bool)
    requires e in s.recs && e.pri < |s.active|
    ensures Activate(s, e, timedOut).queues == s.queues
  {
  }

  lemma {:induction false} FirstKnown(s: State, k: nat)
    requires Ok(s) && k < |s.queues| && s.queues[k] != []
    ensures s.queues[k][0] in s.recs
  {
    assert s.queues[k][0] in s.queues[k];
  }

  // The loop of common_timeout_callback: activates the front of the queue, up to what is due later.
  function Drain(s: State, k: nat, now: Timeval): State
    requires Ok(s) && k < |s.queues|
    decreases if k < |s.queues| then |s.queues[k]| else 0
  {
    if s.queues[k] == [] then s else
    FirstKnown(s, k);
    var e := s.queues[k][0];
    if TimerLess(now, Strip(s.recs[e].timeout)) then s else
    FireQueues(s, k);
    FireEffect(s, e);
    Drain(Fire(s, e), k, now)
  }

  /** The deadline of `r` has come. */
  predicate IsDue(r: Rec, now: Timeval) {
    r.flags.timeout && Due(r.timeout) <= Due(now)
  }

  /** `t` differs from `s` in this: the events of `due` have been activated by their timeouts. */
  ghost predicate Activates(s: State, t: State, due: set<Event>) {
    SameBase(s, t) && forall x | x in s.recs :: t.recs[x] == if x in due then Fired(s.recs[x]) else s.recs[x]
  }

  ghost function DueIn(s: State, q: seq<Event>, now: Timeval): set<Event> {
    set e | e in q && e in s.recs && IsDue(s.recs[e], now)
  }

  lemma {:induction false} NoneDue(s: State, q: seq<Event>, now: Timeval)
    requires q != [] && Sorted(s.recs, q) && Due(now) < Due(s.recs[q[0]].timeout)
    ensures DueIn(s, q, now) == {}
  {
    forall x | x in q
      ensures !IsDue(s.recs[x], now)
    {
      var j :| 0 <= j < |q| && q[j] == x;
    }
  }

  lemma {:induction false} DueStep(s: State, u: State, q: seq<Event>, now: Timeval)
    requires q != [] && NoDup(q) && (forall x | x in q :: x in s.recs) && IsDue(s.recs[q[0]], now)
    requires u.recs == s.recs[q[0] := Fired(s.recs[q[0]])]
    ensures DueIn(s, q, now) == DueIn(u, q[1..], now) + {q[0]} && q[0] !in DueIn(u, q[1..], now)
  {
    assert forall x | x in q :: x == q[0] || x in q[1..];
    assert forall x | x in q[1..] :: x in q && x != q[0];
  }

  lemma {:induction false} ActivatesStep(s: State, e: Event, u: State, t: State, due: set<Event>)
    requires e in s.recs && SameBase(s, u) && u.recs == s.recs[e := Fired(s.recs[e])]
    requires Activates(u, t, due) && e !in due
    ensures Activates(s, t, due + {e})
  {
  }

  /** The callback of a common timeout activates exactly the events of its queue that are due. */
  lemma {:induction false} DrainEffect(s: State, k: nat, now: Timeval)
    requires InvBut(s, k) && k < |s.queues| && Plain(now)
    ensures var t := Drain(s, k, now);
      && InvBut(t, k) && Activates(s, t, DueIn(s, s.queues[k], now)) && |t.queues| == |s.queues|
      && (t.queues[k] != [] ==> t.queues[k][0] in t.recs && Due(t.recs[t.queues[k][0]].timeout) > Due(now))
    decreases |s.queues[k]|
  {
    var q := s.queues[k];
    if q == [] {
      assert DueIn(s, q, now) == {};
    } else {
      FirstKnown(s, k);
      var e := q[0];
      SameTagCompare(now, Strip(s.recs[e].timeout));
      FireQueues(s, k);
      if TimerLess(now, Strip(s.recs[e].timeout)) {
        NoneDue(s, q, now);
      } else {
        FireEffect(s, e);
        FireInv(s, e, k);
        var u := Fire(s, e);
        DrainEffect(u, k, now);
        DueStep(s, u, q, now);
        ActivatesStep(s, e, u, Drain(u, k, now), DueIn(u, q[1..], now));
      }
    }
  }

  // event_process_active_single_queue on the timer of queue `k`: common_timeout_callback.
  function RunTimer(s: State, k: nat, now: Timeval): State
    requires Inv(s) && k < |s.timers| && Plain(now)
  {
    TimerRemoved(s, k);
    var s1 := Del(s, s.timers[k], false);
    DrainEffect(s1, k, now);
    var s2 := Drain(s1, k, now);
    if s2.queues[k] != [] then Schedule(s2, k, now) else s2
  }

  lemma {:induction false} TimerRemoved(s: State, k: nat)
    requires Inv(s) && k < |s.timers|
    ensures var m := s.timers[k];
      && m in s.recs && m.pri < |s.active| && !(s.recs[m].flags.active && s.recs[m].flags.later)
      && InvBut(Del(s, m, false), k) && SameBase(s, Del(s, m, false))
      && Del(s, m, false).recs == s.recs[m := s.recs[m].(flags := NoFlags)] && Del(s, m, false).queues == s.queues
  {
    var m := s.timers[k];
    assert m in s.timers && IsTimer(s, m);
    assert Placed(s, m);
    DelOk(s, m, false);
    DelEffect(s, m, false);
    TimerStops(s, k, Del(s, m, false));
  }

  /** Without its timer, only the queue itself is not covered. */
  lemma {:induction false} TimerStops(s: State, k: nat, t: State)
    requires Inv(s) && k < |s.timers| && s.timers[k] in s.recs && Ok(t) && SameBase(s, t)
    requires t.recs == s.recs[s.timers[k] := s.recs[s.timers[k]].(flags := NoFlags)]
    ensures InvBut(t, k)
  {
    assert IsTimer(s, s.timers[k]);
  }

  /** What the callback of a timer does: `due` events are activated, and no timer but its own changes. */
  ghost predicate TimerRan(s: State, k: nat, t: State, due: set<Event>)
    requires HasTimers(s)
  {
    && SameBase(s, t)
    && (forall x | x in s.recs && x !in s.timers :: t.recs[x] == if x in due then Fired(s.recs[x]) else s.recs[x])
    && (forall i {:trigger s.timers[i]} | 0 <= i < |s.timers| && i != k :: t.recs[s.timers[i]] == s.recs[s.timers[i]])
  }

  lemma {:induction false} TimerRanDrain(s: State, k: nat, s1: State, s2: State, now: Timeval)
    requires Inv(s) && k < |s.timers| && s.timers[k] in s.recs && SameBase(s, s1)
    requires s1.recs == s.recs[s.timers[k] := s.recs[s.timers[k]].(flags := NoFlags)]
    requires Activates(s1, s2, DueIn(s1, s.queues[k], now))
    ensures TimerRan(s, k, s2, DueIn(s, s.queues[k], now))
  {
    forall x | x in s.queues[k]
      ensures x in s.recs && x !in s.timers
    {
      assert Placed(s, x);
    }
    assert DueIn(s1, s.queues[k], now) == DueIn(s, s.queues[k], now);
  }

  lemma {:induction false} TimerRanSchedule(s: State, k: nat, s2: State, t: State, r: Rec, due: set<Event>)
    requires HasTimers(s) && k < |s.timers| && TimerRan(s, k, s2, due)
    requires SameBase(s2, t) && t.recs == s2.recs[s.timers[k] := r]
    ensures TimerRan(s, k, t, due)
  {
  }

  lemma {:induction false} RunTimerEffect(s: State, k: nat, now: Timeval)
    requires Inv(s) && k < |s.timers| && Plain(now)
    ensures var t := RunTimer(s, k, now);
      Inv(t) && TimerRan(s, k, t, DueIn(s, s.queues[k], now))
  {
    TimerRemoved(s, k);
    var m := s.timers[k];
    var s1 := Del(s, m, false);
    DrainEffect(s1, k, now);
    var s2 := Drain(s1, k, now);
    TimerRanDrain(s, k, s1, s2, now);
    if s2.queues[k] != [] {
      ScheduleInv(s2, k, now);
      var tv := Strip(s2.recs[s2.queues[k][0]].timeout);
      TimedEffect(s2, m, tv, true, now);
      TimerRanSchedule(s, k, s2, Timed(s2, m, tv, true, now), Armed(s2.recs[m], m, tv, true, now, |s2.queues|),
                       DueIn(s, s.queues[k], now));
    } else {
      NothingQueued(s2, k);
    }
  }

  /** An empty queue needs no timer. */
  lemma {:induction false} NothingQueued(s: State, k: nat)
    requires InvBut(s, k) && k < |s.queues| && s.queues[k] == []
    ensures Inv(s)
  {
    forall e | e in s.recs && s.recs[e].flags.timeout && IsCommon(s, s.recs[e])
      ensures CommonIdx(s.recs[e].timeout) != k
    {
      assert Placed(s, e);
    }
  }

  // ----- timeout_process -----

  // What min_heap_top_ promises: an event with a least deadline.
  ghost predicate IsTop(s: State, e: Event) {
    e in s.heap && e in s.recs && forall x | x in s.heap && x in s.recs :: !TimerLess(s.recs[x].timeout, s.recs[e].timeout)
  }

  /** One round of timeout_process: the top of the heap is due and gets activated. */
  ghost predicate Expires(s: State, e: Event, t: State, now: Timeval) {
    Ok(s) && IsTop(s, e) && s.recs[e].flags.timeout && !TimerLess(now, s.recs[e].timeout) && (FireEffect(s, e); t == Fire(s, e))
  }

  /** Rounds of timeout_process, one after the other: `states` are what they go through, `order` what they activate. */
  ghost predicate ExpiresInTurn(states: seq<State>, order: seq<Event>, now: Timeval) {
    && |states| == |order| + 1
    && forall i {:trigger order[i]} | 0 <= i < |order| :: Expires(states[i], order[i], states[i + 1], now)
  }

  lemma {:induction false} ExpiresOneMore(states: seq<State>, order: seq<Event>, e: Event, t: State, now: Timeval)
    requires ExpiresInTurn(states, order, now) && Expires(states[|order|], e, t, now)
    ensures ExpiresInTurn(states + [t], order + [e], now)
  {
    var states', order' := states + [t], order + [e];
    forall i | 0 <= i < |order'|
      ensures Expires(states'[i], order'[i], states'[i + 1], now)
    {
      assert i < |order| ==> order'[i] == order[i];
    }
  }

  ghost predicate NoneExpired(s: State, now: Timeval) {
    forall x | x in s.heap && x in s.recs :: TimerLess(now, s.recs[x].timeout)
  }

  /** A run of timeout_process, until nothing in the heap is due. */
  ghost predicate Processes(states: seq<State>, order: seq<Event>, now: Timeval) {
    ExpiresInTurn(states, order, now) && NoneExpired(states[|order|], now)
  }

  ghost function DueInHeap(s: State, now: Timeval): set<Event> {
    set e | e in s.heap && e in s.recs && IsDue(s.recs[e], now)
  }

  /** Deadlines in the heap carry no tag, so they compare as moments. */
  lemma {:induction false} HeapCompare(s: State, e: Event, now: Timeval)
    requires Inv(s) && e in s.heap && Plain(now)
    ensures e in s.recs && s.recs[e].flags.timeout
    ensures TimerLess(now, s.recs[e].timeout) <==> Due(now) < Due(s.recs[e].timeout)
    ensures TimerLess(s.recs[e].timeout, now) <==> Due(s.recs[e].timeout) < Due(now)
  {
    assert Placed(s, e);
    assert Clean(s.recs[e], e, |s.queues|);
    SameTagCompare(now, s.recs[e].timeout);
    SameTagCompare(s.recs[e].timeout, now);
  }

  lemma {:induction false} DueInHeapStep(s: State, e: Event, u: State, now: Timeval)
    requires Ok(s) && Ok(u) && e in s.heap && e in s.recs && IsDue(s.recs[e], now)
    requires SameBase(s, u) && u.recs == s.recs[e := Fired(s.recs[e])]
    ensures DueInHeap(s, now) == DueInHeap(u, now) + {e} && e !in DueInHeap(u, now)
  {
    forall x | x in s.recs
      ensures x in DueInHeap(s, now) <==> x == e || x in DueInHeap(u, now)
    {
      assert Placed(s, x) && Placed(u, x);
    }
  }

  lemma {:induction false} NoneInHeapDue(s: State, now: Timeval)
    requires Inv(s) && NoneExpired(s, now) && Plain(now)
    ensures DueInHeap(s, now) == {}
  {
    forall x | x in s.heap
      ensures x !in DueInHeap(s, now)
    {
      HeapCompare(s, x, now);
    }
  }

  lemma {:induction false} ProcessesTail(states: seq<State>, order: seq<Event>, now: Timeval)
    requires Processes(states, order, now) && order != []
    ensures Processes(states[1..], order[1..], now) && Expires(states[0], order[0], states[1], now)
  {
    assert forall i | 0 <= i < |order[1..]| :: order[1..][i] == order[i + 1];
  }

  /** One round, and what it leaves to the others. */
  lemma {:induction false} ExpiresEffect(s: State, e: Event, u: State, now: Timeval)
    requires Inv(s) && Expires(s, e, u, now) && Plain(now)
    ensures e in s.recs && Inv(u) && SameBase(s, u) && u.recs == s.recs[e := Fired(s.recs[e])]
    ensures DueInHeap(s, now) == DueInHeap(u, now) + {e} && e !in DueInHeap(u, now)
  {
    HeapCompare(s, e, now);
    FireEffect(s, e);
    FireInv(s, e, -1);
    DueInHeapStep(s, e, u, now);
  }

  /** timeout_process activates exactly the events of the heap whose deadline has come. */
  lemma {:induction false} ProcessesEffect(states: seq<State>, order: seq<Event>, now: Timeval)
    requires Processes(states, order, now) && Inv(states[0]) && Plain(now)
    ensures var s := states[0]; var t := states[|order|];
      && Inv(t) && Activates(s, t, DueInHeap(s, now))
      && forall e | e in s.recs :: e in order <==> e in DueInHeap(s, now)
    decreases |order|
  {
    var s, t := states[0], states[|order|];
    if order == [] {
      NoneInHeapDue(s, now);
    } else {
      var e, u := order[0], states[1];
      ProcessesTail(states, order, now);
      ExpiresEffect(s, e, u, now);
      ProcessesEffect(states[1..], order[1..], now);
      ActivatesStep(s, e, u, t, DueInHeap(u, now));
    }
  }

  // ----- both together -----

  /** One of the timers in `ran` will activate this event. */
  ghost predicate IsDueBehind(s: State, e: Event, ran: seq<nat>, now: Timeval)
    requires HasTimers(s) && e in s.recs
  {
    IsDue(s.recs[e], now) && IsCommon(s, s.recs[e]) && CommonIdx(s.recs[e].timeout) in ran
  }

  /** `t` is `s` after the timers in `ran` have run. */
  ghost predicate TimersRan(s: State, ran: seq<nat>, t: State, now: Timeval)
    requires HasTimers(s)
  {
    && SameBase(s, t)
    && (forall x | x in s.recs && x !in s.timers ::
          t.recs[x] == if IsDueBehind(s, x, ran, now) then Fired(s.recs[x]) else s.recs[x])
    && (forall i: nat {:trigger s.timers[i]} | i < |s.timers| && i !in ran :: t.recs[s.timers[i]] == s.recs[s.timers[i]])
  }

  /** The timer of queue `k` is active and runs. */
  ghost predicate Runs(s: State, k: nat, t: State, now: Timeval)
    requires Plain(now)
  {
    Inv(s) && k < |s.timers| && s.timers[k] in s.recs && s.recs[s.timers[k]].flags.active && t == RunTimer(s, k, now)
  }

  /** Every timer that is active has its turn. */
  ghost predicate AllActiveIn(t: State, turns: seq<nat>) {
    forall k: nat {:trigger t.timers[k]} | k < |t.timers| && t.timers[k] in t.recs ::
      t.recs[t.timers[k]].flags.active ==> k in turns
  }

  /** All active timers run, one after the other, in the order of `turns`. */
  ghost predicate RunsTimers(states: seq<State>, turns: seq<nat>, now: Timeval)
    requires Plain(now)
  {
    && |states| == |turns| + 1 && NoDup(turns)
    && (forall i {:trigger turns[i]} | 0 <= i < |turns| :: Runs(states[i], turns[i], states[i + 1], now))
    && AllActiveIn(states[0], turns)
  }

  /** How one user event fares when the timer of queue `k` runs after those before it. */
  lemma {:induction false} RunTimersAt(s: State, ran: seq<nat>, k: nat, p: State, t: State, now: Timeval, x: Event)
    requires HasTimers(s) && k < |s.timers| && TimersRan(s, ran, p, now) && k !in ran
    requires Shape(p) && x in s.recs && x !in s.timers
    requires t.recs.Keys == s.recs.Keys
    requires t.recs[x] == if x in DueIn(p, p.queues[k], now) then Fired(p.recs[x]) else p.recs[x]
    ensures t.recs[x] == if IsDueBehind(s, x, ran + [k], now) then Fired(s.recs[x]) else s.recs[x]
  {
    assert Placed(p, x);
  }

  lemma {:induction false} RunTimersStep(s: State, ran: seq<nat>, k: nat, p: State, t: State, now: Timeval)
    requires HasTimers(s) && HasTimers(p) && k < |s.timers| && TimersRan(s, ran, p, now) && k !in ran
    requires Shape(p) && TimerRan(p, k, t, DueIn(p, p.queues[k], now))
    ensures TimersRan(s, ran + [k], t, now)
  {
    forall x | x in s.recs && x !in s.timers
      ensures t.recs[x] == if IsDueBehind(s, x, ran + [k], now) then Fired(s.recs[x]) else s.recs[x]
    {
      RunTimersAt(s, ran, k, p, t, now, x);
    }
  }

  lemma {:induction false} RunsEffect(s: State, ran: seq<nat>, k: nat, p: State, t: State, now: Timeval)
    requires HasTimers(s) && Plain(now) && TimersRan(s, ran, p, now) && k !in ran && Runs(p, k, t, now)
    ensures TimersRan(s, ran + [k], t, now)
  {
    RunTimerEffect(p, k, now);
    RunTimersStep(s, ran, k, p, t, now);
  }

  lemma {:induction false} NoneRan(s: State, now: Timeval)
    requires HasTimers(s)
    ensures TimersRan(s, [], s, now)
  {
  }

  lemma {:induction false} NextTurn(turns: seq<nat>, n: nat)
    requires NoDup(turns) && n < |turns|
    ensures turns[n] !in turns[..n] && turns[..n + 1] == turns[..n] + [turns[n]]
  {
  }

  lemma {:induction false} OneTurn(states: seq<State>, turns: seq<nat>, n: nat, now: Timeval)
    requires Plain(now) && RunsTimers(states, turns, now) && HasTimers(states[0]) && n < |turns|
    requires TimersRan(states[0], turns[..n], states[n], now)
    ensures TimersRan(states[0], turns[..n + 1], states[n + 1], now)
  {
    NextTurn(turns, n);
    RunsEffect(states[0], turns[..n], turns[n], states[n], states[n + 1], now);
  }

  lemma {:induction false} RunsTimersEffect(states: seq<State>, turns: seq<nat>, n: nat, now: Timeval)
    requires Plain(now) && RunsTimers(states, turns, now) && HasTimers(states[0]) && n <= |turns|
    ensures TimersRan(states[0], turns[..n], states[n], now)
  {
    if n == 0 {
      NoneRan(states[0], now);
    } else {
      RunsTimersEffect(states, turns, n - 1, now);
      OneTurn(states, turns, n - 1, now);
    }
  }

  lemma {:induction false} RunsTimersInv(states: seq<State>, turns: seq<nat>, now: Timeval)
    requires Plain(now) && RunsTimers(states, turns, now) && Inv(states[0])
    ensures Inv(states[|turns|])
  {
    if turns != [] {
      var i := |turns| - 1;
      assert Runs(states[i], turns[i], states[i + 1], now);
      RunTimerEffect(states[i], turns[i], now);
    }
  }

  /** The user events that a base with all its timeouts in one heap would activate. */
  ghost predicate DueInOneHeap(s: State, e: Event, now: Timeval)
    requires e in s.recs
  {
    IsDue(s.recs[e], now)
  }

  /**
   * Common-timeout queues lose nothing: once timeout_process has activated what is due in the heap, and the
   * timers it activated have run, in any order, exactly those user events have been activated whose deadline
   * has come, as if all of them had been in one heap; no other event has changed.
   */
  lemma {:induction false} SameAsOneHeap(states: seq<State>, order: seq<Event>, after: seq<State>, turns: seq<nat>, now: Timeval)
    requires Plain(now) && Processes(states, order, now) && Inv(states[0])
    requires RunsTimers(after, turns, now) && after[0] == states[|order|]
    ensures var s := states[0]; var u := after[|turns|];
      Inv(u) && SameBase(s, u) && forall e | e in s.recs && e !in s.timers ::
        u.recs[e] == if DueInOneHeap(s, e, now) then Fired(s.recs[e]) else s.recs[e]
  {
    ProcessesEffect(states, order, now);
    RunsTimersEffect(after, turns, |turns|, now);
    RunsTimersInv(after, turns, now);
    assert turns[..|turns|] == turns;
    var s, t, u := states[0], after[0], after[|turns|];
    forall e | e in s.recs && e !in s.timers
      ensures u.recs[e] == if DueInOneHeap(s, e, now) then Fired(s.recs[e]) else s.recs[e]
    {
      OneHeapAt(s, t, turns, now, e);
    }
  }

  /** After timeout_process, a user event that is due has been activated, or the timer of its queue has. */
  lemma {:induction false} OneHeapAt(s: State, t: State, turns: seq<nat>, now: Timeval, e: Event)
    requires Inv(s) && e in s.recs && e !in s.timers && Activates(s, t, DueInHeap(s, now)) && HasTimers(t)
    requires AllActiveIn(t, turns)
    ensures t.recs[e] == if DueInOneHeap(s, e, now) && !IsCommon(s, s.recs[e]) then Fired(s.recs[e]) else s.recs[e]
    ensures IsDueBehind(t, e, turns, now) <==> DueInOneHeap(s, e, now) && IsCommon(s, s.recs[e])
  {
    assert Placed(s, e);
    if DueInOneHeap(s, e, now) && IsCommon(s, s.recs[e]) {
      var k := CommonIdx(s.recs[e].timeout);
      var m := s.timers[k];
      assert Covers(s.recs, m, e);
      assert m in s.timers && IsTimer(s, m);
      assert Placed(s, m);
      assert m == t.timers[k];
    }
  }
}
