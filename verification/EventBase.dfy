// struct event_base and the functions of event.c that change it in place.
module EventBases {
  import opened Bytes
  import opened EventTime
  import opened EventState
  import opened Queues
  import opened EventSteps
  import opened EventTimers
  import opened EventDue
  import opened EventRuns
  import opened EventDeferred

  class EventBase {
    var heap: set<Event>
    var queues: seq<seq<Event>>
    var timers: seq<Event>
    var durations: seq<Timeval>
    var active: seq<seq<Event>>
    var later: seq<Event>
    var count: int
    var countActive: int
    var deferreds: nat

    ghost var events: set<Event>

    ghost function Recs(): map<Event, Rec>
      reads this`events, events
    {
      map e | e in events :: e.rec
    }

    // event_base_new, with `n` priorities
    constructor (n: nat)
      ensures View() == New(n) && fresh(this)
    {
      heap, queues, timers, durations, active, later := {}, [], [], [], seq(n, i => []), [];
      count, countActive, deferreds, events := 0, 0, 0, {};
    }

    /** The base and its events as a value. */
    ghost function View(): State
      reads this, events
    {
      State(Recs(), heap, queues, timers, durations, active, later, count, countActive, deferreds)
    }

    // Assigns to fields of an event that are in no queue's interest.
    method SetRec(e: Event, r: Rec)
      requires e in events
      modifies e
      ensures View() == WithRec(old(View()), e, r) && e.rec == r
    {
      e.rec := r;
    }

    // INCR_EVENT_COUNT or DECR_EVENT_COUNT, and one of the EVLIST_* flags.
    method SetFlag(e: Event, b: Bit, on: bool)
      requires e in events
      modifies this`count, e
      ensures View() == Toggle(old(View()), e, b, on) && e.rec == old(e.rec).(flags := Put(old(e.rec).flags, b, on))
    {
      count := if e.internal then count else if on then count + 1 else count - 1;
      e.rec := e.rec.(flags := Put(e.rec.flags, b, on));
    }

    // event_queue_remove_inserted
    method QueueRemoveInserted(e: Event)
      requires e in events
      modifies this`count, e
      ensures View() == RemoveInserted(old(View()), e)
    {
      SetFlag(e, Inserted, false);
    }

    // event_queue_insert_inserted
    method QueueInsertInserted(e: Event)
      requires e in events
      modifies this`count, e
      ensures View() == InsertInserted(old(View()), e)
    {
      SetFlag(e, Inserted, true);
    }

    // event_queue_remove_active
    method QueueRemoveActive(e: Event)
      requires e in events && e.pri < |active|
      modifies this`count, this`countActive, this`active, e
      ensures View() == RemoveActive(old(View()), e)
    {
      SetFlag(e, Active, false);
      countActive := countActive - 1;
      active := active[e.pri := Remove(active[e.pri], e)];
    }

    // event_queue_insert_active
    method QueueInsertActive(e: Event)
      requires e in events && e.pri < |active|
      modifies this`count, this`countActive, this`active, e
      ensures View() == InsertActive(old(View()), e)
    {
      if e.rec.flags.active {
        return;
      }
      SetFlag(e, Active, true);
      countActive := countActive + 1;
      active := active[e.pri := active[e.pri] + [e]];
    }

    // event_queue_remove_active_later
    method QueueRemoveLater(e: Event)
      requires e in events
      modifies this`count, this`countActive, this`later, e
      ensures View() == RemoveLater(old(View()), e)
    {
      SetFlag(e, ActiveLater, false);
      countActive := countActive - 1;
      later := Remove(later, e);
    }

    // event_queue_insert_active_later
    method QueueInsertLater(e: Event)
      requires e in events
      modifies this`count, this`countActive, this`later, e
      ensures View() == InsertLater(old(View()), e)
    {
      if e.rec.flags.active || e.rec.flags.later {
        return;
      }
      SetFlag(e, ActiveLater, true);
      countActive := countActive + 1;
      later := later + [e];
    }

    // event_queue_remove_timeout
    method QueueRemoveTimeout(e: Event)
      requires e in events
      modifies this`count, this`queues, this`heap, e
      ensures View() == RemoveTimeout(old(View()), e)
    {
      SetFlag(e, InTimeout, false);
      if IsCommonTimeout(e.rec.timeout, |queues|) {
        var i := CommonIdx(e.rec.timeout);
        queues := queues[i := Remove(queues[i], e)];
      } else {
        heap := heap - {e};
      }
    }

    // insert_common_timeout_inorder
    method InsertCommonTimeoutInOrder(i: nat, e: Event)
      requires i < |queues| && e in events && Closed(events, queues[i])
      modifies this`queues
      ensures queues == old(queues)[i := InsertInOrder(old(queues)[i], e, Recs())]
    {
      var q := queues[i];
      var k: nat := |q|;
      while k > 0 && TimerLess(e.rec.timeout, q[k - 1].rec.timeout)
        invariant k <= |q| && PosInOrder(q, e, Recs(), k) == PosInOrder(q, e, Recs(), |q|)
      {
        assert q[k - 1] in q;
        k := k - 1;
      }
      assert k > 0 ==> q[k - 1] in q;
      queues := queues[i := q[..k] + [e] + q[k..]];
    }

    // event_queue_insert_timeout
    method QueueInsertTimeout(e: Event)
      requires e in events
      requires IsCommonTimeout(e.rec.timeout, |queues|) ==> Closed(events, queues[CommonIdx(e.rec.timeout)])
      modifies this`count, this`queues, this`heap, e
      ensures View() == InsertTimeout(old(View()), e)
    {
      ghost var before := Recs();
      SetFlag(e, InTimeout, true);
      if IsCommonTimeout(e.rec.timeout, |queues|) {
        var i := CommonIdx(e.rec.timeout);
        SamePlace(queues[i], e, before, Recs());
        InsertCommonTimeoutInOrder(i, e);
      } else {
        heap := heap + {e};
      }
    }

    // event_del_nolock_
    method DelNolock(e: Event, evenIfFinalizing: bool)
      requires e in events && e.pri < |active|
      modifies this`count, this`countActive, this`queues, this`heap, this`active, this`later, e
      ensures View() == Del(old(View()), e, evenIfFinalizing)
    {
      if e.rec.flags.finalizing && !evenIfFinalizing {
        return;
      }
      if e.rec.flags.timeout {
        QueueRemoveTimeout(e);
      }
      if e.rec.flags.active {
        QueueRemoveActive(e);
      } else if e.rec.flags.later {
        QueueRemoveLater(e);
      }
      if e.rec.flags.inserted {
        QueueRemoveInserted(e);
      }
    }

    // event_callback_activate_nolock_
    method CallbackActivateNolock(e: Event) returns (r: int)
      requires e in events && e.pri < |active|
      modifies this`count, this`countActive, this`active, this`later, e
      ensures (View(), r) == CallbackActivate(old(View()), e)
    {
      r := 1;
      if e.rec.flags.finalizing {
        return 0;
      }
      if e.rec.flags.active {
        return 0;
      } else if e.rec.flags.later {
        QueueRemoveLater(e);
        r := 0;
      }
      QueueInsertActive(e);
    }

    // event_callback_activate_later_nolock_
    method CallbackActivateLaterNolock(e: Event) returns (r: int)
      requires e in events
      modifies this`count, this`countActive, this`later, e
      ensures (View(), r) == CallbackActivateLater(old(View()), e)
    {
      if e.rec.flags.active || e.rec.flags.later {
        return 0;
      }
      QueueInsertLater(e);
      return 1;
    }

    // event_active_nolock_
    method ActiveNolock(e: Event, timedOut: bool)
      requires e in events && e.pri < |active|
      modifies this`count, this`countActive, this`active, this`later, e
      ensures View() == Activate(old(View()), e, timedOut)
    {
      if e.rec.flags.finalizing {
        return;
      }
      if e.rec.flags.active {
        SetRec(e, e.rec.(timedOut := e.rec.timedOut || timedOut));
        return;
      } else if e.rec.flags.later {
        SetRec(e, e.rec.(timedOut := e.rec.timedOut || timedOut));
      } else {
        SetRec(e, e.rec.(timedOut := timedOut));
      }
      var _ := CallbackActivateNolock(e);
    }

    // event_active_later_nolock_
    method ActiveLaterNolock(e: Event, timedOut: bool)
      requires e in events
      modifies this`count, this`countActive, this`later, e
      ensures View() == ActivateLater(old(View()), e, timedOut)
    {
      if e.rec.flags.active || e.rec.flags.later {
        SetRec(e, e.rec.(timedOut := e.rec.timedOut || timedOut));
        return;
      }
      SetRec(e, e.rec.(timedOut := timedOut));
      var _ := CallbackActivateLaterNolock(e);
    }

    // event_callback_cancel_nolock_
    method CallbackCancelNolock(e: Event, evenIfFinalizing: bool)
      requires e in events && e.pri < |active|
      modifies this`count, this`countActive, this`queues, this`heap, this`active, this`later, e
      ensures View() == Cancel(old(View()), e, evenIfFinalizing)
    {
      if e.rec.flags.finalizing && !evenIfFinalizing {
        return;
      }
      if e.isEvent {
        DelNolock(e, evenIfFinalizing);
      } else if e.rec.flags.active {
        QueueRemoveActive(e);
      } else if e.rec.flags.later {
        QueueRemoveLater(e);
      }
    }

    // event_deferred_cb_schedule_
    method DeferredSchedule(e: Event) returns (r: int)
      requires e in events && e.pri < |active|
      modifies this`count, this`countActive, this`active, this`later, this`deferreds, e
      ensures (View(), r) == Defer(old(View()), e)
    {
      if deferreds > MAX_DEFERREDS_QUEUED {
        r := CallbackActivateLaterNolock(e);
      } else {
        r := CallbackActivateNolock(e);
        if r != 0 {
          deferreds := deferreds + 1;
        }
      }
    }

    // event_finalize_nolock_
    method FinalizeNolock(e: Event)
      requires e in events && e.pri < |active|
      modifies this`count, this`countActive, this`queues, this`heap, this`active, this`later, e
      ensures View() == Finalize(old(View()), e)
    {
      DelNolock(e, false);
      ActiveNolock(e, false);
      SetRec(e, Finalizing(e.rec));
    }

    // event_callback_finalize_nolock_
    method CallbackFinalizeNolock(e: Event)
      requires e in events && e.pri < |active|
      modifies this`count, this`countActive, this`queues, this`heap, this`active, this`later, e
      ensures View() == CallbackFinalize(old(View()), e)
    {
      if e.isEvent {
        DelNolock(e, false);
      } else {
        CallbackCancelNolock(e, false);
      }
      var _ := CallbackActivateNolock(e);
      SetRec(e, Finalizing(e.rec));
    }

    // event_remove_timer_nolock_
    method RemoveTimerNolock(e: Event)
      requires e in events
      modifies this`count, this`queues, this`heap, e
      ensures View() == RemoveTimer(old(View()), e)
    {
      if e.rec.flags.timeout {
        QueueRemoveTimeout(e);
        SetRec(e, e.rec.(ioTimeout := Timeval(0, 0)));
      }
    }

    // The steps of event_add_nolock_ up to the new deadline.
    method ClearTimeout(e: Event, tv: Timeval, absolute: bool)
      requires e in events && e.pri < |active|
      modifies this`count, this`countActive, this`queues, this`heap, this`active, e
      ensures View() == Cleared(old(View()), e, tv, absolute)
    {
      if e.Repeats() && !absolute {
        SetRec(e, e.rec.(ioTimeout := tv));
      }
      if e.rec.flags.timeout {
        QueueRemoveTimeout(e);
      }
      if e.rec.flags.active && e.rec.timedOut {
        QueueRemoveActive(e);
      }
    }

    // Sets the deadline and inserts the event.
    method SetDeadline(e: Event, deadline: Timeval)
      requires Ok(View()) && e in events && !e.rec.flags.timeout && !e.rec.flags.finalizing
      modifies this`count, this`queues, this`heap, e
      ensures View() == StartTimeout(old(View()), e, deadline)
    {
      WithRecOk(View(), e, e.rec.(timeout := deadline));
      SetRec(e, e.rec.(timeout := deadline));
      if IsCommonTimeout(deadline, |queues|) {
        QueueClosed(View(), CommonIdx(deadline));
      }
      QueueInsertTimeout(e);
    }

    // event_add_nolock_ once the event is inserted, without the timer of its queue.
    method SetTimeout(e: Event, tv: Timeval, absolute: bool, now: Timeval)
      requires Ok(View()) && MayTime(View(), e, tv, absolute, now)
      modifies this`count, this`countActive, this`queues, this`heap, this`active, e
      ensures View() == Timed(old(View()), e, tv, absolute, now)
    {
      ghost var s := View();
      ClearedOk(s, e, tv, absolute);
      ClearedEffect(s, e, tv, absolute);
      ClearTimeout(e, tv, absolute);
      assert View().recs[e] == e.rec;
      SetDeadline(e, Deadline(tv, absolute, now, |queues|));
    }

    // common_timeout_schedule. For a timer, event_add_nolock_ comes down to setting its timeout: it is
    // neither finalizing nor in the I/O map, and the deadline it is given carries no tag.
    method CommonTimeoutSchedule(k: nat, now: Timeval, head: Event)
      requires k < |queues| && InvBut(View(), k) && queues[k] != [] && head == queues[k][0] && Plain(now)
      modifies this`count, this`countActive, this`queues, this`heap, this`active, events
      ensures View() == Schedule(old(View()), k, now)
    {
      ScheduleInv(View(), k, now);
      SetTimeout(timers[k], Strip(head.rec.timeout), true, now);
    }

    // event_add_nolock_
    method AddNolock(e: Event, tv: Option<Timeval>, absolute: bool, now: Timeval, mapOk: bool) returns (res: int)
      requires Inv(View()) && IsUser(View(), e) && e.isEvent && Plain(now)
      requires tv.Some? ==> GoodTimeout(View(), e, tv.value, absolute)
      modifies this`count, this`countActive, this`queues, this`heap, this`active, events
      ensures (View(), res) == Add(old(View()), e, tv, absolute, now, mapOk)
    {
      if e.rec.flags.finalizing {
        return -1;
      }
      if e.io && !e.rec.flags.inserted && !e.rec.flags.active && !e.rec.flags.later {
        if !mapOk {
          return -1;
        }
        InsertedInv(View(), e);
        QueueInsertInserted(e);
      }
      if tv.Some? {
        AddTimeoutNolock(e, tv.value, absolute, now);
      }
      return 0;
    }

    // The timeout part of event_add_nolock_.
    method AddTimeoutNolock(e: Event, tv: Timeval, absolute: bool, now: Timeval)
      requires Inv(View()) && e !in timers && MayTime(View(), e, tv, absolute, now)
      modifies this`count, this`countActive, this`queues, this`heap, this`active, events
      ensures View() == AddTimeout(old(View()), e, tv, absolute, now)
    {
      TimedInv(View(), e, tv, absolute, now);
      TimedEffect(View(), e, tv, absolute, now);
      DeadlineFacts(tv, absolute, now, |queues|);
      var common := IsCommonTimeout(tv, |queues|);
      SetTimeout(e, tv, absolute, now);
      if common {
        var k := CommonIdx(tv);
        if queues[k] != [] && queues[k][0] == e {
          CommonTimeoutSchedule(k, now, e);
        }
      }
    }

    // event_del_nolock_ and event_active_nolock_ with EV_TIMEOUT, as timers do to an event that is due.
    method Expire(e: Event)
      requires e in events && e.pri < |active| && !(e.rec.flags.active && e.rec.flags.later)
      modifies this`count, this`countActive, this`queues, this`heap, this`active, this`later, e
      ensures View() == Fire(old(View()), e)
    {
      DelEffect(View(), e, false);
      DelNolock(e, false);
      ActiveNolock(e, true);
    }

    // One round of the loop in common_timeout_callback.
    method ExpireFirst(k: nat, now: Timeval)
      requires Ok(View()) && k < |queues| && queues[k] != [] && queues[k][0] in events
      requires !TimerLess(now, Strip(queues[k][0].rec.timeout))
      modifies this`count, this`countActive, this`queues, this`heap, this`active, this`later, events
      ensures |queues| == |old(queues)| && queues[k] == old(queues[k])[1..]
      ensures Ok(View()) && Drain(View(), k, now) == Drain(old(View()), k, now)
      ensures queues[k] != [] ==> queues[k][0] in events
    {
      FirstKnown(View(), k);
      FireQueues(View(), k);
      FireEffect(View(), queues[k][0]);
      Expire(queues[k][0]);
      if queues[k] != [] {
        FirstKnown(View(), k);
      }
    }

    // The loop of common_timeout_callback.
    method DrainCommonTimeout(k: nat, now: Timeval)
      requires Ok(View()) && k < |queues|
      modifies this`count, this`countActive, this`queues, this`heap, this`active, this`later, events
      ensures View() == Drain(old(View()), k, now)
    {
      if queues[k] != [] {
        FirstKnown(View(), k);
      }
      while queues[k] != [] && !TimerLess(now, Strip(queues[k][0].rec.timeout))
        invariant Ok(View()) && k < |queues| && Drain(View(), k, now) == Drain(old(View()), k, now)
        invariant queues[k] != [] ==> queues[k][0] in events
        decreases |queues[k]|
      {
        ExpireFirst(k, now);
      }
    }

    // event_process_active_single_queue on a timer: event_del_nolock_, then common_timeout_callback.
    method CommonTimeoutCallback(k: nat, now: Timeval)
      requires Inv(View()) && k < |timers| && Plain(now)
      modifies this`count, this`countActive, this`queues, this`heap, this`active, this`later, events
      ensures View() == RunTimer(old(View()), k, now)
    {
      TimerRemoved(View(), k);
      DelNolock(timers[k], false);
      DrainEffect(View(), k, now);
      DrainCommonTimeout(k, now);
      ScheduleNext(k, now);
    }

    // The end of common_timeout_callback: the timer is set for the first event that is left.
    method ScheduleNext(k: nat, now: Timeval)
      requires k < |queues| && InvBut(View(), k) && Plain(now)
      modifies this`count, this`countActive, this`queues, this`heap, this`active, events
      ensures View() == if old(queues[k]) != [] then Schedule(old(View()), k, now) else old(View())
    {
      if queues[k] != [] {
        CommonTimeoutSchedule(k, now, queues[k][0]);
      }
    }

    // min_heap_top_
    method MinHeapTop() returns (e: Event)
      requires Ok(View()) && heap != {}
      ensures IsTop(View(), e)
    {
      HeapHasTop(View(), heap);
      e :| e in heap && forall x | x in heap :: !TimerLess(x.rec.timeout, e.rec.timeout);
    }

    // One round of timeout_process.
    method ExpireTop(e: Event, now: Timeval)
      requires Inv(View()) && IsTop(View(), e) && !TimerLess(now, e.rec.timeout) && Plain(now)
      modifies this`count, this`countActive, this`queues, this`heap, this`active, this`later, e
      ensures Inv(View()) && Expires(old(View()), e, View(), now)
      ensures heap == old(heap) - {e}
    {
      HeapCompare(View(), e, now);
      FireEffect(View(), e);
      FireInv(View(), e, -1);
      FireHeap(View(), e);
      Expire(e);
    }

    // One round of the loop in timeout_process, unless there is nothing left to do.
    method ExpireNext(now: Timeval, ghost states0: seq<State>, ghost order0: seq<Event>)
      returns (done: bool, ghost states: seq<State>, ghost order: seq<Event>)
      requires Inv(View()) && Plain(now) && heap != {} && ExpiresInTurn(states0, order0, now) && states0[|order0|] == View()
      modifies this`count, this`countActive, this`queues, this`heap, this`active, this`later, events
      ensures Inv(View()) && ExpiresInTurn(states, order, now) && states[0] == states0[0] && states[|order|] == View()
      ensures if done then NoneExpired(View(), now) else |heap| < |old(heap)|
    {
      var e := MinHeapTop();
      if TimerLess(now, e.rec.timeout) {
        TopIsLater(View(), e, now);
        return true, states0, order0;
      }
      ExpireTop(e, now);
      ExpiresOneMore(states0, order0, e, View(), now);
      done, states, order := false, states0 + [View()], order0 + [e];
    }

    // timeout_process
    method TimeoutProcess(now: Timeval) returns (ghost states: seq<State>, ghost order: seq<Event>)
      requires Inv(View()) && Plain(now)
      modifies this`count, this`countActive, this`queues, this`heap, this`active, this`later, events
      ensures Processes(states, order, now) && states[0] == old(View()) && states[|order|] == View()
      ensures Inv(View()) && Activates(old(View()), View(), DueInHeap(old(View()), now))
    {
      states, order := [View()], [];
      var done := false;
      while heap != {} && !done
        invariant Inv(View()) && ExpiresInTurn(states, order, now)
        invariant states[0] == old(View()) && states[|order|] == View()
        invariant done ==> NoneExpired(View(), now)
        decreases !done, |heap|
      {
        done, states, order := ExpireNext(now, states, order);
      }
      ProcessesEffect(states, order, now);
    }

    // event_queue_make_later_events_active
    method MakeLaterEventsActive()
      requires Inv(View())
      modifies this`later, this`active, this`deferreds, events
      ensures View() == MakeActive(old(View()))
    {
      while later != []
        invariant Inv(View()) && MakeActive(View()) == MakeActive(old(View()))
        decreases |later|
      {
        MakeFirstLaterActive();
      }
    }

    // One round of event_queue_make_later_events_active.
    method MoveFirstLater()
      requires later != [] && later[0] in events && later[0].pri < |active|
      modifies this`later, this`active, this`deferreds, events
      ensures View() == MakeOneActive(old(View()))
    {
      var e := later[0];
      SetRec(e, e.rec.(flags := e.rec.flags.(later := false, active := true)));
      later := later[1..];
      active := active[e.pri := active[e.pri] + [e]];
      deferreds := deferreds + if e.rec.deferred then 1 else 0;
    }

    method MakeFirstLaterActive()
      requires Inv(View()) && later != []
      modifies this`later, this`active, this`deferreds, events
      ensures |later| < |old(later)|
      ensures Inv(View()) && MakeActive(View()) == MakeActive(old(View()))
    {
      MakeOneActiveInv(View());
      MoveFirstLater();
    }

    // event_persist_closure, or no more than the call of the callback for an event that does not persist
    method RunClosure(e: Event, now: Timeval, mapOk: bool)
      requires Inv(View()) && IsUser(View(), e) && Plain(now)
      modifies this`count, this`countActive, this`queues, this`heap, this`active, events
      ensures View() == Closure(old(View()), e, now, mapOk)
    {
      if e.Repeats() && !e.rec.flags.finalizing && e.rec.ioTimeout != Timeval(0, 0) {
        assert View().recs[e] == e.rec && Clean(e.rec, e, |queues|);
        RunAtFacts(e.rec, now, |queues|);
        var _ := AddNolock(e, Some(RunAt(e.rec, now, |queues|)), true, now, mapOk);
      }
    }

    // One round of event_process_active_single_queue, up to the call of the user's callback.
    method ProcessFirst(p: nat, now: Timeval, mapOk: bool)
      requires Inv(View()) && p < |active| && active[p] != [] && Plain(now)
      modifies this`count, this`countActive, this`queues, this`heap, this`active, this`later, events
      ensures View() == Process(old(View()), p, now, mapOk)
    {
      FirstActive(View(), p);
      var e := active[p][0];
      if e in timers {
        CommonTimeoutCallback(TimerOf(timers, e), now);
      } else {
        Users(View(), e);
        DequeueInv(View(), e);
        if e.isEvent && !e.persist && !e.rec.flags.finalizing {
          DelNolock(e, false);
        } else {
          QueueRemoveActive(e);
        }
        RunClosure(e, now, mapOk);
      }
    }

    // event_assign
    method AssignEvent(e: Event, deferred: bool)
      requires e !in events
      modifies this`events, e
      ensures View() == Assign(old(View()), e, deferred) && events == old(events) + {e}
    {
      events := events + {e};
      e.rec := Fresh(deferred);
    }

    // The search of event_base_init_common_timeout.
    method FindCommonTimeout(d: Timeval) returns (i: nat)
      ensures i == FindDuration(durations, d)
    {
      i := 0;
      while i < |durations| && Strip(durations[i]) != d
        invariant i <= |durations| && FindDuration(durations[i..], d) + i == FindDuration(durations, d)
      {
        assert durations[i..][1..] == durations[i + 1..];
        i := i + 1;
      }
    }

    method AddCommonTimeout(d: Timeval, timer: Event)
      requires timer !in events && timer.rec == Fresh(false)
      modifies this`queues, this`timers, this`durations, this`events
      ensures View() == NewCommon(old(View()), d, timer)
    {
      events := events + {timer};
      durations := durations +
        [Timeval(d.sec, d.usec + COMMON_TIMEOUT_MAGIC * COMMON_TIMEOUT_UNIT + |queues| * MICROSECONDS)];
      queues, timers := queues + [[]], timers + [timer];
    }

    // event_base_init_common_timeout
    method InitCommonTimeout(duration: Timeval, timer: Event) returns (k: Option<nat>)
      requires Inv(View()) && NewTimer(View(), timer) && timer.rec == Fresh(false)
      modifies this`queues, this`timers, this`durations, this`events
      ensures (View(), k) == InitCommon(old(View()), duration, timer)
    {
      var d := Normalized(duration, |queues|);
      var i := FindCommonTimeout(d);
      if i < |durations| {
        return Some(i);
      }
      if |queues| == MAX_COMMON_TIMEOUTS {
        return None;
      }
      AddCommonTimeout(d, timer);
      return Some(i);
    }

    // A callback that schedules the deferred callbacks of `script`.
    method RunCallback(script: seq<Event>)
      requires Inv(View()) && forall e | e in script :: e in events && e !in timers
      modifies this`count, this`countActive, this`active, this`later, this`deferreds, events
      ensures View() == DeferAll(old(View()), script)
    {
      for i := 0 to |script|
        invariant Inv(View()) && timers == old(timers)
        invariant DeferAll(View(), script[i..]) == DeferAll(old(View()), script)
      {
        assert script[i..][0] == script[i] && script[i..][1..] == script[i + 1..];
        ScheduleFirst(script[i..]);
      }
    }

    method ScheduleFirst(script: seq<Event>)
      requires Inv(View()) && script != [] && forall e | e in script :: e in events && e !in timers
      modifies this`count, this`countActive, this`active, this`later, this`deferreds, events
      ensures Inv(View()) && timers == old(timers)
      ensures DeferAll(View(), script[1..]) == DeferAll(old(View()), script)
    {
      Users(View(), script[0]);
      DeferInv(View(), script[0]);
      DeferSame(View(), script[0]);
      var _ := DeferredSchedule(script[0]);
    }

    // event_process_active_single_queue on bare callbacks; the one that runs as number `i` does what `script(i)` says.
    method ProcessDeferred(p: nat, script: nat -> seq<Event>) returns (ran: nat)
      requires Inv(View()) && p < |active| && Bounded(View())
      requires forall e | e in active[p] :: !e.isEvent
      requires forall i, e | e in script(i) :: e in events && e !in timers && !e.isEvent
      modifies this`count, this`countActive, this`active, this`later, this`deferreds, events
      ensures Inv(View()) && |active| == |old(active)| && active[p] == []
      ensures ran <= |old(active[p])| + Max(0, 33 - old(deferreds))
    {
      ran := 0;
      while active[p] != []
        invariant Inv(View()) && p < |active| && Bounded(View()) && |active| == |old(active)|
        invariant timers == old(timers)
        invariant forall e | e in active[p] :: !e.isEvent
        invariant ran + Budget(View(), p) <= Budget(old(View()), p)
        decreases Budget(View(), p)
      {
        ProcessBare(p, script(ran));
        ran := ran + 1;
      }
    }

    // One round of event_process_active_single_queue for a bare callback.
    method ProcessBare(p: nat, script: seq<Event>)
      requires Inv(View()) && p < |active| && active[p] != [] && Bounded(View())
      requires forall e | e in active[p] :: !e.isEvent
      requires forall e | e in script :: e in events && e !in timers && !e.isEvent
      modifies this`count, this`countActive, this`active, this`later, this`deferreds, events
      ensures |active| == |old(active)| && timers == old(timers)
      ensures Inv(View()) && Bounded(View()) && Budget(View(), p) < Budget(old(View()), p)
      ensures forall e | e in active[p] :: !e.isEvent
    {
      assert active[p][0] in active[p];
      BareFirst(View(), p);
      RoundBudget(View(), p, script);
      RoundBare(View(), p, script);
      DequeueInv(View(), active[p][0]);
      DequeuedEffect(View(), active[p][0]);
      QueueRemoveActive(active[p][0]);
      RunCallback(script);
    }
  }

  /** Where an event goes in a queue depends on the deadlines alone. */
  lemma {:induction false} SamePos(q: seq<Event>, e: Event, at: map<Event, Rec>, at': map<Event, Rec>, k: nat)
    requires k <= |q| && e in at && (forall x | x in q :: x in at) && at'.Keys == at.Keys
    requires forall x | x in at :: at'[x].timeout == at[x].timeout
    ensures PosInOrder(q, e, at', k) == PosInOrder(q, e, at, k)
  {
    if k > 0 {
      assert q[k - 1] in q;
      SamePos(q, e, at, at', k - 1);
    }
  }

  lemma {:induction false} SamePlace(q: seq<Event>, e: Event, at: map<Event, Rec>, at': map<Event, Rec>)
    requires e in at && (forall x | x in q :: x in at) && at'.Keys == at.Keys
    requires forall x | x in at :: at'[x].timeout == at[x].timeout
    ensures InsertInOrder(q, e, at') == InsertInOrder(q, e, at)
  {
    SamePos(q, e, at, at', |q|);
  }

  lemma {:induction false} QueueClosed(s: State, i: nat)
    requires Ok(s) && i < |s.queues|
    ensures Closed(s.recs.Keys, s.queues[i])
  {
    assert Known(s.recs.Keys, s.queues[i]);
  }

  /** A heap that is not empty has a top. */
  lemma {:induction false} HeapHasTop(s: State, h: set<Event>)
    requires h != {} && h <= s.recs.Keys
    ensures exists e :: e in h && forall x | x in h :: !TimerLess(s.recs[x].timeout, s.recs[e].timeout)
  {
    var a :| a in h;
    if h == {a} {
      assert forall x | x in h :: !TimerLess(s.recs[x].timeout, s.recs[a].timeout);
    } else {
      HeapHasTop(s, h - {a});
      var b :| b in h - {a} && forall x | x in h - {a} :: !TimerLess(s.recs[x].timeout, s.recs[b].timeout);
      var e := if TimerLess(s.recs[a].timeout, s.recs[b].timeout) then a else b;
      assert forall x | x in h :: !TimerLess(s.recs[x].timeout, s.recs[e].timeout);
    }
  }

  /** If the top of the heap is due later, everything is. */
  lemma {:induction false} TopIsLater(s: State, e: Event, now: Timeval)
    requires IsTop(s, e) && TimerLess(now, s.recs[e].timeout)
    ensures NoneExpired(s, now)
  {
  }

  lemma {:induction false} FireHeap(s: State, e: Event)
    requires Ok(s) && e in s.heap && e in s.recs && e.pri < |s.active|
    requires !(s.recs[e].flags.active && s.recs[e].flags.later)
    ensures Fire(s, e).heap == s.heap - {e}
  {
    assert Placed(s, e);
  }
}
