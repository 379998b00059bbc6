// Rate-limited bufferevents and groups of them: who is suspended, and who will be woken.
module RateLimits {
  import opened Bytes
  import opened TokenBuckets

  datatype Dir = Reading | Writing

  // The BEV_SUSPEND_* bits.
  datatype Reason = Watermark | Bandwidth | GroupBandwidth | Lookup | Filter

  /** One direction of a bufferevent. `running` says whether the backend has been told to transfer. */
  datatype Lane = Lane(limit: int, suspended: set<Reason>, enabled: bool, running: bool)

  /** A configuration object: what it says, and which object it is. */
  datatype Config = Config(read: Rate, write: Rate, address: nat)

  /** The rate-limited part of a bufferevent; `pending` is the state of its refill event. */
  datatype Limited = Limited(cfg: Option<Config>, read: Lane, write: Lane, last: nat, pending: bool) {
    function Get(dir: Dir): Lane { if dir.Reading? then read else write }

    function Put(dir: Dir, l: Lane): Limited {
      if dir.Reading? then this.(read := l) else this.(write := l)
    }
  }

  function RateOf(c: Config, dir: Dir): Rate { if dir.Reading? then c.read else c.write }

  function Other(dir: Dir): Dir { if dir.Reading? then Writing else Reading }

  // bufferevent_suspend_read_ and bufferevent_suspend_write_
  function Suspend(l: Lane, why: Reason): Lane {
    l.(suspended := l.suspended + {why}, running := if l.suspended == {} then false else l.running)
  }

  // bufferevent_unsuspend_read_ and bufferevent_unsuspend_write_
  function Unsuspend(l: Lane, why: Reason): Lane {
    var left := l.suspended - {why};
    l.(suspended := left, running := if left == {} && l.enabled then true else l.running)
  }

  // bufferevent_enable, in one direction
  function Enable(l: Lane): Lane {
    l.(enabled := true, running := if l.suspended == {} then true else l.running)
  }

  // bufferevent_disable, in one direction
  function Disable(l: Lane): Lane { l.(enabled := false, running := false) }

  /** The backend transfers exactly if the direction is enabled and nothing suspends it. */
  ghost predicate LaneOk(l: Lane) {
    l.running <==> l.enabled && l.suspended == {}
  }

  /** `m` is `l` with these suspensions, enabled or not, and the backend in step. */
  ghost predicate LaneIs(m: Lane, l: Lane, suspended: set<Reason>, enabled: bool) {
    m.limit == l.limit && m.suspended == suspended && m.enabled == enabled && m.running == (enabled && suspended == {})
  }

  /**
   * Suspending, unsuspending, enabling and disabling change one thing, and keep the backend in step: it runs exactly
   * if the direction is enabled and no reason for a suspension is left.
   */
  lemma {:induction false} LaneSteps(l: Lane, why: Reason)
    requires LaneOk(l)
    ensures LaneIs(Suspend(l, why), l, l.suspended + {why}, l.enabled) && LaneIs(Unsuspend(l, why), l, l.suspended - {why}, l.enabled)
    ensures LaneIs(Enable(l), l, l.suspended, true) && LaneIs(Disable(l), l, l.suspended, false)
    ensures LaneOk(Unsuspend(Suspend(l, why), why)) && (why !in l.suspended ==> Unsuspend(Suspend(l, why), why) == l)
  {
    if why !in l.suspended {
      assert l.suspended + {why} - {why} == l.suspended;
    }
  }

  // ev_token_bucket_update_
  function Update(s: Limited, tick: nat): Limited {
    var n := Elapsed(tick, s.last);
    if s.cfg.None? || !TicksPassed(n) then s
    else
      s.(read := s.read.(limit := Refilled(s.cfg.value.read, s.read.limit, n)),
         write := s.write.(limit := Refilled(s.cfg.value.write, s.write.limit, n)),
         last := tick)
  }

  // The bufferevent's part of bufferevent_decrement_read_buckets_ and bufferevent_decrement_write_buckets_.
  function Decrement(s: Limited, dir: Dir, bytes: int): Limited {
    if s.cfg.None? then s
    else
      var l := s.Get(dir).(limit := s.Get(dir).limit - bytes);
      if l.limit <= 0 then s.Put(dir, Suspend(l, Bandwidth)).(pending := true)
      else if Bandwidth in l.suspended then
        s.Put(dir, Unsuspend(l, Bandwidth)).(
          pending := if Bandwidth in s.Get(Other(dir)).suspended then s.pending else false)
      else s.Put(dir, l)
  }

  // bufferevent_decrement_read_limit and bufferevent_decrement_write_limit
  function DecrementLimit(s: Limited, dir: Dir, decr: int): Limited
    requires s.cfg.Some?
  {
    var before := s.Get(dir).limit;
    var l := s.Get(dir).(limit := before - decr);
    if before > 0 && l.limit <= 0 then s.Put(dir, Suspend(l, Bandwidth)).(pending := true)
    else if before <= 0 && l.limit > 0 then
      s.Put(dir, Unsuspend(l, Bandwidth)).(
        pending := if Bandwidth in s.Get(Other(dir)).suspended then s.pending else false)
    else s.Put(dir, l)
  }

  // One direction in bev_refill_callback_.
  function Wake(l: Lane): Lane {
    if Bandwidth in l.suspended && l.limit > 0 then Unsuspend(l, Bandwidth) else l
  }

  // bev_refill_callback_, run by the refill event, which is no longer pending then
  function RefillCallback(s: Limited, tick: nat): Limited {
    if s.cfg.None? then s.(pending := false)
    else
      var u := Update(s, tick);
      var read, write := Wake(u.read), Wake(u.write);
      u.(read := read, write := write, pending := Bandwidth in read.suspended || Bandwidth in write.suspended)
  }

  // One direction in bufferevent_set_rate_limit.
  function Reset(l: Lane): Lane {
    if l.limit > 0 then Unsuspend(l, Bandwidth) else Suspend(l, Bandwidth)
  }

  // ev_token_bucket_init_, for one direction
  function Init(l: Lane, c: Rate, reinit: bool): Lane {
    l.(limit := if reinit then Min(l.limit, c.maximum) else c.rate)
  }

  // bufferevent_set_rate_limit, which does nothing if it is given the object that is in use already
  function SetRateLimit(s: Limited, cfg: Option<Config>, tick: nat): Limited {
    match cfg
    case None =>
      s.(cfg := None, read := Unsuspend(s.read, Bandwidth), write := Unsuspend(s.write, Bandwidth), pending := false)
    case Some(c) =>
      if s.cfg == cfg then s
      else
        var reinit := s.cfg.Some?;
        var read, write := Reset(Init(s.read, c.read, reinit)), Reset(Init(s.write, c.write, reinit));
        Limited(cfg, read, write, if reinit then s.last else tick, read.limit <= 0 || write.limit <= 0)
  }

  /** No wake-up is lost: whatever bandwidth has suspended will be looked at again by the refill event. */
  ghost predicate Ok(s: Limited) {
    && LaneOk(s.read) && LaneOk(s.write)
    && (Bandwidth in s.read.suspended || Bandwidth in s.write.suspended ==> s.pending && s.cfg.Some?)
    && (s.cfg.None? ==> !s.pending)
  }

  lemma {:induction false} WakeOk(l: Lane)
    requires LaneOk(l)
    ensures LaneOk(Wake(l)) && (Bandwidth in Wake(l).suspended <==> Bandwidth in l.suspended && l.limit <= 0)
  {
    LaneSteps(l, Bandwidth);
  }

  /** `t` is `s` but for one direction, in which the limit is `limit`, and bandwidth suspends exactly if `short`. */
  ghost predicate Charged(s: Limited, t: Limited, dir: Dir, limit: int, short: bool) {
    var l, m := s.Get(dir), t.Get(dir);
    && t.cfg == s.cfg && t.last == s.last && t.Get(Other(dir)) == s.Get(Other(dir))
    && LaneIs(m, l.(limit := limit), if short then l.suspended + {Bandwidth} else l.suspended - {Bandwidth}, l.enabled)
  }

  /**
   * A transfer is charged to the bucket of its direction and to no other; afterwards bandwidth suspends this
   * direction exactly if nothing is left. Without a configuration nothing is charged.
   */
  lemma {:induction false} DecrementEffect(s: Limited, dir: Dir, bytes: int)
    requires LaneOk(s.Get(dir))
    ensures var left := s.Get(dir).limit - bytes; var t := Decrement(s, dir, bytes);
      if s.cfg.None? then t == s
      else
        && Charged(s, t, dir, left, left <= 0) && (left <= 0 ==> t.pending)
        && (left > 0 && Bandwidth in s.Get(dir).suspended && Bandwidth !in s.Get(Other(dir)).suspended ==> !t.pending)
  {
    LaneSteps(s.Get(dir).(limit := s.Get(dir).limit - bytes), Bandwidth);
  }

  /** The public functions charge the same, and suspend or wake only when the limit crosses zero. */
  lemma {:induction false} DecrementLimitEffect(s: Limited, dir: Dir, decr: int)
    requires LaneOk(s.Get(dir)) && s.cfg.Some?
    ensures var l := s.Get(dir); var left := l.limit - decr;
      Charged(s, DecrementLimit(s, dir, decr), dir, left,
        if l.limit > 0 then left <= 0 || Bandwidth in l.suspended else left <= 0 && Bandwidth in l.suspended)
  {
    LaneSteps(s.Get(dir).(limit := s.Get(dir).limit - decr), Bandwidth);
  }

  /** The limit after `n` ticks: a rate for each of them, up to the maximum. */
  function Gained(c: Rate, limit: int, n: nat): int { Min(c.maximum, limit + n * c.rate) }

  /** The limits are within what configurations allow. */
  ghost predicate InRange(s: Limited) {
    s.cfg.Some? ==> forall dir: Dir ::
      RateOk(RateOf(s.cfg.value, dir)) && 0 - SSIZE_MAX as int <= s.Get(dir).limit <= RateOf(s.cfg.value, dir).maximum
  }

  /** A look at the buckets brings both up to date, and remembers when that was; it wakes nobody. */
  lemma {:induction false} UpdateEffect(s: Limited, tick: nat)
    requires InRange(s)
    ensures var n := Elapsed(tick, s.last); var t := Update(s, tick);
      if s.cfg.None? || !TicksPassed(n) then t == s
      else
        && t.cfg == s.cfg && t.last == tick && t.pending == s.pending
        && forall dir: Dir :: t.Get(dir) == s.Get(dir).(limit := Gained(RateOf(s.cfg.value, dir), s.Get(dir).limit, n))
  {
    var n := Elapsed(tick, s.last);
    if s.cfg.Some? && TicksPassed(n) {
      assert s.Get(Reading) == s.read && s.Get(Writing) == s.write;
      RefilledIsNaive(s.cfg.value.read, s.read.limit, n);
      RefilledIsNaive(s.cfg.value.write, s.write.limit, n);
    }
  }

  /**
   * The refill event brings the buckets up to date, ends a suspension for bandwidth where something is left then, and
   * waits for the next refill exactly if such a suspension remains.
   */
  lemma {:induction false} RefillEffect(s: Limited, tick: nat, dir: Dir)
    requires InRange(s) && s.cfg.Some? && LaneOk(s.read) && LaneOk(s.write)
    ensures var n, t, l := Elapsed(tick, s.last), RefillCallback(s, tick), s.Get(dir);
      var limit := if TicksPassed(n) then Gained(RateOf(s.cfg.value, dir), l.limit, n) else l.limit;
      && t.cfg == s.cfg && t.last == (if TicksPassed(n) then tick else s.last)
      && LaneIs(t.Get(dir), l.(limit := limit), if limit > 0 then l.suspended - {Bandwidth} else l.suspended, l.enabled)
      && (t.pending <==> Bandwidth in t.read.suspended || Bandwidth in t.write.suspended)
  {
    UpdateEffect(s, tick);
    var u := Update(s, tick);
    assert u.Get(dir).suspended == s.Get(dir).suspended && (Bandwidth !in s.Get(dir).suspended ==> s.Get(dir).suspended - {Bandwidth} == s.Get(dir).suspended);
    LaneSteps(u.Get(dir), Bandwidth);
  }

  /** What a new configuration leaves in a bucket: one tick's worth in a new one, and no more than the maximum in one in use. */
  function FirstLimit(c: Rate, before: Option<int>): int {
    match before
    case None => c.rate
    case Some(limit) => if limit > c.maximum then c.maximum else limit
  }

  /**
   * A new configuration sets the limits, ends or begins the suspension for bandwidth by them, and waits for a refill
   * exactly if one of them is used up; the object in use already changes nothing; no configuration ends everything.
   */
  lemma {:induction false} SetRateLimitEffect(s: Limited, cfg: Option<Config>, tick: nat)
    requires LaneOk(s.read) && LaneOk(s.write)
    ensures var t := SetRateLimit(s, cfg, tick);
      match cfg
      case None =>
        && t.cfg == None && !t.pending
        && forall dir: Dir :: LaneIs(t.Get(dir), s.Get(dir), s.Get(dir).suspended - {Bandwidth}, s.Get(dir).enabled)
      case Some(c) =>
        if s.cfg == cfg then t == s
        else
          && t.cfg == cfg && t.last == (if s.cfg.Some? then s.last else tick)
          && (t.pending <==> t.read.limit <= 0 || t.write.limit <= 0)
          && forall dir: Dir ::
               var l := s.Get(dir); var limit := FirstLimit(RateOf(c, dir), if s.cfg.Some? then Some(l.limit) else None);
               LaneIs(t.Get(dir), l.(limit := limit),
                      if limit <= 0 then l.suspended + {Bandwidth} else l.suspended - {Bandwidth}, l.enabled)
  {
    assert s.Get(Reading) == s.read && s.Get(Writing) == s.write;
    match cfg
    case None =>
      LaneSteps(s.read, Bandwidth);
      LaneSteps(s.write, Bandwidth);
    case Some(c) =>
      LaneSteps(Init(s.read, c.read, s.cfg.Some?), Bandwidth);
      LaneSteps(Init(s.write, c.write, s.cfg.Some?), Bandwidth);
  }

  /** Accounting for a transfer keeps the wake-up: what suspends also schedules the refill. */
  lemma {:induction false} DecrementOk(s: Limited, dir: Dir, bytes: int)
    requires Ok(s)
    ensures Ok(Decrement(s, dir, bytes))
  {
    LaneSteps(s.Get(dir).(limit := s.Get(dir).limit - bytes), Bandwidth);
  }

  lemma {:induction false} DecrementLimitOk(s: Limited, dir: Dir, decr: int)
    requires Ok(s) && s.cfg.Some?
    ensures Ok(DecrementLimit(s, dir, decr))
  {
    LaneSteps(s.Get(dir).(limit := s.Get(dir).limit - decr), Bandwidth);
  }

  /** So does a refill, which runs because the wake-up was due: it schedules the next one if it must. */
  lemma {:induction false} RefillOk(s: Limited, tick: nat)
    requires Ok(s)
    ensures Ok(Update(s, tick)) && Ok(RefillCallback(s, tick))
  {
    var u := Update(s, tick);
    WakeOk(u.read);
    WakeOk(u.write);
  }

  /** And so does a change of configuration. */
  lemma {:induction false} SetRateLimitOk(s: Limited, cfg: Option<Config>, tick: nat)
    requires Ok(s)
    ensures Ok(SetRateLimit(s, cfg, tick))
  {
    match cfg
    case None =>
      LaneSteps(s.read, Bandwidth);
      LaneSteps(s.write, Bandwidth);
    case Some(c) =>
      LaneSteps(Init(s.read, c.read, s.cfg.Some?), Bandwidth);
      LaneSteps(Init(s.write, c.write, s.cfg.Some?), Bandwidth);
  }

  /** Suspensions for other reasons, enabling and disabling do not disturb the wake-up either. */
  lemma {:induction false} OtherStepsOk(s: Limited, dir: Dir, why: Reason)
    requires Ok(s) && why != Bandwidth
    ensures Ok(s.Put(dir, Suspend(s.Get(dir), why))) && Ok(s.Put(dir, Unsuspend(s.Get(dir), why)))
    ensures Ok(s.Put(dir, Enable(s.Get(dir)))) && Ok(s.Put(dir, Disable(s.Get(dir))))
  {
    LaneSteps(s.Get(dir), why);
  }

  /** The refill callback ends a suspension exactly if enough ticks have passed to cover the debt. */
  lemma {:induction false} RefillWakes(s: Limited, dir: Dir, tick: nat)
    requires Ok(s) && s.cfg.Some? && RateOk(s.cfg.value.read) && RateOk(s.cfg.value.write)
    requires 0 - SSIZE_MAX as int <= s.read.limit <= s.cfg.value.read.maximum
    requires 0 - SSIZE_MAX as int <= s.write.limit <= s.cfg.value.write.maximum
    ensures var n := Elapsed(tick, s.last); var gained := if TicksPassed(n) then n * RateOf(s.cfg.value, dir).rate else 0;
      Bandwidth in RefillCallback(s, tick).Get(dir).suspended <==>
      Bandwidth in s.Get(dir).suspended && s.Get(dir).limit + gained <= 0
  {
    var n := Elapsed(tick, s.last);
    if TicksPassed(n) {
      RefilledIsNaive(s.cfg.value.read, s.read.limit, n);
      RefilledIsNaive(s.cfg.value.write, s.write.limit, n);
    }
    var u := Update(s, tick);
    WakeOk(u.read);
    WakeOk(u.write);
  }

  // ----- runs -----

  // What can happen to a bufferevent: accounting for a transfer, the refill event, a new configuration, a look at
  // what may be transferred, and whatever else suspends, enables or disables a direction.
  datatype Op =
    | Spend(dir: Dir, bytes: int)
    | SpendLimit(dir: Dir, decr: int)
    | RefillEvent(tick: nat)
    | Configure(cfg: Option<Config>, tick: nat)
    | Look(tick: nat)
    | SuspendOp(dir: Dir, why: Reason)
    | UnsuspendOp(dir: Dir, why: Reason)
    | EnableOp(dir: Dir)
    | DisableOp(dir: Dir)

  /** The refill event runs only if it is pending; suspending for bandwidth is left to the functions above. */
  predicate Allowed(s: Limited, op: Op) {
    match op
    case SpendLimit(_, _) => s.cfg.Some?
    case RefillEvent(_) => s.pending
    case SuspendOp(_, why) => why != Bandwidth
    case UnsuspendOp(_, why) => why != Bandwidth
    case _ => true
  }

  function Step(s: Limited, op: Op): Limited
    requires Allowed(s, op)
  {
    match op
    case Spend(dir, bytes) => Decrement(s, dir, bytes)
    case SpendLimit(dir, decr) => DecrementLimit(s, dir, decr)
    case RefillEvent(tick) => RefillCallback(s, tick)
    case Configure(cfg, tick) => SetRateLimit(s, cfg, tick)
    case Look(tick) => Update(s, tick)
    case SuspendOp(dir, why) => s.Put(dir, Suspend(s.Get(dir), why))
    case UnsuspendOp(dir, why) => s.Put(dir, Unsuspend(s.Get(dir), why))
    case EnableOp(dir) => s.Put(dir, Enable(s.Get(dir)))
    case DisableOp(dir) => s.Put(dir, Disable(s.Get(dir)))
  }

  lemma {:induction false} StepOk(s: Limited, op: Op)
    requires Ok(s) && Allowed(s, op)
    ensures Ok(Step(s, op))
  {
    match op
    case Spend(dir, bytes) => DecrementOk(s, dir, bytes);
    case SpendLimit(dir, decr) => DecrementLimitOk(s, dir, decr);
    case RefillEvent(tick) => RefillOk(s, tick);
    case Configure(cfg, tick) => SetRateLimitOk(s, cfg, tick);
    case Look(tick) => RefillOk(s, tick);
    case SuspendOp(dir, why) => OtherStepsOk(s, dir, why);
    case UnsuspendOp(dir, why) => OtherStepsOk(s, dir, why);
    case EnableOp(dir) => OtherStepsOk(s, dir, Watermark);
    case DisableOp(dir) => OtherStepsOk(s, dir, Watermark);
  }

  ghost predicate IsRun(s: Limited, ops: seq<Op>)
    decreases |ops|
  {
    ops == [] || (Allowed(s, ops[0]) && IsRun(Step(s, ops[0]), ops[1..]))
  }

  function After(s: Limited, ops: seq<Op>): Limited
    requires IsRun(s, ops)
    decreases |ops|
  {
    if ops == [] then s else After(Step(s, ops[0]), ops[1..])
  }

  /** In every run, whoever is suspended for want of bandwidth has a refill event pending. */
  lemma {:induction false} NoLostWakeUp(s: Limited, ops: seq<Op>)
    requires Ok(s) && IsRun(s, ops)
    ensures var t := After(s, ops);
      Ok(t) && forall dir: Dir :: Bandwidth in t.Get(dir).suspended ==> t.pending && t.cfg.Some?
    decreases |ops|
  {
    if ops != [] {
      StepOk(s, ops[0]);
      NoLostWakeUp(Step(s, ops[0]), ops[1..]);
    }
  }

  // What bufferevent_get_rlim_max_ makes of a bufferevent's own limit and of its share in a group.
  function AtOnce(s: Limited, dir: Dir, maxSingle: nat, share: Option<int>): int {
    var own := if s.cfg.Some? then s.Get(dir).limit else maxSingle;
    Max(0, if share.Some? then Min(own, share.value) else own)
  }

  /** `n` bytes are within the bufferevent's own limit, if it has one, and within its share in its group, if it is in one. */
  predicate WithinLimits(n: nat, s: Limited, dir: Dir, maxSingle: nat, share: Option<int>) {
    n <= (if s.cfg.Some? then s.Get(dir).limit else maxSingle) && (share.Some? ==> n <= share.value)
  }

  /** As much may be transferred at once as the limits allow, and nothing if they do not even allow that. */
  lemma {:induction false} AtOnceBound(s: Limited, dir: Dir, maxSingle: nat, share: Option<int>)
    ensures var a := AtOnce(s, dir, maxSingle, share);
      && a >= 0 && (a > 0 ==> WithinLimits(a, s, dir, maxSingle, share))
      && forall n: nat :: WithinLimits(n, s, dir, maxSingle, share) ==> n <= a
  {
  }

  // ----- what a bufferevent transfers over time -----

  /** A bufferevent in time: `now` and `lastAt` count ticks that do not wrap around. */
  datatype Timed = Timed(s: Limited, now: nat, lastAt: nat)

  datatype TimedOp =
    | Pass(ticks: nat)
    | Fill                         // the refill event
    | Transfer(dir: Dir, bytes: nat)  // the buckets are brought up to date; what may be transferred at once is accounted for

  // bufferevent_update_buckets
  function Looked(w: Timed): Timed {
    var t := Update(w.s, w.now % TICK_LIMIT);
    Timed(t, w.now, if t.last == w.s.last then w.lastAt else w.now)
  }

  predicate MayDo(w: Timed, op: TimedOp) {
    op.Transfer? ==> op.bytes <= Max(0, Looked(w).s.Get(op.dir).limit)
  }

  function Do(w: Timed, op: TimedOp): Timed {
    match op
    case Pass(ticks) => w.(now := w.now + ticks)
    case Fill =>
      var t := RefillCallback(w.s, w.now % TICK_LIMIT);
      Timed(t, w.now, if t.last == w.s.last then w.lastAt else w.now)
    case Transfer(dir, bytes) =>
      var u := Looked(w);
      u.(s := Decrement(u.s, dir, bytes))
  }

  ghost predicate MayRun(w: Timed, ops: seq<TimedOp>)
    decreases |ops|
  {
    ops == [] || (MayDo(w, ops[0]) && MayRun(Do(w, ops[0]), ops[1..]))
  }

  function Done(w: Timed, ops: seq<TimedOp>): Timed
    decreases |ops|
  {
    if ops == [] then w else Done(Do(w, ops[0]), ops[1..])
  }

  // What a run transfers in one direction, and how many ticks it takes.
  function Moved(ops: seq<TimedOp>, dir: Dir): nat {
    if ops == [] then 0 else (if ops[0].Transfer? && ops[0].dir == dir then ops[0].bytes else 0) + Moved(ops[1..], dir)
  }

  function Passed(ops: seq<TimedOp>): nat {
    if ops == [] then 0 else (if ops[0].Pass? then ops[0].ticks else 0) + Passed(ops[1..])
  }

  /** Holds in every run, if `base` is what the bucket held at tick `start` and `moved` has been transferred since. */
  ghost predicate Funded(w: Timed, dir: Dir, start: nat, base: int, moved: nat) {
    && w.s.cfg.Some? && start <= w.lastAt <= w.now && w.s.last == w.lastAt % TICK_LIMIT
    && var c, limit := RateOf(w.s.cfg.value, dir), w.s.Get(dir).limit;
       RateOk(c) && 0 <= limit <= c.maximum && moved + limit <= base + c.rate * (w.lastAt - start)
  }

  lemma {:induction false} LimitAfter(w: Timed, dir: Dir)
    requires w.s.cfg.Some? && InRange(w.s) && w.lastAt <= w.now && w.s.last == w.lastAt % TICK_LIMIT
    ensures var n, u := Elapsed(w.now % TICK_LIMIT, w.s.last), Looked(w);
      && n <= w.now - w.lastAt && u.s.cfg == w.s.cfg && u.s.last == u.lastAt % TICK_LIMIT && w.lastAt <= u.lastAt <= u.now == w.now
      && u.s.Get(dir).limit == (if TicksPassed(n) then Gained(RateOf(w.s.cfg.value, dir), w.s.Get(dir).limit, n) else w.s.Get(dir).limit)
      && (TicksPassed(n) ==> u.lastAt == w.now)
      && Do(w, Fill).s.Get(dir).limit == u.s.Get(dir).limit && Do(w, Fill).s.cfg == w.s.cfg && Do(w, Fill).s.last == u.s.last
  {
    ElapsedBound(w.now, w.lastAt);
    UpdateEffect(w.s, w.now % TICK_LIMIT);
    assert Elapsed(w.now % TICK_LIMIT, w.s.last) > 0 ==> w.now % TICK_LIMIT != w.s.last;
  }

  lemma {:induction false} GainFunded(limit: int, c: Rate, n: nat, now: nat, lastAt: nat, start: nat, moved: nat, base: int)
    requires RateOk(c) && 0 <= limit <= c.maximum && start <= lastAt && n <= now - lastAt
    requires moved + limit <= base + c.rate * (lastAt - start)
    ensures 0 <= Gained(c, limit, n) <= c.maximum && moved + Gained(c, limit, n) <= base + c.rate * (now - start)
  {
    RefillCost(c.rate, n, now, lastAt, start);
  }

  lemma {:induction false} LookedFunded(w: Timed, dir: Dir, start: nat, base: int, moved: nat)
    requires InRange(w.s) && Funded(w, dir, start, base, moved)
    ensures Funded(Looked(w), dir, start, base, moved) && Funded(Do(w, Fill), dir, start, base, moved)
  {
    LimitAfter(w, dir);
    var n := Elapsed(w.now % TICK_LIMIT, w.s.last);
    if TicksPassed(n) {
      GainFunded(w.s.Get(dir).limit, RateOf(w.s.cfg.value, dir), n, w.now, w.lastAt, start, moved, base);
    }
  }

  lemma {:induction false} LookedInRange(w: Timed)
    requires InRange(w.s) && w.s.cfg.Some? && w.lastAt <= w.now && w.s.last == w.lastAt % TICK_LIMIT
    ensures InRange(Looked(w).s) && InRange(Do(w, Fill).s)
  {
    forall dir: Dir
      ensures 0 - SSIZE_MAX as int <= Looked(w).s.Get(dir).limit <= RateOf(w.s.cfg.value, dir).maximum
      ensures Do(w, Fill).s.Get(dir).limit == Looked(w).s.Get(dir).limit
    {
      LimitAfter(w, dir);
    }
  }

  lemma {:induction false} TransferFunded(u: Timed, d: Dir, bytes: nat, dir: Dir, start: nat, base: int, moved: nat)
    requires InRange(u.s) && LaneOk(u.s.Get(d)) && Funded(u, dir, start, base, moved) && bytes <= Max(0, u.s.Get(d).limit)
    ensures var v := u.(s := Decrement(u.s, d, bytes));
      InRange(v.s) && Funded(v, dir, start, base, moved + if d == dir then bytes else 0)
  {
    DecrementEffect(u.s, d, bytes);
    assert dir == d || dir == Other(d);
  }

  lemma {:induction false} DoFunded(w: Timed, op: TimedOp, dir: Dir, start: nat, base: int, moved: nat)
    requires InRange(w.s) && Ok(w.s) && Funded(w, dir, start, base, moved) && MayDo(w, op)
    ensures var v := Do(w, op);
      InRange(v.s) && Ok(v.s) && Funded(v, dir, start, base, moved + Moved([op], dir)) && v.now == w.now + Passed([op])
  {
    match op
    case Pass(ticks) =>
    case Fill =>
      LookedFunded(w, dir, start, base, moved);
      LookedInRange(w);
      RefillOk(w.s, w.now % TICK_LIMIT);
    case Transfer(d, bytes) =>
      LookedFunded(w, dir, start, base, moved);
      LookedInRange(w);
      RefillOk(w.s, w.now % TICK_LIMIT);
      TransferFunded(Looked(w), d, bytes, dir, start, base, moved);
      DecrementOk(Looked(w).s, d, bytes);
  }

  lemma {:induction false} MovedFirst(ops: seq<TimedOp>, dir: Dir)
    requires ops != []
    ensures Moved(ops, dir) == Moved([ops[0]], dir) + Moved(ops[1..], dir)
    ensures Passed(ops) == Passed([ops[0]]) + Passed(ops[1..])
  {
    assert [ops[0]][1..] == [];
  }

  lemma {:induction false} RunFunded(w: Timed, ops: seq<TimedOp>, dir: Dir, start: nat, base: int, moved: nat)
    requires InRange(w.s) && Ok(w.s) && Funded(w, dir, start, base, moved) && MayRun(w, ops)
    ensures Funded(Done(w, ops), dir, start, base, moved + Moved(ops, dir)) && Done(w, ops).now == w.now + Passed(ops)
    ensures Done(w, ops).s.cfg == w.s.cfg
    decreases |ops|
  {
    if ops != [] {
      MovedFirst(ops, dir);
      DoFunded(w, ops[0], dir, start, base, moved);
      DoKeepsConfig(w, ops[0]);
      RunFunded(Do(w, ops[0]), ops[1..], dir, start, base, moved + Moved([ops[0]], dir));
    }
  }

  lemma {:induction false} DoKeepsConfig(w: Timed, op: TimedOp)
    ensures Do(w, op).s.cfg == w.s.cfg
  {
  }

  /**
   * A bufferevent never transfers more in one direction than its bucket held at first and a rate for each tick that
   * has passed, and is never in debt, as long as it transfers no more at once than it may.
   */
  lemma {:induction false} OwnThroughputBound(s: Limited, now: nat, ops: seq<TimedOp>, dir: Dir)
    requires Ok(s) && s.cfg.Some? && InRange(s) && s.Get(dir).limit >= 0 && s.last == now % TICK_LIMIT
    requires MayRun(Timed(s, now, now), ops)
    ensures Moved(ops, dir) <= s.Get(dir).limit + RateOf(s.cfg.value, dir).rate * Passed(ops)
    ensures Done(Timed(s, now, now), ops).s.Get(dir).limit >= 0
  {
    var w0 := Timed(s, now, now);
    RunFunded(w0, ops, dir, now, s.Get(dir).limit, 0);
    var w := Done(w0, ops);
    MulMonotone(RateOf(s.cfg.value, dir).rate, w.lastAt - now, w.now - now);
  }
}
