// Token buckets: how much may be read or written per tick, for one direction of a bufferevent or of a group.
module TokenBuckets {
  import opened Bytes

  const TICK_LIMIT: nat := 0x1_0000_0000   // ticks are 32-bit numbers
  const INT_MAX: nat := 0x7fff_ffff
  const SIZE_LIMIT: nat := SIZE_MAX + 1

  // The configuration of one direction.
  datatype Rate = Rate(rate: nat, maximum: nat)

  /** What ev_token_bucket_cfg_new lets pass. */
  predicate RateOk(c: Rate) { 1 <= c.rate <= c.maximum <= SSIZE_MAX }

  // A value as a size_t.
  function AsSize(n: int): nat { n % SIZE_LIMIT }

  // A value as an ev_ssize_t.
  function AsSsize(n: int): int {
    var u := AsSize(n);
    if u <= SSIZE_MAX then u else u - SIZE_LIMIT
  }

  // The unsigned difference of two ticks.
  function Elapsed(tick: nat, last: nat): nat { (tick - last) % TICK_LIMIT }

  predicate TicksPassed(n: nat) { 0 < n <= INT_MAX }

  // The refill of ev_token_bucket_update_, in the arithmetic of size_t.
  function Refilled(c: Rate, limit: int, n: nat): int
    requires n > 0
  {
    if AsSize(c.maximum - limit) / n < c.rate then c.maximum else AsSsize(limit + AsSize(n * c.rate))
  }

  lemma {:induction false} DividedCompare(a: nat, n: nat, r: nat)
    requires n > 0
    ensures a / n < r <==> a < n * r
  {
    var q := a / n;
    assert a == n * q + a % n;
    if q < r {
      assert n * (q + 1) <= n * r;
    } else {
      assert n * r <= n * q;
    }
  }

  /** The refill that avoids overflow is the naive one: add a rate for each tick, up to the maximum. */
  lemma {:induction false} RefilledIsNaive(c: Rate, limit: int, n: nat)
    requires RateOk(c) && TicksPassed(n) && 0 - SSIZE_MAX as int <= limit <= c.maximum
    ensures Refilled(c, limit, n) == Min(c.maximum, limit + n * c.rate)
  {
    var room: nat := c.maximum - limit;
    DividedCompare(room, n, c.rate);
    assert n * c.rate >= 0;
    FitsSize(limit, n * c.rate, c.maximum);
  }

  lemma {:induction false} FitsSize(limit: int, more: nat, maximum: nat)
    requires 0 - SSIZE_MAX as int <= limit <= maximum <= SSIZE_MAX
    ensures AsSize(maximum - limit) == maximum - limit
    ensures limit + more <= maximum ==> AsSize(more) == more && AsSsize(limit + more) == limit + more
  {
  }

  // ----- a group, in one direction -----

  /** One direction of a bufferevent_rate_limit_group. `total` counts what its members have transferred. */
  datatype Pool = Pool(cfg: Rate, limit: int, last: nat, suspended: bool, minShare: nat, total: nat)

  // ev_token_bucket_update_
  function UpdatePool(p: Pool, tick: nat): Pool {
    var n := Elapsed(tick, p.last);
    if !TicksPassed(n) then p else p.(limit := Refilled(p.cfg, p.limit, n), last := tick)
  }

  // bev_group_refill_callback_: the group runs again once it can give out a minimal share.
  function RefillPool(p: Pool, tick: nat): Pool {
    var q := UpdatePool(p, tick);
    if q.suspended && q.limit >= q.minShare then q.(suspended := false) else q
  }

  // The group's part of bufferevent_decrement_read_buckets_ and of its counterpart for writing.
  function SpendPool(p: Pool, bytes: nat): Pool {
    var limit := p.limit - bytes;
    p.(limit := limit, total := p.total + bytes, suspended := limit <= 0)
  }

  // C division truncates towards zero.
  function Quotient(a: int, n: nat): int
    requires n > 0
  {
    if a >= 0 then a / n else -(-a / n)
  }

  // What bufferevent_get_rlim_max_ lets one of `n` members transfer at once.
  function Share(p: Pool, n: nat): int
    requires n > 0
  {
    if p.suspended then 0 else Max(Quotient(p.limit, n), p.minShare)
  }

  // bufferevent_rate_limit_group_set_min_share
  function ClampShare(share: nat, readRate: nat, writeRate: nat): nat { Min(share, Min(readRate, writeRate)) as nat }

  /** No more than was asked for, and no more than a tick brings in either direction. */
  predicate ShareFits(n: nat, share: nat, readRate: nat, writeRate: nat) {
    n <= share && n <= readRate && n <= writeRate
  }

  /** The smallest share is the largest that fits; so one of at least one byte stays one. */
  lemma {:induction false} ClampedShare(share: nat, readRate: nat, writeRate: nat)
    requires readRate >= 1 && writeRate >= 1
    ensures var c := ClampShare(share, readRate, writeRate);
      && ShareFits(c, share, readRate, writeRate) && (forall n: nat :: ShareFits(n, share, readRate, writeRate) ==> n <= c)
      && (c >= 1 <==> share >= 1)
  {
  }

  /**
   * A member gets the smallest share, or the largest number of bytes that the group has left for each of its `n`
   * members if that is more; and nothing while the group is suspended.
   */
  lemma {:induction false} ShareExact(p: Pool, n: nat)
    requires n > 0
    ensures var a := Share(p, n);
      if p.suspended then a == 0
      else a >= p.minShare && (a > p.minShare ==> a * n <= p.limit) && p.limit < (a + 1) * n
  {
    var q := Quotient(p.limit, n);
    if p.limit >= 0 {
      assert p.limit == n * q + p.limit % n;
      if q < p.minShare {
        MulMonotone(n, q + 1, p.minShare + 1);
      }
    } else {
      var m := -p.limit / n;
      assert q == -m && m >= 0;
      MulMonotone(n, 0, p.minShare + 1);
    }
  }

  /** A pool in time: `now` and `lastAt` count ticks that do not wrap around. */
  datatype Clocked = Clocked(pool: Pool, now: nat, lastAt: nat)

  datatype PoolOp =
    | Wait(ticks: nat)
    | Refill
    | Transfer(members: nat, bytes: nat)  // a member asks for its share, transfers no more, and accounts for it

  predicate Allowed(w: Clocked, op: PoolOp) {
    op.Transfer? ==> op.members > 0 && op.bytes <= Share(w.pool, op.members)
  }

  function Step(w: Clocked, op: PoolOp): Clocked {
    match op
    case Wait(ticks) => w.(now := w.now + ticks)
    case Refill =>
      var p := RefillPool(w.pool, w.now % TICK_LIMIT);
      Clocked(p, w.now, if p.last == w.pool.last then w.lastAt else w.now)
    case Transfer(_, bytes) => w.(pool := SpendPool(w.pool, bytes))
  }

  /** Holds in every run of a pool whose smallest share is at least one byte. `base` is what it started with. */
  ghost predicate PoolOk(w: Clocked, start: nat, base: int) {
    var p := w.pool;
    && RateOk(p.cfg) && 1 <= p.minShare <= p.cfg.rate
    && 1 - p.minShare <= p.limit <= p.cfg.maximum
    && (!p.suspended ==> p.limit > 0)
    && start <= w.lastAt <= w.now && p.last == w.lastAt % TICK_LIMIT
    && p.total + p.limit <= base + p.cfg.rate * (w.lastAt - start)
  }

  lemma {:induction false} MulGrows(n: nat, q: nat)
    requires n > 0
    ensures n * q >= q
  {
    assert n * q == (n - 1) * q + q;
  }

  lemma {:induction false} MulMonotone(r: nat, a: nat, b: nat)
    requires a <= b
    ensures r * a <= r * b
  {
  }

  lemma {:induction false} QuotientBound(a: int, n: nat)
    requires a > 0 && n > 0
    ensures 0 <= Quotient(a, n) <= a
  {
    var q := a / n;
    MulGrows(n, q);
    assert a == n * q + a % n;
  }

  /** The ticks that a refill counts have passed. */
  lemma {:induction false} ElapsedBound(now: nat, lastAt: nat)
    requires lastAt <= now
    ensures Elapsed(now % TICK_LIMIT, lastAt % TICK_LIMIT) <= now - lastAt
    ensures Elapsed(now % TICK_LIMIT, lastAt % TICK_LIMIT) == (now - lastAt) % TICK_LIMIT
  {
    var a, b := now / TICK_LIMIT, lastAt / TICK_LIMIT;
    assert now % TICK_LIMIT - lastAt % TICK_LIMIT == now - lastAt - (a - b) * TICK_LIMIT;
  }

  lemma {:induction false} StepOk(w: Clocked, op: PoolOp, start: nat, base: int)
    requires PoolOk(w, start, base) && Allowed(w, op)
    ensures PoolOk(Step(w, op), start, base)
  {
    match op
    case Wait(ticks) =>
    case Refill => RefillStepOk(w, start, base);
    case Transfer(members, bytes) =>
      if !w.pool.suspended {
        QuotientBound(w.pool.limit, members);
      }
  }

  lemma {:induction false} RefillStepOk(w: Clocked, start: nat, base: int)
    requires PoolOk(w, start, base)
    ensures PoolOk(Step(w, Refill), start, base)
  {
    var p := w.pool;
    var n := Elapsed(w.now % TICK_LIMIT, p.last);
    ElapsedBound(w.now, w.lastAt);
    if TicksPassed(n) {
      RefilledIsNaive(p.cfg, p.limit, n);
      RefillCost(p.cfg.rate, n, w.now, w.lastAt, start);
      assert UpdatePool(p, w.now % TICK_LIMIT).limit == Min(p.cfg.maximum, p.limit + n * p.cfg.rate);
    }
  }

  lemma {:induction false} RefillCost(rate: nat, n: nat, now: nat, lastAt: nat, start: nat)
    requires start <= lastAt && n <= now - lastAt
    ensures n * rate + rate * (lastAt - start) <= rate * (now - start) && n * rate >= 0
  {
    assert rate * (now - start) == rate * (now - lastAt) + rate * (lastAt - start);
    MulMonotone(rate, n, now - lastAt);
  }

  ghost predicate IsRun(w: Clocked, ops: seq<PoolOp>)
    decreases |ops|
  {
    ops == [] || (Allowed(w, ops[0]) && IsRun(Step(w, ops[0]), ops[1..]))
  }

  function After(w: Clocked, ops: seq<PoolOp>): Clocked
    decreases |ops|
  {
    if ops == [] then w else After(Step(w, ops[0]), ops[1..])
  }

  lemma {:induction false} RunOk(w: Clocked, ops: seq<PoolOp>, start: nat, base: int)
    requires PoolOk(w, start, base) && IsRun(w, ops)
    ensures PoolOk(After(w, ops), start, base) && After(w, ops).pool.cfg == w.pool.cfg
    ensures After(w, ops).pool.minShare == w.pool.minShare
    decreases |ops|
  {
    if ops != [] {
      StepOk(w, ops[0], start, base);
      RunOk(Step(w, ops[0]), ops[1..], start, base);
    }
  }

  // What is transferred in a run, and how many ticks it takes.
  function Moved(ops: seq<PoolOp>): nat {
    if ops == [] then 0 else (if ops[0].Transfer? then ops[0].bytes else 0) + Moved(ops[1..])
  }

  function Waited(ops: seq<PoolOp>): nat {
    if ops == [] then 0 else (if ops[0].Wait? then ops[0].ticks else 0) + Waited(ops[1..])
  }

  /** Every transfer of a run is charged to the group, and nothing else is; time passes as the run says. */
  lemma {:induction false} RunCharges(w: Clocked, ops: seq<PoolOp>)
    requires IsRun(w, ops)
    ensures After(w, ops).pool.total == w.pool.total + Moved(ops) && After(w, ops).now == w.now + Waited(ops)
    decreases |ops|
  {
    if ops != [] {
      RunCharges(Step(w, ops[0]), ops[1..]);
    }
  }

  /**
   * A refill brings a rate for each tick since the last one, up to the maximum; a group that is suspended runs again
   * exactly if this leaves it with a smallest share.
   */
  lemma {:induction false} RefillExact(w: Clocked)
    requires RateOk(w.pool.cfg) && 0 - SSIZE_MAX as int <= w.pool.limit <= w.pool.cfg.maximum
    requires w.pool.last == w.lastAt % TICK_LIMIT && w.lastAt <= w.now <= w.lastAt + INT_MAX
    ensures var p, u := w.pool, Step(w, Refill); var filled := Min(p.cfg.maximum, p.limit + (w.now - w.lastAt) * p.cfg.rate);
      && u.lastAt == u.now == w.now
      && u.pool == p.(limit := filled, last := w.now % TICK_LIMIT, suspended := p.suspended && filled < p.minShare)
  {
    ElapsedBound(w.now, w.lastAt);
    if w.now > w.lastAt {
      SameTick(w.now, w.lastAt);
    }
    UpdatedPool(w.pool, w.now % TICK_LIMIT, w.now - w.lastAt);
  }

  lemma {:induction false} UpdatedPool(p: Pool, tick: nat, n: nat)
    requires RateOk(p.cfg) && 0 - SSIZE_MAX as int <= p.limit <= p.cfg.maximum && Elapsed(tick, p.last) == n <= INT_MAX
    requires n == 0 ==> tick == p.last
    ensures UpdatePool(p, tick) == p.(limit := Min(p.cfg.maximum, p.limit + n * p.cfg.rate), last := tick)
  {
    if n > 0 {
      RefilledIsNaive(p.cfg, p.limit, n);
    }
  }

  /** A transfer is charged to the group in full; afterwards the group is suspended exactly if nothing is left. */
  lemma {:induction false} SpendExact(p: Pool, bytes: nat)
    ensures var q := SpendPool(p, bytes);
      && q.total == p.total + bytes && q.limit + q.total == p.limit + p.total && (q.suspended <==> p.limit <= bytes)
      && q.cfg == p.cfg && q.last == p.last && q.minShare == p.minShare
  {
  }

  /** A clock that goes back, by less than half of its range, brings nothing. */
  lemma {:induction false} BackwardsIgnored(p: Pool, back: nat)
    requires p.last < TICK_LIMIT && 0 < back <= INT_MAX
    ensures UpdatePool(p, (p.last + TICK_LIMIT - back) % TICK_LIMIT) == p
    ensures !TicksPassed(Elapsed((p.last + TICK_LIMIT - back) % TICK_LIMIT, p.last))
  {
    var tick := (p.last + TICK_LIMIT - back) % TICK_LIMIT;
    assert Elapsed(tick, p.last) == TICK_LIMIT - back;
  }

  lemma {:induction false} SameTick(now: nat, lastAt: nat)
    requires lastAt < now <= lastAt + INT_MAX
    ensures now % TICK_LIMIT != lastAt % TICK_LIMIT
  {
    ElapsedBound(now, lastAt);
  }

  /**
   * A group never transfers more than it started with, a rate for each tick that has passed, and less than one
   * smallest share; it is in debt by less than one smallest share; and it runs only while it has something to give.
   */
  lemma {:induction false} ThroughputBound(p: Pool, now: nat, ops: seq<PoolOp>)
    requires RateOk(p.cfg) && 1 <= p.minShare <= p.cfg.rate && 0 < p.limit <= p.cfg.maximum
    requires p.last == now % TICK_LIMIT && IsRun(Clocked(p, now, now), ops)
    ensures var q := After(Clocked(p, now, now), ops).pool;
      && Moved(ops) <= p.limit + p.cfg.rate * Waited(ops) + p.minShare - 1
      && q.limit >= 1 - p.minShare
      && (!q.suspended ==> q.limit > 0)
  {
    var w0 := Clocked(p, now, now);
    RunOk(w0, ops, now, p.limit + p.total);
    RunCharges(w0, ops);
    var w := After(w0, ops);
    MulMonotone(p.cfg.rate, w.lastAt - now, w.now - now);
  }

  /** A group that is not suspended has something to give. */
  predicate GivesSomething(p: Pool) { !p.suspended ==> p.limit > 0 }

  /** With a smallest share of nothing, any group can be emptied and then woken with nothing to give. */
  lemma {:induction false} ZeroShareRunsEmpty(p: Pool, now: nat)
    requires RateOk(p.cfg) && p.minShare == 0 && 0 < p.limit <= p.cfg.maximum && !p.suspended && p.last == now % TICK_LIMIT
    ensures var w := Clocked(p, now, now); var ops := [Transfer(1, p.limit), Refill];
      IsRun(w, ops) && !After(w, ops).pool.suspended && After(w, ops).pool.limit == 0
  {
    var w, ops := Clocked(p, now, now), [Transfer(1, p.limit), Refill];
    assert p.limit / 1 == p.limit;
    var u := Step(w, ops[0]);
    assert ops[1..] == [Refill] && ops[1..][1..] == [];
    assert Elapsed(now % TICK_LIMIT, p.last) == 0;
    var v := Step(u, Refill);
    assert v.pool.limit == 0 && !v.pool.suspended;
    assert IsRun(v, []) && IsRun(u, [Refill]) && After(v, []) == v && After(u, [Refill]) == v;
  }

  /** In every run the group has something to give while it is not suspended, if and only if its smallest share is a byte. */
  lemma {:induction false} GivesSomethingExactly(p: Pool, now: nat)
    requires RateOk(p.cfg) && p.minShare <= p.cfg.rate && 0 < p.limit <= p.cfg.maximum && !p.suspended && p.last == now % TICK_LIMIT
    ensures (forall ops :: IsRun(Clocked(p, now, now), ops) ==> GivesSomething(After(Clocked(p, now, now), ops).pool)) <==>
            p.minShare >= 1
  {
    var w := Clocked(p, now, now);
    if p.minShare >= 1 {
      forall ops | IsRun(w, ops)
        ensures GivesSomething(After(w, ops).pool)
      {
        RunOk(w, ops, now, p.limit + p.total);
      }
    } else {
      ZeroShareRunsEmpty(p, now);
      assert !GivesSomething(After(w, [Transfer(1, p.limit), Refill]).pool);
    }
  }
}
