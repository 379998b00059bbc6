// struct bufferevent_private and struct bufferevent_rate_limit_group, as their functions change them in place.
module RateLimitGroups {
  import opened Bytes
  import opened TokenBuckets
  import opened RateLimits

  class Bufferevent {
    var cfg: Option<Config>
    var read: Lane
    var write: Lane
    var last: nat
    var pending: bool
    var group: RateLimitGroup?

    constructor ()
      ensures View() == Limited(None, Lane(0, {}, false, false), Lane(0, {}, false, false), 0, false) && group == null
    {
      cfg, read, write, last, pending, group := None, Lane(0, {}, false, false), Lane(0, {}, false, false), 0, false, null;
    }

    function View(): Limited
      reads this
    {
      Limited(cfg, read, write, last, pending)
    }

    function LaneOf(dir: Dir): Lane
      reads this
    {
      if dir.Reading? then read else write
    }

    method SetLane(dir: Dir, l: Lane)
      modifies this`read, this`write
      ensures View() == old(View()).Put(dir, l)
    {
      if dir.Reading? {
        read := l;
      } else {
        write := l;
      }
    }

    // bufferevent_suspend_read_, bufferevent_suspend_write_
    method SuspendLane(dir: Dir, why: Reason)
      modifies this`read, this`write
      ensures View() == old(View()).Put(dir, Suspend(old(LaneOf(dir)), why))
    {
      var l := LaneOf(dir);
      if l.suspended == {} {
        l := l.(running := false);
      }
      SetLane(dir, l.(suspended := l.suspended + {why}));
    }

    // bufferevent_unsuspend_read_, bufferevent_unsuspend_write_
    method UnsuspendLane(dir: Dir, why: Reason)
      modifies this`read, this`write
      ensures View() == old(View()).Put(dir, Unsuspend(old(LaneOf(dir)), why))
    {
      var l := LaneOf(dir);
      l := l.(suspended := l.suspended - {why});
      if l.suspended == {} && l.enabled {
        l := l.(running := true);
      }
      SetLane(dir, l);
    }

    // ev_token_bucket_update_ on the bufferevent's own bucket
    method UpdateBuckets(tick: nat)
      modifies this`read, this`write, this`last
      ensures View() == Update(old(View()), tick)
    {
      if cfg.None? {
        return;
      }
      var n := Elapsed(tick, last);
      if n == 0 || n > INT_MAX {
        return;
      }
      read := read.(limit := Refilled(cfg.value.read, read.limit, n));
      write := write.(limit := Refilled(cfg.value.write, write.limit, n));
      last := tick;
    }

    // The bufferevent's part of bufferevent_decrement_read_buckets_ and bufferevent_decrement_write_buckets_.
    method DecrementBuckets(dir: Dir, bytes: int)
      modifies this`read, this`write, this`pending
      ensures View() == Decrement(old(View()), dir, bytes)
    {
      if cfg.None? {
        return;
      }
      SetLane(dir, LaneOf(dir).(limit := LaneOf(dir).limit - bytes));
      if LaneOf(dir).limit <= 0 {
        SuspendLane(dir, Bandwidth);
        pending := true;
      } else if Bandwidth in LaneOf(dir).suspended {
        if Bandwidth !in LaneOf(Other(dir)).suspended {
          pending := false;
        }
        UnsuspendLane(dir, Bandwidth);
      }
    }

    method WakeLane(dir: Dir) returns (again: bool)
      modifies this`read, this`write
      ensures View() == old(View()).Put(dir, Wake(old(LaneOf(dir))))
      ensures again == (Bandwidth in LaneOf(dir).suspended)
    {
      again := false;
      if Bandwidth in LaneOf(dir).suspended {
        if LaneOf(dir).limit > 0 {
          UnsuspendLane(dir, Bandwidth);
        } else {
          again := true;
        }
      }
    }

    // One direction of bufferevent_set_rate_limit.
    method ResetLane(dir: Dir, c: Rate, reinit: bool)
      modifies this`read, this`write
      ensures View() == old(View()).Put(dir, Reset(Init(old(LaneOf(dir)), c, reinit)))
    {
      var l := LaneOf(dir);
      SetLane(dir, if reinit then l.(limit := Min(l.limit, c.maximum)) else l.(limit := c.rate));
      if LaneOf(dir).limit > 0 {
        UnsuspendLane(dir, Bandwidth);
      } else {
        SuspendLane(dir, Bandwidth);
      }
    }

    // bufferevent_set_rate_limit
    method ConfigureRate(c: Option<Config>, tick: nat)
      modifies this`cfg, this`read, this`write, this`last, this`pending
      ensures View() == SetRateLimit(old(View()), c, tick)
    {
      if c.None? {
        cfg := None;
        UnsuspendLane(Reading, Bandwidth);
        UnsuspendLane(Writing, Bandwidth);
        pending := false;
        return;
      }
      if cfg == c {
        return;
      }
      var reinit := cfg.Some?;
      cfg := c;
      if !reinit {
        last := tick;
      }
      ResetLane(Reading, c.value.read, reinit);
      ResetLane(Writing, c.value.write, reinit);
      pending := read.limit <= 0 || write.limit <= 0;
    }

    // What the group gives each of its members.
    function GroupShare(dir: Dir): Option<int>
      reads this, group
    {
      if group == null || group.members == [] then None else Some(Share(group.View(dir), |group.members|))
    }

    // bufferevent_get_rlim_max_
    method RlimMax(dir: Dir, maxSingle: nat, tick: nat) returns (most: int)
      requires group != null ==> group.Valid() && this in group.members
      modifies this`read, this`write, this`last
      ensures View() == Update(old(View()), tick) && group == old(group)
      ensures most == AtOnce(View(), dir, maxSingle, GroupShare(dir))
      ensures group != null ==>
        if group.View(dir).suspended then most == 0 else most <= group.minShare || most * |group.members| <= group.View(dir).limit
    {
      if group != null {
        ShareOf(group.View(dir), |group.members|);
      }
      most := maxSingle as int;
      UpdateBuckets(tick);
      if cfg.Some? {
        most := LaneOf(dir).limit;
      }
      if group != null {
        var share := 0;
        if group.View(dir).suspended {
          // The member is suspended already: it would be found here only if it could not be locked before.
          assert GroupBandwidth in LaneOf(dir).suspended;
          SuspendLane(dir, GroupBandwidth);
        } else {
          share := Max(Quotient(group.View(dir).limit, |group.members|), group.minShare);
        }
        most := Min(most, share);
      }
      most := Max(0, most);
    }

    // bev_refill_callback_
    method OnRefill(tick: nat)
      modifies this`read, this`write, this`last, this`pending
      ensures View() == RefillCallback(old(View()), tick)
    {
      pending := false;
      if cfg.None? {
        return;
      }
      UpdateBuckets(tick);
      var againRead := WakeLane(Reading);
      var againWrite := WakeLane(Writing);
      if againRead || againWrite {
        pending := true;
      }
    }
  }

  lemma {:induction false} ShareOf(p: Pool, n: nat)
    requires n > 0
    ensures p.suspended ==> Share(p, n) == 0
    ensures !p.suspended ==> forall m: int {:trigger m * n} | m <= Share(p, n) :: m <= p.minShare || m * n <= p.limit
  {
    ShareExact(p, n);
    var a := Share(p, n);
    forall m: int | p.minShare < m <= a
      ensures m * n <= a * n
    {
      MulMonotone(n, m, a);
    }
  }

  /** Each of `ms` is visited once, and nothing else is. */
  lemma {:induction false} VisitsEachOnce(ms: seq<Bufferevent>, which: nat)
    requires which <= |ms| && forall i, j | 0 <= i < j < |ms| :: ms[i] != ms[j]
    ensures var visited := ms[which..] + ms[..which];
      && |visited| == |ms| && (forall m | m in ms :: m in visited)
      && (forall i | 0 <= i < |visited| :: visited[i] in ms)
      && (forall i, j | 0 <= i < j < |visited| :: visited[i] != visited[j])
  {
    var visited := ms[which..] + ms[..which];
    forall m | m in ms
      ensures m in visited
    {
      var i :| 0 <= i < |ms| && ms[i] == m;
      assert visited[if i < which then |ms| - which + i else i - which] == m;
    }
  }

  lemma {:induction false} WithoutOne(ms: seq<Bufferevent>, i: nat)
    requires i < |ms| && forall j, k | 0 <= j < k < |ms| :: ms[j] != ms[k]
    ensures var rest := ms[..i] + ms[i + 1..];
      && (forall m | m in ms :: m == ms[i] || m in rest)
      && (forall m | m in rest :: m in ms && m != ms[i])
      && (forall j, k | 0 <= j < k < |rest| :: rest[j] != rest[k])
  {
    var rest := ms[..i] + ms[i + 1..];
    forall m | m in ms && m != ms[i]
      ensures m in rest
    {
      var j :| 0 <= j < |ms| && ms[j] == m;
      assert rest[if j < i then j else j - 1] == m;
    }
  }

  class RateLimitGroup {
    var members: seq<Bufferevent>
    var cfg: Config
    var readLimit: int
    var writeLimit: int
    var last: nat
    var readSuspended: bool
    var writeSuspended: bool
    var minShare: nat
    var totalRead: nat
    var totalWritten: nat

    function View(dir: Dir): Pool
      reads this
    {
      if dir.Reading? then Pool(cfg.read, readLimit, last, readSuspended, minShare, totalRead)
      else Pool(cfg.write, writeLimit, last, writeSuspended, minShare, totalWritten)
    }

    /** Every member knows its group, and is suspended for the group's sake exactly while the group is. */
    ghost predicate Valid()
      reads this, members
    {
      && (forall i, j | 0 <= i < j < |members| :: members[i] != members[j])
      && (forall m | m in members :: m.group == this)
      && (forall m, dir: Dir | m in members :: GroupBandwidth in m.LaneOf(dir).suspended <==> View(dir).suspended)
    }

    /** `m` has been suspended for the group's sake, or that suspension has been ended. */
    twostate predicate Switched(m: Bufferevent, dir: Dir, on: bool)
      reads m
    {
      && m.group == old(m.group)
      && m.View() == old(m.View()).Put(dir,
           if on then Suspend(old(m.LaneOf(dir)), GroupBandwidth) else Unsuspend(old(m.LaneOf(dir)), GroupBandwidth))
    }

    twostate predicate Same(m: Bufferevent)
      reads m
    {
      m.group == old(m.group) && m.View() == old(m.View())
    }

    method SetSuspended(dir: Dir, on: bool)
      modifies this`readSuspended, this`writeSuspended
      ensures View(dir) == old(View(dir)).(suspended := on) && View(Other(dir)) == old(View(Other(dir)))
    {
      if dir.Reading? {
        readSuspended := on;
      } else {
        writeSuspended := on;
      }
    }

    // bev_group_suspend_reading_, bev_group_suspend_writing_
    method SuspendAll(dir: Dir)
      requires forall i, j | 0 <= i < j < |members| :: members[i] != members[j]
      modifies this`readSuspended, this`writeSuspended, members
      ensures View(dir) == old(View(dir)).(suspended := true) && View(Other(dir)) == old(View(Other(dir)))
      ensures members == old(members) && forall m | m in members :: Switched(m, dir, true)
    {
      SetSuspended(dir, true);
      for i := 0 to |members|
        invariant View(dir) == old(View(dir)).(suspended := true) && View(Other(dir)) == old(View(Other(dir)))
        invariant members == old(members)
        invariant forall j | 0 <= j < |members| :: if j < i then Switched(members[j], dir, true) else Same(members[j])
      {
        assert members[i] in members;
        members[i].SuspendLane(dir, GroupBandwidth);
      }
    }

    // One stretch of FOREACH_RANDOM_ORDER.
    method UnsuspendStretch(dir: Dir, from: nat, to: nat, ghost seen: seq<Bufferevent>) returns (ghost visited: seq<Bufferevent>)
      requires from <= to <= |members| && forall i, j | 0 <= i < j < |members| :: members[i] != members[j]
      modifies members
      ensures visited == seen + members[from..to]
      ensures forall j | 0 <= j < |members| ::
        if from <= j < to then Switched(members[j], dir, false) else Same(members[j])
    {
      visited := seen;
      for i := from to to
        invariant visited == seen + members[from..i] && members == old(members)
        invariant forall j | 0 <= j < |members| ::
          if from <= j < i then Switched(members[j], dir, false) else Same(members[j])
      {
        assert members[i] in members;
        members[i].UnsuspendLane(dir, GroupBandwidth);
        visited := visited + [members[i]];
      }
    }

    // bev_group_unsuspend_reading_, bev_group_unsuspend_writing_; `which` is where the random order starts
    method UnsuspendAll(dir: Dir, which: nat) returns (ghost visited: seq<Bufferevent>)
      requires forall i, j | 0 <= i < j < |members| :: members[i] != members[j]
      requires which < |members| || members == []
      modifies this`readSuspended, this`writeSuspended, members
      ensures View(dir) == old(View(dir)).(suspended := false) && View(Other(dir)) == old(View(Other(dir)))
      ensures members == old(members) && forall m | m in members :: Switched(m, dir, false)
      ensures |visited| == |members| && (forall m | m in members :: m in visited)
      ensures forall i, j | 0 <= i < j < |visited| :: visited[i] != visited[j]
    {
      SetSuspended(dir, false);
      var first := if members == [] then 0 else which;
      VisitsEachOnce(members, first);
      visited := UnsuspendStretch(dir, first, |members|, []);
      visited := UnsuspendStretch(dir, 0, first, visited);
      assert visited == members[first..] + members[..first];
    }

    // The group's part of bufferevent_decrement_read_buckets_ and bufferevent_decrement_write_buckets_.
    method DecrementGroup(dir: Dir, bytes: nat, which: nat)
      requires Valid() && (which < |members| || members == [])
      modifies this`readSuspended, this`writeSuspended, this`readLimit, this`writeLimit, this`totalRead, this`totalWritten
      modifies members
      ensures Valid() && members == old(members)
      ensures View(dir) == SpendPool(old(View(dir)), bytes) && View(Other(dir)) == old(View(Other(dir)))
    {
      if dir.Reading? {
        readLimit, totalRead := readLimit - bytes, totalRead + bytes;
      } else {
        writeLimit, totalWritten := writeLimit - bytes, totalWritten + bytes;
      }
      if View(dir).limit <= 0 {
        SuspendAll(dir);
      } else if View(dir).suspended {
        var _ := UnsuspendAll(dir, which);
      }
      forall m, d: Dir | m in members
        ensures GroupBandwidth in m.LaneOf(d).suspended <==> View(d).suspended
      {
        assert d == dir || d == Other(dir);
        assert GroupBandwidth in old(m.LaneOf(d)).suspended <==> old(View(d)).suspended;
      }
    }

    // bev_group_refill_callback_
    method OnGroupRefill(tick: nat, whichRead: nat, whichWrite: nat)
      requires Valid() && (members == [] || (whichRead < |members| && whichWrite < |members|))
      modifies this`readSuspended, this`writeSuspended, this`readLimit, this`writeLimit, this`last, members
      ensures Valid() && members == old(members)
      ensures forall dir: Dir :: View(dir) == RefillPool(old(View(dir)), tick)
    {
      RefillLimits(tick);
      if readSuspended && readLimit >= minShare {
        var _ := UnsuspendAll(Reading, whichRead);
      }
      if writeSuspended && writeLimit >= minShare {
        var _ := UnsuspendAll(Writing, whichWrite);
      }
    }

    // The two pools, before anybody is woken up.
    method RefillLimits(tick: nat)
      requires Valid()
      modifies this`readLimit, this`writeLimit, this`last
      ensures Valid() && forall dir: Dir :: View(dir) == UpdatePool(old(View(dir)), tick)
    {
      var n := Elapsed(tick, last);
      if TicksPassed(n) {
        readLimit, writeLimit := Refilled(cfg.read, readLimit, n), Refilled(cfg.write, writeLimit, n);
        last := tick;
      }
    }

    // The end of bufferevent_add_to_rate_limit_group, for a bufferevent that is in no group
    method AddMember(bev: Bufferevent)
      requires Valid() && bev.group == null && forall dir: Dir :: GroupBandwidth !in bev.LaneOf(dir).suspended
      modifies this`members, bev
      ensures Valid() && members == [bev] + old(members)
      ensures forall dir: Dir :: View(dir) == old(View(dir))
    {
      bev.group := this;
      members := [bev] + members;
      if readSuspended {
        bev.SuspendLane(Reading, GroupBandwidth);
      }
      if writeSuspended {
        bev.SuspendLane(Writing, GroupBandwidth);
      }
      forall m, d: Dir | m in members
        ensures GroupBandwidth in m.LaneOf(d).suspended <==> View(d).suspended
      {
        assert m != bev ==> m in old(members) && m.LaneOf(d) == old(m.LaneOf(d));
        assert m == bev ==> GroupBandwidth !in old(bev.LaneOf(d)).suspended;
      }
    }

    // bufferevent_remove_from_rate_limit_group
    method RemoveMember(bev: Bufferevent)
      requires Valid() && bev in members
      modifies this`members, bev
      ensures Valid() && bev !in members && (forall m | m in old(members) :: m == bev || m in members)
      ensures bev.group == null && |members| == |old(members)| - 1
      ensures forall dir: Dir :: View(dir) == old(View(dir)) && GroupBandwidth !in bev.LaneOf(dir).suspended
    {
      var i :| 0 <= i < |members| && members[i] == bev;
      WithoutOne(members, i);
      members := members[..i] + members[i + 1..];
      bev.group := null;
      bev.UnsuspendLane(Reading, GroupBandwidth);
      bev.UnsuspendLane(Writing, GroupBandwidth);
      assert forall m, d: Dir | m in members :: m.LaneOf(d) == old(m.LaneOf(d));
    }

    // The group a bufferevent is in, or this one.
    function GroupOf(bev: Bufferevent): RateLimitGroup
      reads bev
    {
      if bev.group == null then this else bev.group
    }

    // bufferevent_add_to_rate_limit_group
    method Join(bev: Bufferevent)
      requires Valid() && (bev.group != null ==> bev.group.Valid() && bev in bev.group.members)
      requires bev.group == null ==> forall dir: Dir :: GroupBandwidth !in bev.LaneOf(dir).suspended
      modifies this`members, bev, GroupOf(bev)`members
      ensures Valid() && members == if old(bev.group) == this then old(members) else [bev] + old(members)
      ensures old(bev.group) != null && old(bev.group) != this ==> old(bev.group).Valid() && bev !in old(bev.group).members
      ensures forall dir: Dir :: View(dir) == old(View(dir))
    {
      if bev.group == this {
        return;
      }
      assert bev !in members;
      var other := bev.group;
      if other != null {
        other.RemoveMember(bev);
      }
      AddMember(bev);
    }
  }
}
