// A bufferevent pair: what one end writes, the other reads. Each of the two directions is a pipe of its own, from
// the output buffer of its source to the input buffer of its destination.
module PairPipes {
  import opened Bytes
  import opened RateLimits

  /** One direction. `written` and `taken` record what users have written into the pipe and read from it. */
  datatype Pipe = Pipe(
    output: seq<byte>, input: seq<byte>,
    writeOn: bool, writeSuspended: set<Reason>,   // EV_WRITE enabled at the source; why writing is suspended there
    readOn: bool, readSuspended: set<Reason>,     // EV_READ enabled at the destination; why reading is suspended there
    high: nat,                                    // wm_read.high of the destination
    written: seq<byte>, taken: seq<byte>)

  // be_pair_wants_to_talk
  predicate WantsToTalk(p: Pipe) {
    p.writeOn && p.readOn && p.readSuspended == {} && p.output != []
  }

  /** Of `have` bytes, `n` join the `size` that are there: as many as the mark admits, or all, or none. */
  predicate Admitted(n: nat, have: nat, size: nat, high: nat, ignoreWatermark: bool) {
    if high == 0 || (size >= high && ignoreWatermark) then n == have
    else if size >= high then n == 0
    else n <= have && size + n <= high && (n == have || size + n == high)
  }

  // How much be_pair_transfer moves of `have` bytes to where there are `size` already.
  function Moved(have: nat, size: nat, high: nat, ignoreWatermark: bool): (n: nat)
    ensures n <= have && Admitted(n, have, size, high, ignoreWatermark)
  {
    if high == 0 then have
    else if size < high then Min(high - size, have) as nat
    else if ignoreWatermark then have else 0
  }

  function Portion(p: Pipe, ignoreWatermark: bool): (n: nat)
    ensures n <= |p.output|
  {
    Moved(|p.output|, |p.input|, p.high, ignoreWatermark)
  }

  /** The mark admits one amount. */
  lemma {:induction false} OneAmount(p: Pipe, ignoreWatermark: bool)
    ensures forall n: nat :: Admitted(n, |p.output|, |p.input|, p.high, ignoreWatermark) <==> n == Portion(p, ignoreWatermark)
  {
  }

  function Move(p: Pipe, n: nat): Pipe
    requires n <= |p.output|
  {
    p.(output := p.output[n..], input := p.input + p.output[..n])
  }

  // be_pair_transfer, with the callbacks that the new input runs
  function Transfer(p: Pipe, ignoreWatermark: bool): Pipe
    decreases |p.output|, 0
  {
    var n := Portion(p, ignoreWatermark);
    if n == 0 then p else InputChanged(Move(p, n))
  }

  // bufferevent_inbuf_wm_cb, which is enabled while there is a high-water mark
  function InputChanged(p: Pipe): Pipe
    decreases |p.output|, 3
  {
    if p.high == 0 then p
    else if |p.input| >= p.high then p.(readSuspended := p.readSuspended + {Watermark})
    else UnsuspendRead(p, Watermark)
  }

  // bufferevent_unsuspend_read_ at the destination
  function UnsuspendRead(p: Pipe, why: Reason): Pipe
    decreases |p.output|, 2
  {
    var q := p.(readSuspended := p.readSuspended - {why});
    if q.readSuspended == {} && q.readOn then Talk(q) else q
  }

  // be_pair_enable at either end
  function Talk(p: Pipe): Pipe
    decreases |p.output|, 1
  {
    if WantsToTalk(p) then Transfer(p, false) else p
  }

  // The end of bufferevent_setwatermark
  function Marked(p: Pipe): Pipe {
    if p.high > 0 && |p.input| >= p.high then p.(readSuspended := p.readSuspended + {Watermark}) else UnsuspendRead(p, Watermark)
  }

  // What users and the rest of the library do to a pipe.
  datatype Op =
    | Write(data: seq<byte>)
    | Read(n: nat)
    | EnableWrite | DisableWrite | EnableRead | DisableRead
    | SuspendWrite(why: Reason) | UnsuspendWrite(why: Reason)
    | SuspendRead(why: Reason) | UnsuspendReading(why: Reason)
    | SetHighWatermark(high: nat)
    | Flush

  predicate Allowed(op: Op) {
    (op.SuspendRead? || op.UnsuspendReading?) ==> op.why != Watermark
  }

  function Step(p: Pipe, op: Op): Pipe {
    match op
    case Write(data) =>
      // bufferevent_write, which runs be_pair_outbuf_cb
      if data == [] then p else Talk(p.(output := p.output + data, written := p.written + data))
    case Read(n) =>
      var k := Min(n, |p.input|) as nat;
      if k == 0 then p else InputChanged(p.(input := p.input[k..], taken := p.taken + p.input[..k]))
    case EnableWrite =>
      var q := p.(writeOn := true);
      if p.writeSuspended == {} then Talk(q) else q
    case DisableWrite => p.(writeOn := false)
    case EnableRead =>
      var q := p.(readOn := true);
      if p.readSuspended == {} then Talk(q) else q
    case DisableRead => p.(readOn := false)
    case SuspendWrite(why) => p.(writeSuspended := p.writeSuspended + {why})
    case UnsuspendWrite(why) =>
      var q := p.(writeSuspended := p.writeSuspended - {why});
      if q.writeSuspended == {} && q.writeOn then Talk(q) else q
    case SuspendRead(why) => p.(readSuspended := p.readSuspended + {why})
    case UnsuspendReading(why) => UnsuspendRead(p, why)
    case SetHighWatermark(high) =>
      // bufferevent_setwatermark
      Marked(p.(high := high))
    case Flush => Transfer(p, true)
  }

  /** Nothing is lost, duplicated or reordered. */
  ghost predicate Conserved(p: Pipe) { p.written == p.taken + p.input + p.output }

  /** Reading is suspended for the watermark's sake exactly while the input has reached it. */
  ghost predicate WatermarkOk(p: Pipe) { Watermark in p.readSuspended <==> p.high > 0 && |p.input| >= p.high }

  /** Data that could be delivered is held back only while writing is suspended at the source. */
  ghost predicate NothingStuck(p: Pipe) { WantsToTalk(p) ==> p.writeSuspended != {} }

  ghost predicate Ok(p: Pipe) { Conserved(p) && WatermarkOk(p) && NothingStuck(p) }

  lemma {:induction false} MoveOk(p: Pipe, n: nat)
    requires n <= |p.output| && Conserved(p)
    ensures Conserved(Move(p, n))
  {
    assert p.output == p.output[..n] + p.output[n..];
  }

  /** Where there is nothing to deliver, ending a suspension moves nothing. */
  lemma {:induction false} UnsuspendEmpty(p: Pipe, why: Reason)
    requires p.output == []
    ensures UnsuspendRead(p, why) == p.(readSuspended := p.readSuspended - {why})
  {
    var q := p.(readSuspended := p.readSuspended - {why});
    assert !WantsToTalk(q);
    assert Talk(q) == q;
  }

  /** The same bytes in the same order, fewer of them on the way; nothing else has changed but what the mark does. */
  ghost predicate Forwards(p: Pipe, q: Pipe) {
    && q.input + q.output == p.input + p.output && p.input <= q.input
    && q.writeOn == p.writeOn && q.writeSuspended == p.writeSuspended && q.readOn == p.readOn && q.high == p.high
    && q.readSuspended - {Watermark} == p.readSuspended - {Watermark} && q.written == p.written && q.taken == p.taken
  }

  /**
   * How far a transfer goes: up to the high-water mark if the input is below it, and then no byte is left out that
   * the mark admits; at the mark or above nothing moves unless the mark is ignored, and without a mark everything does.
   */
  ghost predicate StopsAtMark(p: Pipe, q: Pipe, ignoreWatermark: bool) {
    if p.high == 0 || (|p.input| >= p.high && ignoreWatermark) then q.output == []
    else if |p.input| >= p.high then q.input == p.input
    else |q.input| <= p.high && (q.output == [] || |q.input| == p.high)
  }

  lemma {:induction false} TransferLimits(p: Pipe, ignoreWatermark: bool)
    ensures Forwards(p, Transfer(p, ignoreWatermark)) && StopsAtMark(p, Transfer(p, ignoreWatermark), ignoreWatermark)
  {
    var n := Portion(p, ignoreWatermark);
    var q := Move(p, n);
    assert p.output[..n] + p.output[n..] == p.output && q.input + q.output == p.input + p.output;
    if n > 0 && (q.high == 0 || |q.input| < q.high) {
      assert q.output == [];
      UnsuspendEmpty(q, Watermark);
    }
  }

  lemma {:induction false} TalkLimits(p: Pipe)
    ensures Forwards(p, Talk(p)) && (if WantsToTalk(p) then StopsAtMark(p, Talk(p), false) else Talk(p) == p)
  {
    if WantsToTalk(p) {
      TransferLimits(p, false);
    }
  }

  lemma {:induction false} UnsuspendLimits(p: Pipe, why: Reason)
    ensures var u := p.(readSuspended := p.readSuspended - {why}); var q := UnsuspendRead(p, why);
      Forwards(u, q) && (q == u || StopsAtMark(p, q, false))
  {
    TalkLimits(p.(readSuspended := p.readSuspended - {why}));
  }

  /** What a transfer leaves behind: nothing that may still be delivered. */
  lemma {:induction false} TransferOk(p: Pipe, ignoreWatermark: bool)
    requires Conserved(p) && WatermarkOk(p) && (ignoreWatermark || p.readSuspended == {})
    requires ignoreWatermark ==> NothingStuck(p)
    ensures Ok(Transfer(p, ignoreWatermark))
  {
    var n := Portion(p, ignoreWatermark);
    MoveOk(p, n);
    var q := Move(p, n);
    if n > 0 && (q.high == 0 || |q.input| < q.high) {
      assert q.output == [];
      UnsuspendEmpty(q, Watermark);
    }
  }

  lemma {:induction false} TalkOk(p: Pipe)
    requires Conserved(p) && WatermarkOk(p)
    ensures Ok(Talk(p))
  {
    if WantsToTalk(p) {
      TransferOk(p, false);
    }
  }

  lemma {:induction false} UnsuspendReadOk(p: Pipe, why: Reason)
    requires Conserved(p) && WatermarkOk(p.(readSuspended := p.readSuspended - {why}))
    ensures Ok(UnsuspendRead(p, why))
  {
    TalkOk(p.(readSuspended := p.readSuspended - {why}));
  }

  lemma {:induction false} MarkStep(p: Pipe, high: nat)
    ensures Step(p, SetHighWatermark(high)) == Marked(p.(high := high))
  {
  }

  lemma {:induction false} MarkedOk(p: Pipe)
    requires Conserved(p)
    ensures Ok(Marked(p))
  {
    if !(p.high > 0 && |p.input| >= p.high) {
      UnsuspendReadOk(p, Watermark);
    }
  }

  lemma {:induction false} ReadOk(p: Pipe, k: nat)
    requires Ok(p) && 0 < k <= |p.input|
    ensures Ok(InputChanged(p.(input := p.input[k..], taken := p.taken + p.input[..k])))
  {
    var q := p.(input := p.input[k..], taken := p.taken + p.input[..k]);
    assert p.input[..k] + p.input[k..] == p.input;
    assert Conserved(q);
    if |q.input| < q.high {
      UnsuspendReadOk(q, Watermark);
    }
  }

  /** Whatever happens to a pipe, it loses nothing and holds back nothing it should deliver. */
  lemma {:induction false} StepOk(p: Pipe, op: Op)
    requires Ok(p) && Allowed(op)
    ensures Ok(Step(p, op))
  {
    match op
    case Write(data) =>
      var q := p.(output := p.output + data, written := p.written + data);
      assert q.written == q.taken + q.input + q.output;
      TalkOk(q);
    case Read(n) =>
      if n > 0 && p.input != [] { ReadOk(p, Min(n, |p.input|)); }
    case EnableWrite => TalkOk(p.(writeOn := true));
    case EnableRead => TalkOk(p.(readOn := true));
    case UnsuspendWrite(why) => TalkOk(p.(writeSuspended := p.writeSuspended - {why}));
    case UnsuspendReading(why) => UnsuspendReadOk(p, why);
    case SetHighWatermark(high) =>
      MarkedOk(p.(high := high));
    case Flush => TransferOk(p, true);
    case DisableWrite =>
    case DisableRead =>
    case SuspendWrite(why) =>
    case SuspendRead(why) =>
  }

  /** What a user has asked for is so afterwards, and what nobody has asked for has not changed. */
  lemma {:induction false} StepSettings(p: Pipe, op: Op)
    ensures var q := Step(p, op);
      && q.writeOn == (op.EnableWrite? || (p.writeOn && !op.DisableWrite?))
      && q.readOn == (op.EnableRead? || (p.readOn && !op.DisableRead?))
      && q.high == (if op.SetHighWatermark? then op.high else p.high)
      && q.writeSuspended == (if op.SuspendWrite? then p.writeSuspended + {op.why}
                              else if op.UnsuspendWrite? then p.writeSuspended - {op.why} else p.writeSuspended)
      && q.readSuspended - {Watermark} == (if op.SuspendRead? then p.readSuspended + {op.why}
                                           else if op.UnsuspendReading? then p.readSuspended - {op.why}
                                           else p.readSuspended) - {Watermark}
      && q.written == p.written + (if op.Write? then op.data else [])
      && q.taken == p.taken + (if op.Read? then p.input[..Min(op.n, |p.input|)] else [])
  {
    match op
    case Write(data) => TalkLimits(p.(output := p.output + data, written := p.written + data));
    case Read(n) => ReadLimits(p, Min(n, |p.input|));
    case EnableWrite => TalkLimits(p.(writeOn := true));
    case EnableRead => TalkLimits(p.(readOn := true));
    case UnsuspendWrite(why) => TalkLimits(p.(writeSuspended := p.writeSuspended - {why}));
    case UnsuspendReading(why) => UnsuspendLimits(p, why);
    case SetHighWatermark(high) => UnsuspendLimits(p.(high := high), Watermark);
    case Flush => TransferLimits(p, true);
    case DisableWrite =>
    case DisableRead =>
    case SuspendWrite(why) =>
    case SuspendRead(why) =>
  }

  lemma {:induction false} ReadLimits(p: Pipe, k: nat)
    requires k <= |p.input|
    ensures var u := p.(input := p.input[k..], taken := p.taken + p.input[..k]);
      Forwards(u, InputChanged(u)) && (InputChanged(u).input == u.input || StopsAtMark(u, InputChanged(u), false))
  {
    UnsuspendLimits(p.(input := p.input[k..], taken := p.taken + p.input[..k]), Watermark);
  }

  // All that a run writes.
  function WrittenIn(ops: seq<Op>): seq<byte> {
    if ops == [] then [] else (if ops[0].Write? then ops[0].data else []) + WrittenIn(ops[1..])
  }

  lemma {:induction false} RunWrites(p: Pipe, ops: seq<Op>)
    ensures After(p, ops).written == p.written + WrittenIn(ops)
    decreases |ops|
  {
    if ops != [] {
      StepSettings(p, ops[0]);
      RunWrites(Step(p, ops[0]), ops[1..]);
    }
  }

  function After(p: Pipe, ops: seq<Op>): Pipe
    decreases |ops|
  {
    if ops == [] then p else After(Step(p, ops[0]), ops[1..])
  }

  // bufferevent_pair_new: nothing written yet, writing enabled
  const New := Pipe([], [], true, {}, false, {}, 0, [], [])

  lemma {:induction false} RunOk(p: Pipe, ops: seq<Op>)
    requires Ok(p) && forall i | 0 <= i < |ops| :: Allowed(ops[i])
    ensures Ok(After(p, ops))
    decreases |ops|
  {
    if ops != [] {
      StepOk(p, ops[0]);
      RunOk(Step(p, ops[0]), ops[1..]);
    }
  }

  /** Over every run, what was written is what was read, what can be read, and what is held back, in this order. */
  lemma {:induction false} PipeRuns(ops: seq<Op>)
    requires forall i | 0 <= i < |ops| :: Allowed(ops[i])
    ensures var p := After(New, ops);
      && WrittenIn(ops) == p.taken + p.input + p.output
      && (p.writeSuspended == {} ==> !WantsToTalk(p))
      && (p.high == 0 && p.readOn && p.readSuspended == {} && p.writeOn && p.writeSuspended == {} ==>
            WrittenIn(ops) == p.taken + p.input)
  {
    RunOk(New, ops);
    RunWrites(New, ops);
  }

  // ----- when data is stuck -----

  /** A transfer within the watermark, and so everything that calls it, delivers all that may be delivered. */
  lemma {:induction false} TalkDelivers(p: Pipe)
    requires WatermarkOk(p)
    ensures !WantsToTalk(Talk(p))
  {
    if WantsToTalk(p) {
      TransferDelivers(p, false);
    }
  }

  lemma {:induction false} UnsuspendDelivers(p: Pipe, why: Reason)
    requires WatermarkOk(p.(readSuspended := p.readSuspended - {why}))
    ensures !WantsToTalk(UnsuspendRead(p, why))
  {
    TalkDelivers(p.(readSuspended := p.readSuspended - {why}));
  }

  lemma {:induction false} TransferDelivers(p: Pipe, ignoreWatermark: bool)
    requires WatermarkOk(p) && WantsToTalk(p)
    ensures !WantsToTalk(Transfer(p, ignoreWatermark))
  {
    var n := Portion(p, ignoreWatermark);
    var q := Move(p, n);
    if q.high == 0 || |q.input| < q.high {
      assert q.output == [];
      UnsuspendEmpty(q, Watermark);
    }
  }

  /** Writing is enabled at the source while it is suspended there, and the other end reads and there is data. */
  predicate GetsStuck(p: Pipe, op: Op) {
    op.EnableWrite? && !p.writeOn && p.writeSuspended != {} && p.readOn && p.readSuspended == {} && p.output != []
  }

  /** The operation gives no occasion for a transfer, and leaves both ends ready for one. */
  predicate StaysStuck(p: Pipe, op: Op) {
    match op
    case Write(data) => data == []
    case Read(n) => n == 0 || p.input == [] || p.high == 0
    case EnableWrite => true
    case SuspendWrite(_) => true
    case UnsuspendWrite(why) => p.writeSuspended - {why} != {}
    case _ => false
  }

  /** Exactly which steps leave data undelivered that could be delivered. */
  lemma {:induction false} StuckStep(p: Pipe, op: Op)
    requires Ok(p) && Allowed(op)
    ensures WantsToTalk(Step(p, op)) <==> if WantsToTalk(p) then StaysStuck(p, op) else GetsStuck(p, op)
  {
    match op
    case Write(data) => TalkDelivers(p.(output := p.output + data, written := p.written + data));
    case Read(n) =>
      var k := Min(n, |p.input|) as nat;
      var q := p.(input := p.input[k..], taken := p.taken + p.input[..k]);
      assert k == 0 <==> n == 0 || p.input == [];
      if |q.input| < q.high {
        UnsuspendDelivers(q, Watermark);
      } else {
        assert Watermark in q.readSuspended + {Watermark};
      }
    case EnableWrite => TalkDelivers(p.(writeOn := true));
    case EnableRead => TalkDelivers(p.(readOn := true));
    case UnsuspendWrite(why) => TalkDelivers(p.(writeSuspended := p.writeSuspended - {why}));
    case UnsuspendReading(why) => UnsuspendDelivers(p, why);
    case SetHighWatermark(high) =>
      var q := p.(high := high);
      if !(high > 0 && |q.input| >= high) {
        UnsuspendDelivers(q, Watermark);
      }
    case Flush => FlushDelivers(p);
    case DisableWrite =>
    case DisableRead =>
    case SuspendWrite(why) =>
    case SuspendRead(why) =>
  }

  lemma {:induction false} FlushDelivers(p: Pipe)
    requires WatermarkOk(p)
    ensures !WantsToTalk(Transfer(p, true))
  {
    if WantsToTalk(p) {
      TransferDelivers(p, true);
    } else {
      var n := Portion(p, true);
      var q := Move(p, n);
      if n > 0 && q.high > 0 && |q.input| < q.high {
        assert q.output == [];
        UnsuspendEmpty(q, Watermark);
      }
    }
  }

  // The pipe before step `i` of a run.
  function Before(ops: seq<Op>, i: nat): Pipe
    requires i <= |ops|
  {
    After(New, ops[..i])
  }

  lemma {:induction false} AfterSnoc(p: Pipe, ops: seq<Op>, op: Op)
    ensures After(p, ops + [op]) == Step(After(p, ops), op)
    decreases |ops|
  {
    if ops == [] {
      assert [op][1..] == [];
    } else {
      assert (ops + [op])[1..] == ops[1..] + [op];
      AfterSnoc(Step(p, ops[0]), ops[1..], op);
    }
  }

  /** What some steps bring about (`gets`) and other ones let be (`stays`) came about in step `i` and has lasted since. */
  ghost predicate Since(ops: seq<Op>, i: nat, gets: (Pipe, Op) -> bool, stays: (Pipe, Op) -> bool) {
    && i < |ops| && gets(Before(ops, i), ops[i])
    && forall j {:trigger Before(ops, j)} | i < j < |ops| :: stays(Before(ops, j), ops[j])
  }

  /** What single steps bring about and let be, over every run. */
  lemma {:induction false} SinceExactly(ops: seq<Op>, holds: Pipe -> bool, gets: (Pipe, Op) -> bool, stays: (Pipe, Op) -> bool)
    requires forall i | 0 <= i < |ops| :: Allowed(ops[i])
    requires !holds(New)
    requires forall p, op | Ok(p) && Allowed(op) :: holds(Step(p, op)) <==> if holds(p) then stays(p, op) else gets(p, op)
    requires forall p, op | holds(p) :: !gets(p, op) || stays(p, op)
    ensures holds(After(New, ops)) <==> exists i: nat :: Since(ops, i, gets, stays)
    decreases |ops|
  {
    if ops != [] {
      var n := |ops| - 1;
      var front := ops[..n];
      assert ops == front + [ops[n]];
      AfterSnoc(New, front, ops[n]);
      RunOk(New, front);
      SinceExactly(front, holds, gets, stays);
      forall i: nat
        ensures Since(ops, i, gets, stays) <==>
                if i == n then gets(After(New, front), ops[n]) else Since(front, i, gets, stays) && stays(After(New, front), ops[n])
      {
        SinceFront(ops, front, i, gets, stays);
      }
      assert Since(ops, n, gets, stays) <==> gets(After(New, front), ops[n]);
    }
  }

  lemma {:induction false} SinceFront(ops: seq<Op>, front: seq<Op>, i: nat, gets: (Pipe, Op) -> bool, stays: (Pipe, Op) -> bool)
    requires ops != [] && front == ops[..|ops| - 1]
    ensures var n := |ops| - 1; Since(ops, i, gets, stays) <==>
      if i == n then gets(After(New, front), ops[n]) else Since(front, i, gets, stays) && stays(After(New, front), ops[n])
  {
    var n := |ops| - 1;
    assert forall j | 0 <= j <= n :: front[..j] == ops[..j];
    assert forall j: nat | j <= n :: Before(front, j) == Before(ops, j);
    assert Before(ops, n) == After(New, front);
  }

  /** Over every run: data is stuck at the end exactly if one step got it stuck and no later one let it go. */
  lemma {:induction false} StuckExactly(ops: seq<Op>)
    requires forall i | 0 <= i < |ops| :: Allowed(ops[i])
    ensures WantsToTalk(After(New, ops)) <==> exists i: nat :: Since(ops, i, GetsStuck, StaysStuck)
  {
    forall p, op | Ok(p) && Allowed(op)
      ensures WantsToTalk(Step(p, op)) <==> if WantsToTalk(p) then StaysStuck(p, op) else GetsStuck(p, op)
    {
      StuckStep(p, op);
    }
    SinceExactly(ops, WantsToTalk, GetsStuck, StaysStuck);
  }

  // ----- when the input is above its mark -----

  /** There is more to read than the high-water mark admits. */
  predicate AboveMark(p: Pipe) { p.high > 0 && |p.input| > p.high }

  /** A flush at the mark, or a mark that is set below what is there already. */
  predicate RisesAbove(p: Pipe, op: Op) {
    match op
    case Flush => p.high > 0 && |p.input| >= p.high && p.output != []
    case SetHighWatermark(high) => high > 0 && |p.input| > high
    case _ => false
  }

  /** Not enough is read, and the mark is not raised enough. */
  predicate StaysAbove(p: Pipe, op: Op) {
    match op
    case Read(n) => |p.input| - Min(n, |p.input|) > p.high
    case SetHighWatermark(high) => high > 0 && |p.input| > high
    case _ => true
  }

  /** Exactly which steps leave the input above its mark. */
  lemma {:induction false} AboveStep(p: Pipe, op: Op)
    ensures AboveMark(Step(p, op)) <==> if AboveMark(p) then StaysAbove(p, op) else RisesAbove(p, op)
  {
    match op
    case Write(data) => TalkLimits(p.(output := p.output + data, written := p.written + data));
    case Read(n) => ReadLimits(p, Min(n, |p.input|));
    case EnableWrite => TalkLimits(p.(writeOn := true));
    case EnableRead => TalkLimits(p.(readOn := true));
    case UnsuspendWrite(why) => TalkLimits(p.(writeSuspended := p.writeSuspended - {why}));
    case UnsuspendReading(why) => UnsuspendLimits(p, why);
    case SetHighWatermark(high) => UnsuspendLimits(p.(high := high), Watermark);
    case Flush => TransferLimits(p, true);
    case DisableWrite =>
    case DisableRead =>
    case SuspendWrite(why) =>
    case SuspendRead(why) =>
  }

  /** Over every run: the input is above its mark exactly if a flush or a lowered mark did this and nothing undid it. */
  lemma {:induction false} AboveExactly(ops: seq<Op>)
    requires forall i | 0 <= i < |ops| :: Allowed(ops[i])
    ensures AboveMark(After(New, ops)) <==> exists i: nat :: Since(ops, i, RisesAbove, StaysAbove)
  {
    forall p, op | Ok(p) && Allowed(op)
      ensures AboveMark(Step(p, op)) <==> if AboveMark(p) then StaysAbove(p, op) else RisesAbove(p, op)
    {
      AboveStep(p, op);
    }
    SinceExactly(ops, AboveMark, RisesAbove, StaysAbove);
  }

  /** A run in which data gets stuck: writing is enabled while it is suspended at the source. */
  lemma {:induction false} SuspendedWriteHoldsBack()
    ensures var p := After(New, [SuspendWrite(Bandwidth), DisableWrite, Write([1]), EnableRead, EnableWrite]);
      WantsToTalk(p) && p.writeSuspended != {}
  {
    var p1 := Step(Step(New, SuspendWrite(Bandwidth)), DisableWrite);
    var p2 := Step(p1, Write([1]));
    var p3 := Step(p2, EnableRead);
    var p4 := Step(p3, EnableWrite);
    assert WantsToTalk(p4);
    var ops := [SuspendWrite(Bandwidth), DisableWrite, Write([1]), EnableRead, EnableWrite];
    assert ops[1..] == [DisableWrite, Write([1]), EnableRead, EnableWrite];
    assert ops[1..][1..] == [Write([1]), EnableRead, EnableWrite];
    assert ops[1..][1..][1..] == [EnableRead, EnableWrite];
    assert ops[1..][1..][1..][1..] == [EnableWrite];
    assert ops[1..][1..][1..][1..][1..] == [];
  }
}
