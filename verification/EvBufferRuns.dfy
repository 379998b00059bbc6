// Every run on two evbuffers behaves like a run on two plain sequences of bytes.
module EvBufferRuns {
  import opened Bytes
  import opened EvBuffers
  import opened EvBufferMoves
  import EvBufferPullup
  import opened EvBufferScatter
  import EvBufferSearch

  // What can be done to one buffer.
  datatype Op =
    | Add(data: seq<byte>)
    | Prepend(data: seq<byte>)
    | Borrow(mem: array<byte>, data: seq<byte>)  // evbuffer_add_reference, of memory that holds `data`
    | Drain(n: nat)
    | Remove(n: nat)
    | Pullup(size: int)
    | Expand(n: nat)
    | Deposit(n: nat, nVecs: nat, data: seq<byte>)  // reserve space, write `data` there, commit it
    | Read(howmuch: int, readable: int, incoming: seq<byte>)

  // One operation on plain content. Adding and prepending refuse what would not fit into a size_t.
  function Apply(s: seq<byte>, op: Op): seq<byte> {
    match op
    case Add(data) => if |data| > SIZE_MAX - |s| then s else s + data
    case Prepend(data) => if |data| > SIZE_MAX - |s| then s else data + s
    case Borrow(_, data) => s + data
    case Drain(n) => s[Min(n, |s|)..]
    case Remove(n) => s[Min(n, |s|)..]
    case Pullup(_) => s
    case Expand(_) => s
    case Deposit(_, _, data) => s + data
    case Read(howmuch, readable, incoming) => s + incoming[..ReadBytes(howmuch, readable, |incoming|)]
  }

  /** As many of `have` bytes as one read may take. */
  function ReadBytes(howmuch: int, readable: int, have: nat): (n: nat)
    ensures n <= have && MayRead(n, howmuch, readable)
    ensures forall m: nat :: m <= have && MayRead(m, howmuch, readable) ==> m <= n
  {
    Min(have, ReadSize(howmuch, readable))
  }

  /** What is added at once fits into one chain, what is deposited was reserved, and no read asks for nothing. */
  predicate Fits(op: Op) {
    match op
    case Add(data) => |data| <= CHAIN_MAX - CHAIN_HEADER
    case Prepend(data) => |data| <= CHAIN_MAX - CHAIN_HEADER
    case Borrow(mem, _) => mem.Length <= CHAIN_MAX - CHAIN_HEADER
    case Deposit(size, nVecs, data) => 0 < size <= CHAIN_MAX - CHAIN_HEADER - MAX_TO_COPY_IN_EXPAND && |data| <= size && nVecs > 1
    case Read(howmuch, _, _) => howmuch != 0
    case _ => true
  }

  /** The memory that is to be borrowed holds what is promised. */
  ghost predicate Lent(op: Op)
    reads if op.Borrow? then {op.mem} else {}
  {
    op.Borrow? ==> op.mem[..] == op.data
  }

  /** The buffer is sound, and neither end is frozen. */
  ghost predicate Open(buf: EvBuffer)
    reads *
  {
    buf.Valid() && !buf.freezeStart && !buf.freezeEnd
  }

  /** A chain gained is newly allocated, and so is its memory, unless it is the memory that was borrowed. */
  twostate predicate GainedBy(buf: EvBuffer, op: Op)
    reads buf
  {
    forall c | c in buf.chains && c !in old(buf.chains) ::
      fresh(c) && if c.immutable then op.Borrow? && c.buffer == op.mem else fresh(c.buffer)
  }

  /** The pieces make up the data. */
  lemma {:induction false} PiecesConcat(data: seq<byte>, lens: seq<nat>)
    requires |data| <= Sum(lens)
    ensures Concat(Pieces(data, lens)) == data
  {
    if lens != [] {
      var n := Min(|data|, lens[0]);
      PiecesConcat(data[n..], lens[1..]);
      assert Pieces(data, lens)[1..] == Pieces(data[n..], lens[1..]);
    }
  }

  // The vectors, each cut to the piece that has been written there.
  ghost function Cut(vecs: seq<IoVec>, pieces: seq<seq<byte>>): seq<IoVec>
    requires |pieces| == |vecs|
  {
    seq(|vecs|, i requires 0 <= i < |vecs| => vecs[i].(len := |pieces[i]|))
  }

  lemma {:induction false} CutStep(vecs: seq<IoVec>, pieces: seq<seq<byte>>, i: nat)
    requires i < |vecs| == |pieces|
    ensures Cut(vecs, pieces)[..i + 1] == Cut(vecs, pieces)[..i] + [vecs[i].(len := |pieces[i]|)]
  {
  }

  // How the caller of evbuffer_commit_space cuts the vectors, having written `n` bytes.
  method CutVecs(vecs: seq<IoVec>, data: seq<byte>) returns (used: seq<IoVec>)
    ensures used == Cut(vecs, Pieces(data, Lens(vecs)))
  {
    used := [];
    ghost var pieces := Pieces(data, Lens(vecs));
    var rest := data;
    assert pieces[0..] == pieces && Lens(vecs)[0..] == Lens(vecs);
    for i := 0 to |vecs|
      invariant used == Cut(vecs, pieces)[..i]
      invariant pieces[i..] == Pieces(rest, Lens(vecs)[i..])
    {
      PiecesStep(pieces, Lens(vecs), i, rest);
      CutStep(vecs, pieces, i);
      var n := if |rest| <= vecs[i].len then |rest| else vecs[i].len;
      used, rest := used + [vecs[i].(len := n)], rest[n..];
    }
  }

  /** The vectors that are handed back cover what has been written. */
  lemma {:induction false} WrittenPieces(buf: EvBuffer, vecs: seq<IoVec>, pieces: seq<seq<byte>>)
    requires buf.Valid() && MatchesSpace(buf, vecs) && |pieces| == |vecs| && FirstWithSpace(buf) <= |buf.chains|
    requires AllPending(buf.chains[FirstWithSpace(buf)..], pieces) && forall i | 0 <= i < |vecs| :: |pieces[i]| <= vecs[i].len
    ensures Commits(buf, Cut(vecs, pieces)) && Written(Cut(vecs, pieces)) == pieces
  {
    ReservedCommits(buf, vecs, Cut(vecs, pieces));
    var first := FirstWithSpace(buf);
    forall i | 0 <= i < |vecs|
      ensures Written(Cut(vecs, pieces))[i] == pieces[i]
    {
      var c := buf.chains[first + i];
      assert buf.chains[first..][i] == c && InSpaceOf(vecs[i], c) && Pending(c, pieces[i]);
      assert c.Holds(buf.datas[first + i]);
      WrittenPiece(vecs[i], c, pieces[i]);
    }
  }

  lemma {:induction false} WrittenPiece(v: IoVec, c: Chain, piece: seq<byte>)
    requires InSpaceOf(v, c) && Pending(c, piece) && c.misalign + c.off + |piece| <= v.mem.Length
    ensures v.mem[v.base..v.base + |piece|] == piece
  {
    forall k | 0 <= k < |piece|
      ensures v.mem[v.base + k] == piece[k]
    {
    }
  }

  lemma {:induction false} WrittenCommits(buf: EvBuffer, vecs: seq<IoVec>, data: seq<byte>)
    requires buf.Valid() && buf.chains != [] && MatchesSpace(buf, vecs) && |data| <= Sum(Lens(vecs))
    requires AllPending(buf.chains[FirstWithSpace(buf)..], Pieces(data, Lens(vecs)))
    ensures var used := Cut(vecs, Pieces(data, Lens(vecs))); Commits(buf, used) && Concat(Written(used)) == data
  {
    PiecesConcat(data, Lens(vecs));
    WrittenPieces(buf, vecs, Pieces(data, Lens(vecs)));
  }

  // Writes `data` into reserved vectors.
  method WriteVecs(buf: EvBuffer, vecs: seq<IoVec>, data: seq<byte>) returns (used: seq<IoVec>)
    requires buf.Valid() && buf.chains != [] && MatchesSpace(buf, vecs) && |data| <= Sum(Lens(vecs))
    modifies buf.Memory()
    ensures buf.Valid() && Commits(buf, used) && Concat(Written(used)) == data
  {
    Readv(buf, vecs, data);
    used := CutVecs(vecs, data);
    WrittenCommits(buf, vecs, data);
  }

  // Writes `data` into reserved vectors and commits it.
  method WriteAndCommit(buf: EvBuffer, vecs: seq<IoVec>, data: seq<byte>)
    requires Open(buf) && buf.chains != [] && MatchesSpace(buf, vecs) && |data| <= Sum(Lens(vecs))
    modifies buf, buf.chains`off, buf.Memory()
    ensures Open(buf) && buf.chains == old(buf.chains) && buf.Contents() == old(buf.Contents()) + data
  {
    var used := WriteVecs(buf, vecs, data);
    var r := CommitSpace(buf, used);
  }

  method Perform(buf: EvBuffer, op: Op)
    requires Open(buf) && Fits(op) && Lent(op) && (op.Borrow? ==> op.mem !in buf.Memory())
    modifies buf, buf.chains, buf.Memory()
    ensures Open(buf) && GainedBy(buf, op) && buf.Contents() == Apply(old(buf.Contents()), op)
  {
    match op
    case Add(data) =>
      var _ := buf.Add(data);
    case Prepend(data) =>
      if data != [] {
        var _ := buf.Prepend(data);
      }
    case Borrow(mem, _) =>
      var _ := buf.AddReference(mem);
    case Drain(n) =>
      var _ := buf.Drain(n);
    case Remove(n) =>
      var _, _ := EvBufferSearch.Remove(buf, n);
    case Pullup(size) =>
      var _ := EvBufferPullup.Pullup(buf, size);
    case Expand(n) =>
      var _, _ := ExpandSinglechain(buf, n);
    case Deposit(size, nVecs, data) =>
      PerformDeposit(buf, size, nVecs, data);
    case Read(howmuch, readable, incoming) =>
      var _ := EvBufferScatter.Read(buf, howmuch, readable, incoming, false);
  }

  method PerformDeposit(buf: EvBuffer, size: nat, nVecs: nat, data: seq<byte>)
    requires Open(buf) && 0 < size <= CHAIN_MAX - CHAIN_HEADER - MAX_TO_COPY_IN_EXPAND && |data| <= size && nVecs > 1
    modifies buf, buf.chains, buf.Memory()
    ensures Open(buf) && buf.GainsFresh() && buf.Contents() == old(buf.Contents()) + data
  {
    var n, vecs;
    ghost var k;
    n, vecs, k := ReserveSpace(buf, size, nVecs);
    WriteAndCommit(buf, vecs, data);
  }

  // ----- two buffers -----

  // What can be done to two buffers: an operation on one of them, or a move from the other one into it.
  datatype PairOp =
    | On(op: Op)
    | AddBufferOp
    | PrependBufferOp
    | RemoveBufferOp(n: nat)

  /** What the operation makes of the contents of the buffer it is called on and of the other one. */
  function ApplyPair(s: seq<byte>, t: seq<byte>, op: PairOp): (seq<byte>, seq<byte>) {
    match op
    case On(op) => (Apply(s, op), t)
    case AddBufferOp => (s + t, [])
    case PrependBufferOp => (t + s, [])
    case RemoveBufferOp(n) =>
      var k := Min(n, |t|);
      (s + t[..k], t[k..])
  }

  predicate PairFits(op: PairOp) { op.On? ==> Fits(op.op) }

  /** Neither buffer may write the memory that is to be borrowed. */
  ghost predicate NotOwned(a: EvBuffer, b: EvBuffer, op: PairOp)
    reads a, b
  {
    op.On? && op.op.Borrow? ==> op.op.mem !in a.Memory() + b.Memory()
  }

  ghost predicate PairLent(op: PairOp)
    reads if op.On? && op.op.Borrow? then {op.op.mem} else {}
  {
    op.On? ==> Lent(op.op)
  }

  /** Two sound buffers that share neither chains nor memory that one of them may write. */
  ghost predicate Both(a: EvBuffer, b: EvBuffer)
    reads *
  {
    Open(a) && Open(b) && Separate(a, b)
  }

  /** All chains are old ones of either buffer or new, and what may be written is old or new. */
  twostate predicate Owns(a: EvBuffer, b: EvBuffer)
    reads a, b
  {
    forall c | c in a.chains + b.chains ::
      c in old(a.chains) || c in old(b.chains) || (fresh(c) && (c.immutable || fresh(c.buffer)))
  }

  // An operation on one buffer leaves a separate one alone.
  method PerformAway(a: EvBuffer, b: EvBuffer, op: Op)
    requires Both(a, b) && Fits(op) && Lent(op) && NotOwned(a, b, On(op))
    modifies a, a.chains, a.Memory()
    ensures Open(a) && GainedBy(a, op) && a.Contents() == Apply(old(a.Contents()), op)
    ensures Open(b) && b.chains == old(b.chains) && b.Contents() == old(b.Contents())
  {
    assert forall i | 0 <= i < |b.chains| :: b.chains[i] !in a.chains && b.chains[i].buffer !in a.Memory();
    Perform(a, op);
  }

  // It leaves the two separate.
  method PerformBeside(a: EvBuffer, b: EvBuffer, op: Op)
    requires Both(a, b) && Fits(op) && Lent(op) && NotOwned(a, b, On(op))
    modifies a, a.chains, a.Memory()
    ensures Both(a, b) && Owns(a, b) && a.Contents() == Apply(old(a.Contents()), op)
    ensures b.Contents() == old(b.Contents())
  {
    assert forall j | 0 <= j < |b.chains| && !b.chains[j].immutable :: b.chains[j].buffer in b.Memory();
    PerformAway(a, b, op);
    StillApart(old(a.chains), a.chains, b.chains);
  }

  method TakeAllBehind(a: EvBuffer, b: EvBuffer)
    requires Both(a, b)
    modifies a, b, a.chains`next
    ensures Both(a, b) && Owns(a, b) && a.Contents() == old(a.Contents()) + old(b.Contents()) && b.Contents() == []
  {
    assert b.totalLen == 0 ==> b.Contents() == [];
    var r := AddBuffer(a, b);
  }

  method TakeAllBefore(a: EvBuffer, b: EvBuffer)
    requires Both(a, b)
    modifies a, b, b.chains`next
    ensures Both(a, b) && Owns(a, b) && a.Contents() == old(b.Contents()) + old(a.Contents()) && b.Contents() == []
  {
    assert b.totalLen == 0 ==> b.Contents() == [];
    var r := PrependBuffer(a, b);
  }

  method TakeSome(a: EvBuffer, b: EvBuffer, n: nat)
    requires Both(a, b) && |a.Contents()| + |b.Contents()| <= SIZE_MAX
    modifies Frame(a), Frame(b)
    ensures Both(a, b) && Owns(a, b)
    ensures var k := Min(n, |old(b.Contents())|);
      a.Contents() == old(a.Contents()) + old(b.Contents())[..k] && b.Contents() == old(b.Contents())[k..]
  {
    ghost var s, t := a.Contents(), b.Contents();
    assert Arriving(b, a, Min(n, b.totalLen)) == Min(n, |t|);
    assert t[..0] == [] && t[0..] == t && s + [] == s;
    var r := RemoveBuffer(b, a, n);
  }

  method PerformPair(a: EvBuffer, b: EvBuffer, op: PairOp)
    requires Both(a, b) && PairFits(op) && PairLent(op) && NotOwned(a, b, op)
    requires op.RemoveBufferOp? ==> |a.Contents()| + |b.Contents()| <= SIZE_MAX
    modifies Frame(a), Frame(b)
    ensures Both(a, b) && Owns(a, b)
    ensures (a.Contents(), b.Contents()) == ApplyPair(old(a.Contents()), old(b.Contents()), op)
  {
    match op
    case On(op) => PerformBeside(a, b, op);
    case AddBufferOp => TakeAllBehind(a, b);
    case PrependBufferOp => TakeAllBefore(a, b);
    case RemoveBufferOp(n) => TakeSome(a, b, n);
  }

  // One step of a run: an operation on the first buffer, or with the two changed about.
  datatype Step = Step(op: PairOp, second: bool)

  function ApplyStep(s: seq<byte>, t: seq<byte>, step: Step): (seq<byte>, seq<byte>) {
    if step.second then var (t', s') := ApplyPair(t, s, step.op); (s', t') else ApplyPair(s, t, step.op)
  }

  function ApplyAll(s: seq<byte>, t: seq<byte>, steps: seq<Step>): (seq<byte>, seq<byte>)
    decreases |steps|
  {
    if steps == [] then (s, t) else var (s', t') := ApplyStep(s, t, steps[0]); ApplyAll(s', t', steps[1..])
  }

  /** Whenever evbuffer_remove_buffer is called, the two contents together fit into a size_t. */
  predicate SizesFit(s: seq<byte>, t: seq<byte>, steps: seq<Step>)
    decreases |steps|
  {
    steps == [] || (
      && (steps[0].op.RemoveBufferOp? ==> |s| + |t| <= SIZE_MAX)
      && var (s', t') := ApplyStep(s, t, steps[0]); SizesFit(s', t', steps[1..]))
  }

  method PerformStep(a: EvBuffer, b: EvBuffer, step: Step)
    requires Both(a, b) && PairFits(step.op) && PairLent(step.op) && NotOwned(a, b, step.op)
    requires step.op.RemoveBufferOp? ==> |a.Contents()| + |b.Contents()| <= SIZE_MAX
    modifies Frame(a), Frame(b)
    ensures Both(a, b) && Owns(a, b)
    ensures (a.Contents(), b.Contents()) == ApplyStep(old(a.Contents()), old(b.Contents()), step)
  {
    if step.second {
      ApartBack(a.chains, b.chains);
      PerformPair(b, a, step.op);
      ApartBack(b.chains, a.chains);
    } else {
      PerformPair(a, b, step.op);
    }
  }

  lemma {:induction false} FrameWithin(buf: EvBuffer, frame: set<object>)
    requires Within(buf, frame)
    ensures Frame(buf) <= frame
  {
    forall o | o in Frame(buf)
      ensures o in frame
    {
      if o in buf.chains {
        var i :| 0 <= i < |buf.chains| && buf.chains[i] == o;
      } else if o in buf.Memory() {
        var c: Chain :| c in buf.chains && !c.immutable && c.buffer as object == o;
        var i :| 0 <= i < |buf.chains| && buf.chains[i] == c;
      }
    }
  }

  // The chains of the buffer and the memory it may write.
  ghost function Owned(buf: EvBuffer): set<object>
    reads buf
  {
    (set c: Chain | c in buf.chains :: c as object) + buf.Memory()
  }

  lemma {:induction false} OwnedWithin(buf: EvBuffer, frame: set<object>)
    requires buf in frame && Owned(buf) <= frame
    ensures Within(buf, frame)
  {
    forall i | 0 <= i < |buf.chains|
      ensures buf.chains[i] in frame && (!buf.chains[i].immutable ==> buf.chains[i].buffer in frame)
    {
      assert buf.chains[i] in buf.chains && buf.chains[i] in Owned(buf);
      assert !buf.chains[i].immutable ==> buf.chains[i].buffer in buf.Memory();
    }
  }

  lemma {:induction false} OneWithin(cs: seq<Chain>, frame: set<object>, c: Chain)
    requires forall i | 0 <= i < |cs| :: cs[i] in frame && (!cs[i].immutable ==> cs[i].buffer in frame)
    ensures c in cs ==> c in frame && (c.immutable || c.buffer in frame)
  {
    if c in cs {
      var i :| 0 <= i < |cs| && cs[i] == c;
    }
  }

  // A step within a frame: what does not come from the frame is new.
  method PerformFramed(a: EvBuffer, b: EvBuffer, step: Step, ghost frame: set<object>)
    requires Both(a, b) && Within(a, frame) && Within(b, frame) && Allowed(step, frame)
    requires step.op.RemoveBufferOp? ==> |a.Contents()| + |b.Contents()| <= SIZE_MAX
    modifies frame
    ensures Both(a, b) && forall o | o in Owned(a) + Owned(b) :: o in frame || fresh(o)
    ensures (a.Contents(), b.Contents()) == ApplyStep(old(a.Contents()), old(b.Contents()), step)
  {
    FrameWithin(a, frame);
    FrameWithin(b, frame);
    PerformStep(a, b, step);
    forall c: Chain | c in a.chains + b.chains
      ensures c in frame || fresh(c)
      ensures c.immutable || c.buffer in frame || fresh(c.buffer)
    {
      OneWithin(old(a.chains), frame, c);
      OneWithin(old(b.chains), frame, c);
    }
  }

  // What the step gains is added to the frame.
  method PerformWithin(a: EvBuffer, b: EvBuffer, step: Step, ghost frame: set<object>) returns (ghost gained: set<object>)
    requires Both(a, b) && Within(a, frame) && Within(b, frame) && Allowed(step, frame)
    requires step.op.RemoveBufferOp? ==> |a.Contents()| + |b.Contents()| <= SIZE_MAX
    modifies frame
    ensures Both(a, b) && fresh(gained) && Within(a, frame + gained) && Within(b, frame + gained)
    ensures (a.Contents(), b.Contents()) == ApplyStep(old(a.Contents()), old(b.Contents()), step)
  {
    PerformFramed(a, b, step, frame);
    gained := Owned(a) + Owned(b) - frame;
    OwnedWithin(a, frame + gained);
    OwnedWithin(b, frame + gained);
  }

  /** The step is one that callers may take; what it borrows holds what is promised and lies outside the frame. */
  ghost predicate Allowed(step: Step, frame: set<object>)
    reads if step.op.On? && step.op.op.Borrow? then {step.op.op.mem} else {}
  {
    && PairFits(step.op) && PairLent(step.op)
    && (step.op.On? && step.op.op.Borrow? ==> step.op.op.mem !in frame)
  }

  ghost predicate AllAllowed(steps: seq<Step>, frame: set<object>)
    reads *
  {
    forall i {:trigger steps[i]} | 0 <= i < |steps| :: Allowed(steps[i], frame)
  }

  /**
   * A run of any operations on two buffers keeps both invariants, leaves what the same run leaves of two plain
   * sequences, and never writes borrowed memory.
   */
  method Run(a: EvBuffer, b: EvBuffer, steps: seq<Step>, ghost frame: set<object>)
    requires Both(a, b) && Within(a, frame) && Within(b, frame) && AllAllowed(steps, frame)
    requires SizesFit(a.Contents(), b.Contents(), steps)
    modifies frame
    ensures Both(a, b) && AllAllowed(steps, frame)
    ensures (a.Contents(), b.Contents()) == ApplyAll(old(a.Contents()), old(b.Contents()), steps)
  {
    ghost var f := frame;
    for i := 0 to |steps|
      invariant Both(a, b) && Within(a, f) && Within(b, f) && frame <= f && fresh(f - frame) && AllAllowed(steps, f)
      invariant SizesFit(a.Contents(), b.Contents(), steps[i..])
      invariant ApplyAll(a.Contents(), b.Contents(), steps[i..]) == ApplyAll(old(a.Contents()), old(b.Contents()), steps)
    {
      assert steps[i..][0] == steps[i] && steps[i..][1..] == steps[i + 1..];
      ghost var gained := PerformWithin(a, b, steps[i], f);
      f := f + gained;
    }
  }
}
