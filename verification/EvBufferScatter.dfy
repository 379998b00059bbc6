// Reading into free space that is spread over several chains.
module EvBufferScatter {
  import opened Bytes
  import opened EvBuffers
  import opened EvBufferMoves

  ghost function Sum(ns: seq<nat>): nat {
    if ns == [] then 0 else ns[0] + Sum(ns[1..])
  }

  lemma {:induction false} SumSnoc(ns: seq<nat>, n: nat)
    ensures Sum(ns + [n]) == Sum(ns) + n
  {
    if ns == [] {
      assert ns + [n] == [n];
    } else {
      assert (ns + [n])[1..] == ns[1..] + [n];
      SumSnoc(ns[1..], n);
    }
  }

  /** `room` lists the free space of the chains from the first one that has any. */
  ghost predicate RoomAt(buf: EvBuffer, first: nat, room: seq<nat>)
    reads *
  {
    && first + |room| <= |buf.chains|
    && (if first == buf.lwd then room != [] ==> room[0] > 0
        else first == buf.lwd + 1 && buf.lwd < |buf.chains| && buf.chains[buf.lwd].SpaceLen() == 0)
    && forall i {:trigger room[i]} | 0 <= i < |room| :: buf.chains[first + i].SpaceLen() == room[i]
  }

  /** A chain that could be written but has no space left, even if it is realigned where that is allowed. */
  predicate Full(c: Chain)
    reads c
  {
    !c.immutable && if c.off > 0 then c.SpaceLen() == 0 else c.buffer.Length == 0
  }

  /** The data ends in the last chain, and this chain is full. */
  ghost predicate LastFull(buf: EvBuffer)
    reads *
  {
    buf.chains != [] && buf.lwd == |buf.chains| - 1 && Full(buf.chains[buf.lwd])
  }

  // Measures the space at the end of the i-th chain, realigning it if it is empty.
  method Measure(buf: EvBuffer, chain: Chain, ghost i: nat, ghost first: nat, ghost room: seq<nat>)
    returns (space: nat, counted: bool)
    requires buf.Valid() && buf.lwd <= i < |buf.chains| && chain == buf.chains[i]
    requires RoomAt(buf, first, room) && first + |room| <= i
    modifies chain`misalign
    ensures buf.Valid() && RoomAt(buf, first, room)
    ensures space == chain.SpaceLen() && (space > 0 ==> counted)
    ensures !counted ==> i == buf.lwd
    ensures space == 0 <==> old(Full(chain)) || chain.immutable
  {
    assert chain.Holds(buf.datas[i]);
    if chain.off > 0 {
      space := chain.SpaceLen();
      counted := space > 0;
    } else {
      chain.misalign := 0;
      space, counted := chain.buffer.Length, true;
    }
  }

  // One step of the loop of evbuffer_expand_fast_.
  method Probe(buf: EvBuffer, chain: Chain, ghost i: nat, ghost first0: nat, ghost room0: seq<nat>)
    returns (space: nat, counted: bool, ghost first: nat, ghost room: seq<nat>)
    requires buf.Valid() && buf.lwd <= i < |buf.chains| && chain == buf.chains[i]
    requires RoomAt(buf, first0, room0) && first0 + |room0| == i
    modifies chain`misalign
    ensures buf.Valid() && RoomAt(buf, first, room) && first + |room| == i + 1
    ensures Sum(room) == Sum(room0) + space && |room| <= |room0| + (if counted then 1 else 0)
    ensures room == [] ==> i == buf.lwd && space == 0
    ensures i == buf.lwd ==> (space == 0 <==> old(Full(chain)) || chain.immutable)
  {
    space, counted := Measure(buf, chain, i, first0, room0);
    SumSnoc(room0, space);
    if i == buf.lwd && space == 0 {
      first, room := i + 1, room0;
    } else {
      first, room := first0, room0 + [space];
    }
  }

  // The loop of evbuffer_expand_fast_.
  method CountSpace(buf: EvBuffer, datlen: nat, n: nat)
    returns (enough: bool, used: nat, avail: nat, ghost first: nat, ghost room: seq<nat>)
    requires buf.Valid() && buf.chains != [] && n >= 2
    modifies buf.chains`misalign
    ensures buf.Valid()
    ensures RoomAt(buf, first, room) && Sum(room) == avail && |room| <= used <= n && first + |room| > buf.lwd
    ensures enough ==> avail >= datlen && (room == [] <==> datlen == 0 && (old(Full(buf.chains[buf.lwd])) || buf.chains[buf.lwd].immutable))
    ensures !enough ==> avail < datlen && (used < n ==> first + |room| == |buf.chains|)
  {
    var chain := buf.LastWithData();
    enough, used, avail := false, 0, 0;
    ghost var i := buf.lwd;
    first, room := buf.lwd, [];
    while chain != null
      invariant buf.Valid() && RoomAt(buf, first, room)
      invariant buf.lwd <= i <= |buf.chains| && chain == if i < |buf.chains| then buf.chains[i] else null
      invariant first + |room| == i && Sum(room) == avail && |room| <= used < n
      invariant i > buf.lwd ==> avail < datlen
      invariant i == buf.lwd ==> Full(chain) == old(Full(buf.chains[buf.lwd]))
      decreases |buf.chains| - i
    {
      var space, counted;
      space, counted, first, room := Probe(buf, chain, i, first, room);
      assert avail + space == 0 ==> space == 0;
      avail, used, i := avail + space, if counted then used + 1 else used, i + 1;
      if avail >= datlen {
        enough := true;
        return;
      }
      if used == n { return; }
      chain := chain.next;
    }
  }

  /** The room when at most one chain follows the last one with data. */
  lemma {:induction false} RoomOfTail(buf: EvBuffer, tmp: Chain) returns (first: nat, room: seq<nat>)
    requires buf.Valid() && buf.chains != [] && tmp == buf.chains[|buf.chains| - 1] && tmp.Holds([]) && tmp.SpaceLen() > 0
    requires |buf.chains| == 1 || |buf.chains| == buf.lwd + 2
    ensures RoomAt(buf, first, room) && 0 < |room| <= 2
    ensures Sum(room) == tmp.SpaceLen() + if |buf.chains| == 1 then 0 else buf.chains[buf.lwd].SpaceLen()
  {
    SumSnoc([], tmp.SpaceLen());
    assert [] + [tmp.SpaceLen() as nat] == [tmp.SpaceLen()];
    if |buf.chains| == 1 {
      return 0, [tmp.SpaceLen()];
    }
    assert buf.chains[buf.lwd].Holds(buf.datas[buf.lwd]);
    var space := buf.chains[buf.lwd].SpaceLen();
    if space == 0 {
      return buf.lwd + 1, [tmp.SpaceLen()];
    }
    SumSnoc([], space);
    SumSnoc([space], tmp.SpaceLen());
    assert [] + [space as nat] == [space];
    return buf.lwd, [space, tmp.SpaceLen()];
  }

  // Adds an empty chain at the end, keeping the empty ones before it.
  method AppendEmpty(buf: EvBuffer, tmp: Chain)
    requires buf.Valid() && buf.chains != [] && buf.Linkable(tmp) && tmp.Holds([]) && tmp.next == null
    modifies buf, buf.chains`next
    ensures buf.Valid() && buf.SameFlags() && buf.Contents() == old(buf.Contents())
    ensures buf.chains == old(buf.chains) + [tmp] && buf.lwd == old(buf.lwd)
  {
    ConcatSnoc(buf.datas, []);
    var last := buf.last;
    LinkBehind(last, tmp, buf.chains, buf.datas);
    InstallList(buf, buf.first, tmp, buf.lastWithDatap, buf.totalLen, buf.chains + [tmp], buf.datas + [[]], buf.lwd);
  }

  // Adds a chain with space behind the ones that are counted already.
  method AppendSpace(buf: EvBuffer, tmp: Chain, ghost first: nat, ghost room: seq<nat>)
    requires buf.Valid() && buf.chains != [] && buf.Linkable(tmp) && tmp.Holds([]) && tmp.next == null
    requires RoomAt(buf, first, room) && first + |room| == |buf.chains| && tmp.SpaceLen() > 0
    modifies buf, buf.chains`next
    ensures buf.Valid() && buf.SameFlags() && buf.Contents() == old(buf.Contents())
    ensures buf.chains == old(buf.chains) + [tmp]
    ensures RoomAt(buf, first, room + [tmp.SpaceLen()])
  {
    AppendEmpty(buf, tmp);
  }

  // Links an empty chain behind a list.
  method LinkBehind(last: Chain, tmp: Chain, ghost cs: seq<Chain>, ghost ds: seq<seq<byte>>)
    requires cs != [] && Segment(cs, ds) && last == cs[|cs| - 1] && tmp.Holds([]) && tmp.next == null
    requires tmp !in cs && forall d | d in cs :: d.buffer != tmp.buffer || (d.immutable && tmp.immutable)
    modifies last`next
    ensures Segment(cs + [tmp], ds + [[]])
  {
    DistinctSnoc(cs, tmp);
    last.next := tmp;
  }

  lemma {:induction false} DistinctSnoc(cs: seq<Chain>, c: Chain)
    requires Distinct(cs) && c !in cs && forall d | d in cs :: d.buffer != c.buffer || (d.immutable && c.immutable)
    ensures Distinct(cs + [c])
  {
    assert forall i | 0 <= i < |cs| :: cs[i] in cs;
  }

  // Replaces all trailing empty chains by one that is large enough.
  method ReplaceEmpties(buf: EvBuffer, datlen: nat) returns (r: int, ghost first: nat, ghost room: seq<nat>)
    requires buf.Valid() && buf.chains != []
    requires buf.datas[buf.lwd] != [] ==> buf.chains[buf.lwd].SpaceLen() <= datlen
    modifies buf, buf.chains`next
    ensures buf.Valid() && buf.SameFlags() && buf.GainsFresh() && buf.Contents() == old(buf.Contents())
    ensures r == 0 || (r == -1 && datlen > CHAIN_MAX - CHAIN_HEADER)
    ensures r == 0 ==> RoomAt(buf, first, room) && 0 < |room| <= 2 && Sum(room) >= datlen
  {
    var avail, chp := DropEmpties(buf);
    r, first, room := AttachNew(buf, chp, datlen - avail);
  }

  // Links a new chain behind the data, if it is not too large.
  method AttachNew(buf: EvBuffer, chp: Chain?, missing: nat) returns (r: int, ghost first: nat, ghost room: seq<nat>)
    requires buf.Core() && Kept(buf.datas, buf.lwd) == |buf.chains|
    requires chp == if buf.chains == [] then null else buf.chains[|buf.chains| - 1]
    modifies buf, buf.chains`next
    ensures buf.Valid() && buf.SameFlags() && buf.GainsFresh() && buf.Contents() == old(buf.Contents())
    ensures r == if missing > CHAIN_MAX - CHAIN_HEADER then -1 else 0
    ensures r == 0 ==> RoomAt(buf, first, room) && 0 < |room| <= 2
    ensures r == 0 ==> Sum(room) >= missing + old(if buf.chains == [] then 0 else buf.chains[buf.lwd].SpaceLen())
  {
    first, room := 0, [];
    var tmp := ChainNew(missing);
    if tmp == null {
      buf.Header(buf.first, chp, buf.lastWithDatap, buf.totalLen, buf.chains, buf.datas, buf.lwd);
      r := -1;
    } else {
      first, room := AttachSpace(buf, chp, tmp);
      r := 0;
    }
  }

  // Frees the trailing empty chains; `avail` is the space behind the last bytes, if there are bytes.
  method DropEmpties(buf: EvBuffer) returns (avail: nat, chp: Chain?)
    requires buf.Valid() && buf.chains != []
    modifies buf, buf.chains`next
    ensures buf.Core() && buf.SameFlags() && buf.Contents() == old(buf.Contents())
    ensures buf.chains <= old(buf.chains) && Kept(buf.datas, buf.lwd) == |buf.chains|
    ensures chp == if buf.chains == [] then null else buf.chains[|buf.chains| - 1]
    ensures avail == if buf.chains == [] then 0 else buf.chains[buf.lwd].SpaceLen()
    ensures avail <= old(buf.chains[buf.lwd].SpaceLen()) && (avail > 0 ==> old(buf.datas[buf.lwd]) != [])
  {
    var lastWithData := buf.LastWithData();
    assert lastWithData.Holds(buf.datas[buf.lwd]);
    avail := if lastWithData.off > 0 then lastWithData.SpaceLen() else 0;
    chp := buf.FreeTrailingEmptyChains();
  }

  // Adds an empty chain when none is left behind the data.
  method AttachSpace(buf: EvBuffer, chp: Chain?, tmp: Chain) returns (ghost first: nat, ghost room: seq<nat>)
    requires buf.Core() && buf.Linkable(tmp) && tmp.Holds([]) && tmp.next == null && tmp.SpaceLen() > 0
    requires Kept(buf.datas, buf.lwd) == |buf.chains| && chp == if buf.chains == [] then null else buf.chains[|buf.chains| - 1]
    modifies buf, buf.chains`next
    ensures buf.Valid() && buf.SameFlags() && buf.chains == old(buf.chains) + [tmp] && buf.Contents() == old(buf.Contents())
    ensures buf.lwd == old(buf.lwd) && RoomAt(buf, first, room) && 0 < |room| <= 2
    ensures Sum(room) == tmp.SpaceLen() + if |buf.chains| == 1 then 0 else buf.chains[buf.lwd].SpaceLen()
  {
    ConcatSnoc(buf.datas, []);
    buf.Attach(chp, tmp, []);
    first, room := RoomOfTail(buf, tmp);
  }

  // The first branch of evbuffer_expand_fast_: no last chain, or one that cannot be written.
  method InsertSpace(buf: EvBuffer, datlen: nat) returns (r: int, ghost first: nat, ghost room: seq<nat>)
    requires buf.Valid()
    modifies buf, buf.chains`next
    ensures buf.Valid() && buf.SameFlags() && buf.GainsFresh() && buf.Contents() == old(buf.Contents())
    ensures r == 0 || (r == -1 && datlen > CHAIN_MAX - CHAIN_HEADER)
    ensures r == 0 ==> RoomAt(buf, first, room) && 0 < |room| <= 2 && Sum(room) >= datlen
  {
    var tmp := ChainNew(datlen);
    if tmp == null { return -1, 0, []; }
    buf.ChainInsert(tmp, []);
    assert buf.chains[buf.lwd].Holds(buf.datas[buf.lwd]);
    first, room := RoomOfTail(buf, tmp);
    r := 0;
  }

  // The chains at the end are not enough, but one more may be used.
  method AddSpace(buf: EvBuffer, missing: nat, ghost first: nat, ghost room0: seq<nat>) returns (r: int, ghost room: seq<nat>)
    requires buf.Valid() && buf.chains != []
    requires RoomAt(buf, first, room0) && first + |room0| == |buf.chains|
    modifies buf, buf.chains`next
    ensures buf.Valid() && buf.SameFlags() && buf.GainsFresh() && buf.Contents() == old(buf.Contents())
    ensures r == 0 || (r == -1 && missing > CHAIN_MAX - CHAIN_HEADER)
    ensures r == 0 ==> RoomAt(buf, first, room) && |room| == |room0| + 1 && Sum(room) >= Sum(room0) + missing
  {
    var tmp := ChainNew(missing);
    if tmp == null { return -1, room0; }
    AppendSpace(buf, tmp, first, room0);
    SumSnoc(room0, tmp.SpaceLen());
    return 0, room0 + [tmp.SpaceLen()];
  }

  /** Afterwards at most `n` chains, from the first one with space, offer `datlen` bytes. */
  method ExpandFast(buf: EvBuffer, datlen: nat, n: nat) returns (r: int, ghost first: nat, ghost room: seq<nat>)
    requires buf.Valid() && n >= 2
    modifies buf, buf.chains`next, buf.chains`misalign
    ensures buf.Valid() && buf.SameFlags() && buf.GainsFresh() && buf.Contents() == old(buf.Contents())
    ensures r == 0 || (r == -1 && datlen > CHAIN_MAX - CHAIN_HEADER)
    ensures r == 0 ==> RoomAt(buf, first, room) && |room| <= n && Sum(room) >= datlen && buf.chains != []
    ensures r == 0 ==> (FirstWithSpace(buf) < |buf.chains| <==> datlen > 0 || !old(LastFull(buf)))
  {
    if buf.last == null || buf.last.immutable {
      r, first, room := InsertSpace(buf, datlen);
      return;
    }
    var enough, used, avail;
    enough, used, avail, first, room := CountSpace(buf, datlen, n);
    RoomFirst(buf, first, room);
    if enough { return 0, first, room; }
    r, first, room := ExpandMore(buf, datlen, n, used, avail, first, room);
  }

  // The end of evbuffer_expand_fast_: the chains there are do not have enough space.
  method ExpandMore(buf: EvBuffer, datlen: nat, n: nat, used: nat, avail: nat, ghost first0: nat, ghost room0: seq<nat>)
    returns (r: int, ghost first: nat, ghost room: seq<nat>)
    requires buf.Valid() && buf.chains != [] && n >= 2
    requires RoomAt(buf, first0, room0) && Sum(room0) == avail < datlen && |room0| <= used <= n && first0 + |room0| > buf.lwd
    requires used < n ==> first0 + |room0| == |buf.chains|
    modifies buf, buf.chains`next
    ensures buf.Valid() && buf.SameFlags() && buf.GainsFresh() && buf.Contents() == old(buf.Contents())
    ensures r == 0 || (r == -1 && datlen > CHAIN_MAX - CHAIN_HEADER)
    ensures r == 0 ==> RoomAt(buf, first, room) && 0 < |room| <= n && Sum(room) >= datlen
  {
    if used < n {
      first := first0;
      r, room := AddSpace(buf, datlen - avail, first, room0);
    } else {
      TailFits(buf, first0, room0, datlen);
      r, first, room := ReplaceEmpties(buf, datlen);
    }
  }

  /** The room starts where FirstWithSpace says. */
  lemma {:induction false} RoomFirst(buf: EvBuffer, first: nat, room: seq<nat>)
    requires buf.chains != [] && buf.lwd < |buf.chains| && RoomAt(buf, first, room)
    ensures RoomAt(buf, FirstWithSpace(buf), room)
    ensures first + |room| > buf.lwd ==> (FirstWithSpace(buf) < |buf.chains| <==> room != [] || buf.lwd + 1 < |buf.chains|)
  {
  }

  lemma {:induction false} TailFits(buf: EvBuffer, first: nat, room: seq<nat>, datlen: nat)
    requires buf.Valid() && buf.chains != [] && RoomAt(buf, first, room) && Sum(room) < datlen
    requires first + |room| > buf.lwd
    ensures buf.chains[buf.lwd].SpaceLen() <= datlen
  {
    assert buf.chains[buf.lwd].Holds(buf.datas[buf.lwd]);
    if first == buf.lwd {
      assert Sum(room) >= room[0];
    }
  }

  /** An iovec: `len` bytes of `mem` from `base` on. */
  datatype IoVec = IoVec(mem: array<byte>, base: nat, len: nat)

  /** `piece` has been written where the next bytes of `c` go, but not yet counted. */
  ghost predicate Pending(c: Chain, piece: seq<byte>)
    reads c, c.buffer
  {
    && |piece| <= c.SpaceLen()
    && forall k | 0 <= k < |piece| :: 0 <= c.misalign + c.off + k < c.buffer.Length && c.buffer[c.misalign + c.off + k] == piece[k]
  }

  /** The bytes that go to each vector when `data` is scattered over vectors of the given lengths. */
  ghost function Pieces(data: seq<byte>, lens: seq<nat>): (ps: seq<seq<byte>>)
    ensures |ps| == |lens|
    ensures forall i | 0 <= i < |ps| :: |ps[i]| <= lens[i]
  {
    if lens == [] then [] else
      var n := Min(|data|, lens[0]);
      [data[..n]] + Pieces(data[n..], lens[1..])
  }

  ghost predicate AllPending(cs: seq<Chain>, pieces: seq<seq<byte>>)
    reads *
  {
    |pieces| <= |cs| && forall i {:trigger pieces[i]} | 0 <= i < |pieces| :: Pending(cs[i], pieces[i])
  }

  lemma {:induction false} ExtendLayout(ds: seq<seq<byte>>, lwd: nat, k: nat, piece: seq<byte>)
    requires LwdAt(ds, lwd) && lwd <= k < |ds| && forall j | k < j < |ds| :: ds[j] == []
    ensures LwdAt(ds[k := ds[k] + piece], lwd)
    ensures Concat(ds[k := ds[k] + piece]) == Concat(ds) + piece
  {
    ConcatAt(ds, k);
    ConcatUpdate(ds, k, ds[k] + piece);
    ConcatEmpty(ds[k + 1..]);
  }

  // chain->off += len
  method Extend(buf: EvBuffer, c: Chain, n: nat, ghost k: nat, ghost piece: seq<byte>)
    requires buf.Body() && buf.TailCached() && buf.lwd <= k < |buf.chains| && c == buf.chains[k]
    requires TrailingEmpty(buf.datas, k)
    requires Pending(c, piece) && n == |piece|
    modifies buf, c`off
    ensures buf.Body() && buf.TailCached() && buf.SameFlags()
    ensures buf.chains == old(buf.chains) && buf.lwd == old(buf.lwd)
    ensures buf.datas == old(buf.datas)[k := old(buf.datas)[k] + piece]
    ensures buf.Contents() == old(buf.Contents()) + piece
  {
    ExtendLayout(buf.datas, buf.lwd, k, piece);
    ghost var d := buf.datas[k];
    assert c.Holds(d);
    buf.Header(buf.first, buf.last, buf.lastWithDatap, buf.totalLen + n, buf.chains, buf.datas[k := d + piece], buf.lwd);
    c.off := c.off + n;
    assert c.Holds(d + piece);
  }

  // Extend leaves what is pending behind the chain alone.
  method ExtendBefore(buf: EvBuffer, c: Chain, n: nat, ghost k: nat, ghost piece: seq<byte>,
                      ghost rest: seq<Chain>, ghost more: seq<seq<byte>>)
    requires buf.Body() && buf.TailCached() && buf.lwd <= k < |buf.chains| && c == buf.chains[k]
    requires TrailingEmpty(buf.datas, k) && rest == buf.chains[k + 1..] && AllPending(rest, more)
    requires Pending(c, piece) && n == |piece|
    modifies buf, c`off
    ensures buf.Body() && buf.TailCached() && buf.SameFlags() && AllPending(rest, more)
    ensures buf.chains == old(buf.chains) && buf.lwd == old(buf.lwd)
    ensures buf.datas == old(buf.datas)[k := old(buf.datas)[k] + piece]
    ensures buf.Contents() == old(buf.Contents()) + piece
  {
    assert forall j | 0 <= j < |rest| :: rest[j] != c;
    Extend(buf, c, n, k, piece);
    forall j {:trigger more[j]} | 0 <= j < |more|
      ensures Pending(rest[j], more[j])
    {
      assert old(Pending(rest[j], more[j]));
    }
  }

  // How far a commit loop has come: the first `i` pieces, from chain `first` on, count as content; `w` is the
  // last chain with data so far and `lw` the chain before it.
  ghost predicate Committed(buf: EvBuffer, base: seq<byte>, first: nat, pieces: seq<seq<byte>>, i: nat, lw: Chain?, w: nat)
    reads *
  {
    && buf.Body() && buf.TailCached()
    && i <= |pieces| && first + |pieces| <= |buf.chains| && buf.lwd <= first <= buf.lwd + 1
    && AllPending(buf.chains[first + i..], pieces[i..])
    && (forall j | 0 <= j < |buf.datas| && first + i <= j && buf.lwd < j :: buf.datas[j] == [])
    && buf.Contents() == base + Concat(pieces[..i])
    && LwdAt(buf.datas, w) && buf.lwd <= w
    && (forall j | w < j < first + i && j < |buf.datas| :: buf.datas[j] == [])
    && lw == (if w == 0 then null else buf.chains[w - 1])
  }

  lemma {:induction false} PendingTail(cs: seq<Chain>, pieces: seq<seq<byte>>, first: nat, i: nat)
    requires i < |pieces| && first + |pieces| <= |cs| && AllPending(cs[first + i..], pieces[i..])
    ensures Pending(cs[first + i], pieces[i]) && AllPending(cs[first + i + 1..], pieces[i + 1..])
  {
    assert pieces[i] == pieces[i..][0] && cs[first + i..][0] == cs[first + i];
    var rest, more := cs[first + i + 1..], pieces[i + 1..];
    forall j {:trigger more[j]} | 0 <= j < |more|
      ensures Pending(rest[j], more[j])
    {
      assert more[j] == pieces[i..][j + 1] && rest[j] == cs[first + i..][j + 1];
    }
  }

  // One round of a commit loop.
  method CommitOne(buf: EvBuffer, chain: Chain, holder: Chain?, n: nat, lw0: Chain?, ghost base: seq<byte>,
                   ghost first: nat, ghost pieces: seq<seq<byte>>, ghost i: nat, ghost w0: nat)
    returns (lw: Chain?, ghost w: nat)
    requires i < |pieces| && Committed(buf, base, first, pieces, i, lw0, w0)
    requires chain == buf.chains[first + i] && n == |pieces[i]|
    requires holder == if first + i == 0 then null else buf.chains[first + i - 1]
    modifies buf, chain`off
    ensures buf.SameFlags() && buf.chains == old(buf.chains)
    ensures Committed(buf, base, first, pieces, i + 1, lw, w)
    ensures n > 0 ==> lw == holder && w == first + i
  {
    PendingTail(buf.chains, pieces, first, i);
    ConcatTakeNext(pieces, i);
    ghost var rest, more := buf.chains[first + i + 1..], pieces[i + 1..];
    ExtendBefore(buf, chain, n, first + i, pieces[i], rest, more);
    assert buf.Contents() == base + Concat(pieces[..i + 1]);
    lw := if n > 0 then holder else lw0;
    w := if n > 0 then first + i else w0;
  }

  /** The first chain with space in it. */
  ghost function FirstWithSpace(buf: EvBuffer): nat
    reads *
  {
    if buf.lwd < |buf.chains| && buf.chains[buf.lwd].SpaceLen() == 0 then buf.lwd + 1 else buf.lwd
  }

  /** The vector is (a part of) the free space of `c`. */
  ghost predicate InSpaceOf(v: IoVec, c: Chain)
    reads c
  {
    v.mem == c.buffer && v.base == c.misalign + c.off && v.len <= c.SpaceLen()
  }

  ghost predicate MatchesSpace(buf: EvBuffer, vecs: seq<IoVec>)
    reads *
  {
    var first := FirstWithSpace(buf);
    && first + |vecs| <= |buf.chains|
    && forall i {:trigger vecs[i]} | 0 <= i < |vecs| :: InSpaceOf(vecs[i], buf.chains[first + i])
  }

  // What evbuffer_commit_space accepts.
  ghost predicate Commits(buf: EvBuffer, vecs: seq<IoVec>)
    reads *
  {
    || vecs == []
    || (|vecs| == 1 && buf.last != null && InSpaceOf(vecs[0], buf.last))
    || MatchesSpace(buf, vecs)
  }

  /** The bytes in memory that the vectors cover. */
  ghost function Written(vecs: seq<IoVec>): (ps: seq<seq<byte>>)
    reads set v | v in vecs :: v.mem
    ensures |ps| == |vecs|
  {
    seq(|vecs|, i reads set v | v in vecs :: v.mem requires 0 <= i < |vecs| =>
      if vecs[i].base + vecs[i].len <= vecs[i].mem.Length then vecs[i].mem[vecs[i].base..vecs[i].base + vecs[i].len] else [])
  }

  // *firstchainp, the first chain with space, and the chain whose `next` field firstchainp points to.
  method FindSpace(buf: EvBuffer) returns (holder: Chain?, chain: Chain?)
    requires buf.Valid() && buf.chains != []
    ensures var first := FirstWithSpace(buf);
      && chain == (if first < |buf.chains| then buf.chains[first] else null)
      && holder == if first == 0 then null else buf.chains[first - 1]
  {
    holder, chain := buf.lastWithDatap, buf.LastWithData();
    if chain.SpaceLen() == 0 {
      holder, chain := chain, chain.next;
    }
  }

  // Pass 1 of evbuffer_commit_space.
  method CheckVecs(buf: EvBuffer, chain0: Chain?, vecs: seq<IoVec>) returns (ok: bool)
    requires buf.Valid() && buf.chains != []
    requires chain0 == if FirstWithSpace(buf) < |buf.chains| then buf.chains[FirstWithSpace(buf)] else null
    ensures ok <==> MatchesSpace(buf, vecs)
  {
    ghost var first := FirstWithSpace(buf);
    var chain := chain0;
    for i := 0 to |vecs|
      invariant first + i <= |buf.chains|
      invariant chain == if first + i < |buf.chains| then buf.chains[first + i] else null
      invariant forall j {:trigger vecs[j]} | 0 <= j < i :: InSpaceOf(vecs[j], buf.chains[first + j])
    {
      if chain == null { return false; }
      if vecs[i].mem != chain.buffer || vecs[i].base != chain.misalign + chain.off || vecs[i].len > chain.SpaceLen() {
        return false;
      }
      chain := chain.next;
    }
    ok := true;
  }

  lemma {:induction false} MatchedPending(buf: EvBuffer, vecs: seq<IoVec>)
    requires buf.Valid() && buf.chains != [] && MatchesSpace(buf, vecs) && FirstWithSpace(buf) <= |buf.chains|
    ensures AllPending(buf.chains[FirstWithSpace(buf)..], Written(vecs))
    ensures forall i | 0 <= i < |vecs| :: |Written(vecs)[i]| == vecs[i].len
  {
    var first, ps := FirstWithSpace(buf), Written(vecs);
    forall i | 0 <= i < |ps|
      ensures Pending(buf.chains[first..][i], ps[i]) && |ps[i]| == vecs[i].len
    {
      var c := buf.chains[first + i];
      assert InSpaceOf(vecs[i], c) && c.Holds(buf.datas[first + i]);
    }
  }

  // buf->last_with_datap = lw, at the end of a commit loop.
  method FinishCommit(buf: EvBuffer, lw: Chain?, ghost base: seq<byte>, ghost first: nat, ghost pieces: seq<seq<byte>>,
                      ghost i: nat, ghost w: nat)
    requires Committed(buf, base, first, pieces, i, lw, w)
    requires forall j | w < j < |buf.datas| && first + i <= j :: buf.datas[j] == []
    modifies buf
    ensures buf.Valid() && buf.SameFlags() && buf.chains == old(buf.chains)
    ensures buf.Contents() == base + Concat(pieces[..i])
  {
    buf.Header(buf.first, buf.last, lw, buf.totalLen, buf.chains, buf.datas, w);
  }

  // Pass 2 of evbuffer_commit_space.
  method CommitLoop(buf: EvBuffer, holder0: Chain?, chain0: Chain, vecs: seq<IoVec>,
                    ghost base: seq<byte>, ghost first: nat, ghost pieces: seq<seq<byte>>)
    requires Committed(buf, base, first, pieces, 0, buf.lastWithDatap, buf.lwd)
    requires |pieces| == |vecs| > 0 && forall i | 0 <= i < |vecs| :: |pieces[i]| == vecs[i].len
    requires chain0 == buf.chains[first] && holder0 == if first == 0 then null else buf.chains[first - 1]
    modifies buf, buf.chains`off
    ensures buf.Valid() && buf.SameFlags() && buf.chains == old(buf.chains)
    ensures buf.Contents() == base + Concat(pieces)
  {
    var i, holder, chain, lw := 0, holder0, chain0, buf.lastWithDatap;
    ghost var w := buf.lwd;
    while i + 1 < |vecs|
      invariant buf.SameFlags() && buf.chains == old(buf.chains)
      invariant i < |vecs| && CommitsAt(buf, chain, holder, base, first, pieces, i, lw, w)
    {
      var next;
      next, lw, w := CommitNext(buf, chain, holder, vecs[i].len, lw, base, first, pieces, i, w);
      i, holder, chain := i + 1, chain, next;
    }
    CommitEnd(buf, chain, holder, vecs[i].len, lw, base, first, pieces, i, w);
  }

  // The last round.
  method CommitEnd(buf: EvBuffer, chain: Chain, holder: Chain?, n: nat, lw0: Chain?, ghost base: seq<byte>,
                   ghost first: nat, ghost pieces: seq<seq<byte>>, ghost i: nat, ghost w0: nat)
    requires CommitsAt(buf, chain, holder, base, first, pieces, i, lw0, w0) && i + 1 == |pieces| && n == |pieces[i]|
    modifies buf, chain`off
    ensures buf.Valid() && buf.SameFlags() && buf.chains == old(buf.chains)
    ensures buf.Contents() == base + Concat(pieces)
  {
    var lw;
    ghost var w;
    lw, w := CommitOne(buf, chain, holder, n, lw0, base, first, pieces, i, w0);
    assert pieces[..i + 1] == pieces;
    FinishCommit(buf, lw, base, first, pieces, i + 1, w);
  }

  /** A commit loop has come to `chain`, which `holder` leads to. */
  ghost predicate CommitsAt(buf: EvBuffer, chain: Chain, holder: Chain?, base: seq<byte>, first: nat, pieces: seq<seq<byte>>,
                            i: nat, lw: Chain?, w: nat)
    reads *
  {
    && Committed(buf, base, first, pieces, i, lw, w) && i < |pieces|
    && chain == buf.chains[first + i] && holder == if first + i == 0 then null else buf.chains[first + i - 1]
  }

  // One round, with another one to follow.
  method CommitNext(buf: EvBuffer, chain: Chain, holder: Chain?, n: nat, lw0: Chain?, ghost base: seq<byte>,
                    ghost first: nat, ghost pieces: seq<seq<byte>>, ghost i: nat, ghost w0: nat)
    returns (next: Chain, lw: Chain?, ghost w: nat)
    requires CommitsAt(buf, chain, holder, base, first, pieces, i, lw0, w0) && i + 1 < |pieces| && n == |pieces[i]|
    modifies buf, chain`off
    ensures buf.SameFlags() && buf.chains == old(buf.chains)
    ensures CommitsAt(buf, next, chain, base, first, pieces, i + 1, lw, w)
  {
    lw, w := CommitOne(buf, chain, holder, n, lw0, base, first, pieces, i, w0);
    next := chain.next;
  }

  method CommitVecs(buf: EvBuffer, holder: Chain?, chain: Chain, vecs: seq<IoVec>)
    requires buf.Valid() && buf.chains != [] && MatchesSpace(buf, vecs) && vecs != []
    requires chain == buf.chains[FirstWithSpace(buf)]
    requires holder == if FirstWithSpace(buf) == 0 then null else buf.chains[FirstWithSpace(buf) - 1]
    modifies buf, buf.chains`off
    ensures buf.Valid() && buf.SameFlags() && buf.chains == old(buf.chains)
    ensures buf.Contents() == old(buf.Contents()) + Concat(old(Written(vecs)))
  {
    MatchedPending(buf, vecs);
    assert Written(vecs)[0..] == Written(vecs) && buf.Contents() + Concat(Written(vecs)[..0]) == buf.Contents();
    CommitLoop(buf, holder, chain, vecs, buf.Contents(), FirstWithSpace(buf), Written(vecs));
  }

  // The single-vector path of evbuffer_commit_space.
  method CommitLast(buf: EvBuffer, v: IoVec)
    requires buf.Valid() && buf.last != null && InSpaceOf(v, buf.last)
    modifies buf, buf.chains`off
    ensures buf.Valid() && buf.SameFlags() && buf.chains == old(buf.chains)
    ensures buf.Contents() == old(buf.Contents()) + Concat(old(Written([v])))
  {
    ghost var k, piece := |buf.chains| - 1, Written([v])[0];
    assert buf.last.Holds(buf.datas[k]);
    assert [v][0] == v && Written([v]) == [piece];
    ConcatSingle(piece);
    if v.len > 0 {
      Extend(buf, buf.last, v.len, k, piece);
      var n := AdvanceLastWithData(buf);
    }
  }

  method CommitSpace(buf: EvBuffer, vecs: seq<IoVec>) returns (r: int)
    requires buf.Valid()
    modifies buf, buf.chains`off
    ensures buf.Valid() && buf.SameFlags() && buf.chains == old(buf.chains)
    ensures r == if !buf.freezeEnd && old(Commits(buf, vecs)) then 0 else -1
    ensures buf.Contents() == old(buf.Contents()) + if r == 0 then Concat(old(Written(vecs))) else []
  {
    if buf.freezeEnd { return -1; }
    if |vecs| == 0 { return 0; }
    if |vecs| == 1 && buf.last != null && vecs[0].mem == buf.last.buffer && vecs[0].base == buf.last.misalign + buf.last.off {
      OneVec(buf, vecs);
      if vecs[0].len > buf.last.SpaceLen() { return -1; }
      CommitLast(buf, vecs[0]);
      return 0;
    }
    if buf.LastWithData() == null { return -1; }
    r := CommitFromFirst(buf, vecs);
  }

  // The two passes of evbuffer_commit_space.
  method CommitFromFirst(buf: EvBuffer, vecs: seq<IoVec>) returns (r: int)
    requires buf.Valid() && buf.chains != [] && vecs != []
    modifies buf, buf.chains`off
    ensures buf.Valid() && buf.SameFlags() && buf.chains == old(buf.chains)
    ensures r == if old(MatchesSpace(buf, vecs)) then 0 else -1
    ensures buf.Contents() == old(buf.Contents()) + if r == 0 then Concat(old(Written(vecs))) else []
  {
    var holder, chain := FindSpace(buf);
    var ok := CheckVecs(buf, chain, vecs);
    if !ok { return -1; }
    CommitVecs(buf, holder, chain, vecs);
    r := 0;
  }

  /** A lone vector that starts where the space of the last chain does is measured against that chain. */
  lemma {:induction false} OneVec(buf: EvBuffer, vecs: seq<IoVec>)
    requires buf.Valid() && buf.last != null && |vecs| == 1
    requires vecs[0].mem == buf.last.buffer && vecs[0].base == buf.last.misalign + buf.last.off
    ensures [vecs[0]] == vecs
    ensures Commits(buf, vecs) <==> vecs[0].len <= buf.last.SpaceLen()
  {
    if MatchesSpace(buf, vecs) {
      var c := buf.chains[FirstWithSpace(buf)];
      assert InSpaceOf(vecs[0], c);
      assert buf.last.Holds(buf.datas[|buf.chains| - 1]);
    }
  }

  ghost function Lens(vecs: seq<IoVec>): seq<nat> {
    seq(|vecs|, i requires 0 <= i < |vecs| => vecs[i].len)
  }

  /** Every vector but the last takes all the space of its chain. */
  ghost predicate AllButLastFull(buf: EvBuffer, vecs: seq<IoVec>, room: seq<nat>)
    reads *
  {
    |vecs| <= |room| && forall i {:trigger vecs[i]} | 0 <= i < |vecs| - 1 :: vecs[i].len == room[i]
  }

  // evbuffer_read_setup_vecs_, which asserts that there is a chain with space
  method ReadSetupVecs(buf: EvBuffer, howmuch: nat, nVecs: nat, exact: bool, ghost room: seq<nat>)
    returns (vecs: seq<IoVec>, holder: Chain?, chain0: Chain)
    requires buf.Valid() && buf.chains != [] && RoomAt(buf, FirstWithSpace(buf), room)
    requires |room| <= nVecs && howmuch <= Sum(room) && FirstWithSpace(buf) < |buf.chains|
    ensures MatchesSpace(buf, vecs) && AllButLastFull(buf, vecs, room)
    ensures if exact then Sum(Lens(vecs)) == howmuch else Sum(Lens(vecs)) >= howmuch
    ensures chain0 == buf.chains[FirstWithSpace(buf)]
    ensures holder == if FirstWithSpace(buf) == 0 then null else buf.chains[FirstWithSpace(buf) - 1]
  {
    var chain: Chain?, soFar: nat := null, 0;
    holder, chain := FindSpace(buf);
    chain0 := chain;
    vecs := [];
    assert Lens([]) == [] && room[..0] == [];
    while |vecs| < nVecs && soFar < howmuch
      invariant Gathered(buf, vecs, room, soFar, howmuch, exact, chain)
      decreases nVecs - |vecs|
    {
      vecs, soFar, chain := NextVec(buf, chain, soFar, howmuch, exact, vecs, room);
    }
    if soFar < howmuch { WholeSum(room, |room|); }
  }

  /** The vectors so far offer `soFar` bytes, and as much as their chains if this is not enough; `chain` is the next one. */
  ghost predicate Gathered(buf: EvBuffer, vecs: seq<IoVec>, room: seq<nat>, soFar: nat, howmuch: nat, exact: bool, chain: Chain?)
    reads *
  {
    var next := FirstWithSpace(buf) + |vecs|;
    && MatchesSpace(buf, vecs) && AllButLastFull(buf, vecs, room)
    && chain == (if next < |buf.chains| then buf.chains[next] else null)
    && soFar == Sum(Lens(vecs)) && (exact ==> soFar <= howmuch)
    && (soFar < howmuch ==> Lens(vecs) == room[..|vecs|])
  }

  // One more vector: the space of a chain, cut to what is still wanted if `exact`.
  method NextVec(buf: EvBuffer, chain0: Chain?, soFar0: nat, howmuch: nat, exact: bool, vecs0: seq<IoVec>, ghost room: seq<nat>)
    returns (vecs: seq<IoVec>, soFar: nat, chain: Chain?)
    requires buf.Valid() && buf.chains != [] && RoomAt(buf, FirstWithSpace(buf), room)
    requires Gathered(buf, vecs0, room, soFar0, howmuch, exact, chain0) && soFar0 < howmuch <= Sum(room)
    ensures |vecs| == |vecs0| + 1 && Gathered(buf, vecs, room, soFar, howmuch, exact, chain)
  {
    WholeSum(room, |vecs0|);
    assert chain0.Holds(buf.datas[FirstWithSpace(buf) + |vecs0|]);
    assert room[|vecs0|] == chain0.SpaceLen();
    var n := chain0.SpaceLen();
    if n > howmuch - soFar0 && exact { n := howmuch - soFar0; }
    var v := IoVec(chain0.buffer, chain0.misalign + chain0.off, n);
    StepLens(vecs0, v, room);
    StepMatch(buf, vecs0, v, room);
    vecs, soFar, chain := vecs0 + [v], soFar0 + n, chain0.next;
  }

  lemma {:induction false} StepLens(vecs: seq<IoVec>, v: IoVec, room: seq<nat>)
    requires |vecs| < |room|
    ensures Sum(Lens(vecs + [v])) == Sum(Lens(vecs)) + v.len
    ensures Lens(vecs) == room[..|vecs|] && v.len == room[|vecs|] ==> Lens(vecs + [v]) == room[..|vecs| + 1]
  {
    assert Lens(vecs + [v]) == Lens(vecs) + [v.len];
    SumSnoc(Lens(vecs), v.len);
  }

  lemma {:induction false} StepMatch(buf: EvBuffer, vecs: seq<IoVec>, v: IoVec, room: seq<nat>)
    requires MatchesSpace(buf, vecs) && AllButLastFull(buf, vecs, room) && |vecs| < |room|
    requires FirstWithSpace(buf) + |vecs| < |buf.chains| && InSpaceOf(v, buf.chains[FirstWithSpace(buf) + |vecs|])
    requires Lens(vecs) == room[..|vecs|]
    ensures MatchesSpace(buf, vecs + [v]) && AllButLastFull(buf, vecs + [v], room)
  {
    forall i | 0 <= i < |vecs|
      ensures vecs[i].len == room[i]
    {
      assert vecs[i].len == Lens(vecs)[i];
    }
  }

  lemma {:induction false} WholeSum(ns: seq<nat>, k: nat)
    requires k <= |ns|
    ensures Sum(ns[..k]) <= Sum(ns)
    ensures k == |ns| ==> ns[..k] == ns
    ensures Sum(ns[..k]) < Sum(ns) ==> k < |ns|
  {
    if k > 0 {
      WholeSum(ns[1..], k - 1);
      assert ns[..k][1..] == ns[1..][..k - 1];
    }
  }

  /** The n-th vector gets the bytes after those of the vectors before it. */
  lemma {:induction false} PiecesStep(ps: seq<seq<byte>>, lens: seq<nat>, i: nat, rest: seq<byte>)
    requires i < |lens| == |ps| && ps[i..] == Pieces(rest, lens[i..])
    ensures var n := Min(|rest|, lens[i]);
      && ps[i] == rest[..n]
      && ps[i + 1..] == Pieces(rest[n..], lens[i + 1..])
  {
    assert ps[i] == ps[i..][0] && ps[i + 1..] == ps[i..][1..];
    assert lens[i..][1..] == lens[i + 1..];
  }

  /** The first `i` pieces are where they belong. */
  ghost predicate PendingFirst(buf: EvBuffer, first: nat, pieces: seq<seq<byte>>, i: nat)
    reads *
  {
    && i <= |pieces| && first + |pieces| <= |buf.chains|
    && forall j {:trigger pieces[j]} | 0 <= j < i :: Pending(buf.chains[first + j], pieces[j])
  }

  // readv(2): the kernel writes `data` into the vectors in order.
  method Readv(buf: EvBuffer, vecs: seq<IoVec>, data: seq<byte>)
    requires buf.Valid() && buf.chains != [] && MatchesSpace(buf, vecs) && |data| <= Sum(Lens(vecs))
    modifies buf.Memory()
    ensures buf.Valid()
    ensures AllPending(buf.chains[FirstWithSpace(buf)..], Pieces(data, Lens(vecs)))
  {
    ghost var first, pieces := FirstWithSpace(buf), Pieces(data, Lens(vecs));
    var rest := data;
    assert pieces[0..] == pieces && Lens(vecs)[0..] == Lens(vecs);
    for i := 0 to |vecs|
      invariant buf.Valid() && MatchesSpace(buf, vecs) && FirstWithSpace(buf) == first
      invariant pieces[i..] == Pieces(rest, Lens(vecs)[i..])
      invariant PendingFirst(buf, first, pieces, i)
    {
      PiecesStep(pieces, Lens(vecs), i, rest);
      var n := if |rest| <= vecs[i].len then |rest| else vecs[i].len;
      WritePiece(buf, vecs, i, rest[..n], pieces);
      rest := rest[n..];
    }
    forall i | 0 <= i < |pieces|
      ensures Pending(buf.chains[first..][i], pieces[i])
    {
      assert buf.chains[first..][i] == buf.chains[first + i];
    }
  }

  method WritePiece(buf: EvBuffer, vecs: seq<IoVec>, i: nat, piece: seq<byte>, ghost pieces: seq<seq<byte>>)
    requires buf.Valid() && MatchesSpace(buf, vecs) && i < |vecs| == |pieces| && pieces[i] == piece && |piece| <= vecs[i].len
    requires PendingFirst(buf, FirstWithSpace(buf), pieces, i)
    modifies buf.Memory()
    ensures buf.Valid() && MatchesSpace(buf, vecs) && FirstWithSpace(buf) == old(FirstWithSpace(buf))
    ensures PendingFirst(buf, FirstWithSpace(buf), pieces, i + 1)
  {
    ghost var first := FirstWithSpace(buf);
    ghost var c := buf.chains[first + i];
    assert InSpaceOf(vecs[i], c);
    if |piece| > 0 {
      WriteSpace(buf, vecs[i], piece, first + i);
    }
    forall j {:trigger pieces[j]} | 0 <= j < i
      ensures Pending(buf.chains[first + j], pieces[j])
    {
      assert old(Pending(buf.chains[first + j], pieces[j]));
    }
  }

  method WriteSpace(buf: EvBuffer, v: IoVec, piece: seq<byte>, ghost k: nat)
    requires buf.Valid() && k < |buf.chains| && InSpaceOf(v, buf.chains[k]) && 0 < |piece| <= v.len
    modifies v.mem
    ensures buf.Valid() && v.mem in buf.Memory() && Pending(buf.chains[k], piece)
  {
    assert buf.chains[k].Holds(buf.datas[k]) && buf.chains[k] in buf.chains;
    MemCpy(v.mem, v.base, piece);
  }

  /** Cutting the last vector short makes no difference to data that fits. */
  lemma {:induction false} SamePieces(data: seq<byte>, lens: seq<nat>, room: seq<nat>)
    requires |lens| == |room| && |data| <= Sum(lens)
    requires forall i | 0 <= i < |lens| - 1 :: lens[i] == room[i]
    requires lens != [] ==> lens[|lens| - 1] <= room[|lens| - 1]
    ensures Pieces(data, lens) == Pieces(data, room) && |data| <= Sum(room)
  {
    if |lens| > 1 {
      var n := Min(|data|, lens[0]);
      assert lens[1..][|lens| - 2] == lens[|lens| - 1] && room[1..][|lens| - 2] == room[|lens| - 1];
      SamePieces(data[n..], lens[1..], room[1..]);
    }
  }

  // The commit loop of evbuffer_read before chain `i`: `rest` is still to be counted.
  ghost predicate Pouring(pieces: seq<seq<byte>>, data: seq<byte>, room: seq<nat>, i: nat, rest: seq<byte>) {
    && i <= |pieces| == |room|
    && pieces[i..] == Pieces(rest, room[i..])
    && Concat(pieces[..i]) + rest == data
    && |rest| <= Sum(room[i..])
  }

  lemma {:induction false} PourStep(pieces: seq<seq<byte>>, data: seq<byte>, room: seq<nat>, i: nat, rest: seq<byte>)
    requires Pouring(pieces, data, room, i, rest) && i < |room|
    ensures var n := Min(|rest|, room[i]);
      && 0 <= n <= |rest| && |pieces[i]| == n
      && Pouring(pieces, data, room, i + 1, rest[n..])
      && (n < |rest| ==> i + 1 < |room|)
  {
    PiecesStep(pieces, room, i, rest);
    ConcatTakeNext(pieces, i);
    assert room[i..][1..] == room[i + 1..];
  }

  ghost predicate ReadAt(buf: EvBuffer, base: seq<byte>, data: seq<byte>, first: nat, room: seq<nat>,
                         pieces: seq<seq<byte>>, i: nat, rest: seq<byte>, lw: Chain?, w: nat)
    reads *
  {
    && i < |room| && Pouring(pieces, data, room, i, rest)
    && Committed(buf, base, first, pieces, i, lw, w)
    && forall j {:trigger room[j]} | i <= j < |room| :: buf.chains[first + j].SpaceLen() == room[j]
  }

  // A chain that is filled up.
  method ReadFull(buf: EvBuffer, chain: Chain, holder: Chain?, space: nat, lw0: Chain?, ghost base: seq<byte>, ghost data: seq<byte>,
                  ghost first: nat, ghost room: seq<nat>, ghost pieces: seq<seq<byte>>, ghost i: nat, ghost rest: seq<byte>, ghost w0: nat)
    returns (lw: Chain?, ghost w: nat)
    requires ReadAt(buf, base, data, first, room, pieces, i, rest, lw0, w0)
    requires chain == buf.chains[first + i] && space == chain.SpaceLen() < |rest|
    requires holder == if first + i == 0 then null else buf.chains[first + i - 1]
    modifies buf, chain`off
    ensures buf.SameFlags() && buf.chains == old(buf.chains)
    ensures ReadAt(buf, base, data, first, room, pieces, i + 1, rest[space..], lw, w)
  {
    PourStep(pieces, data, room, i, rest);
    assert space == room[i];
    lw, w := CommitOne(buf, chain, holder, space, lw0, base, first, pieces, i, w0);
  }

  // The chain in which the data ends.
  method ReadLast(buf: EvBuffer, chain: Chain, holder: Chain?, n: nat, lw: Chain?, ghost base: seq<byte>, ghost data: seq<byte>,
                  ghost first: nat, ghost room: seq<nat>, ghost pieces: seq<seq<byte>>, ghost i: nat, ghost rest: seq<byte>, ghost w: nat)
    requires ReadAt(buf, base, data, first, room, pieces, i, rest, lw, w)
    requires chain == buf.chains[first + i] && 0 < n == |rest| <= chain.SpaceLen()
    requires holder == if first + i == 0 then null else buf.chains[first + i - 1]
    modifies buf, chain`off
    ensures buf.Valid() && buf.SameFlags() && buf.chains == old(buf.chains)
    ensures buf.Contents() == base + data
  {
    PourStep(pieces, data, room, i, rest);
    assert chain.SpaceLen() == room[i] && rest[n..] == [];
    var lw';
    ghost var w';
    lw', w' := CommitOne(buf, chain, holder, n, lw, base, first, pieces, i, w);
    FinishCommit(buf, holder, base, first, pieces, i + 1, w');
  }

  // The commit loop of evbuffer_read.
  method ReadLoop(buf: EvBuffer, holder0: Chain?, chain0: Chain, ghost base: seq<byte>, ghost data: seq<byte>, n: nat,
                  ghost first: nat, ghost room: seq<nat>, ghost pieces: seq<seq<byte>>)
    requires ReadAt(buf, base, data, first, room, pieces, 0, data, buf.lastWithDatap, buf.lwd) && |data| == n > 0
    requires chain0 == buf.chains[first] && holder0 == if first == 0 then null else buf.chains[first - 1]
    modifies buf, buf.chains`off
    ensures buf.Valid() && buf.SameFlags() && buf.chains == old(buf.chains)
    ensures buf.Contents() == base + data
  {
    var remaining, holder, chain, lw := n, holder0, chain0, buf.lastWithDatap;
    ghost var i, w: nat, rest := 0, buf.lwd, data;
    while chain.SpaceLen() < remaining
      invariant buf.SameFlags() && buf.chains == old(buf.chains)
      invariant ReadAt(buf, base, data, first, room, pieces, i, rest, lw, w) && |rest| == remaining > 0
      invariant chain == buf.chains[first + i]
      invariant holder == if first + i == 0 then null else buf.chains[first + i - 1]
      decreases |room| - i
    {
      assert chain.SpaceLen() == room[i];
      var space: nat := chain.SpaceLen();
      lw, w := ReadFull(buf, chain, holder, space, lw, base, data, first, room, pieces, i, rest, w);
      remaining, i, rest := remaining - space, i + 1, rest[space..];
      holder, chain := chain, chain.next;
    }
    ReadLast(buf, chain, holder, remaining, lw, base, data, first, room, pieces, i, rest, w);
  }

  const NUM_READ_IOVEC: nat := 4
  const EVBUFFER_MAX_READ: int := 4096

  /** No more than one read takes, than was asked for, and than FIONREAD has announced, if it has. */
  predicate MayRead(n: nat, howmuch: int, readable: int) {
    && n <= EVBUFFER_MAX_READ
    && (howmuch >= 0 ==> n <= howmuch)
    && (0 < readable <= EVBUFFER_MAX_READ ==> n <= readable)
  }

  // What evbuffer_read asks readv for, `readable` being the FIONREAD answer.
  function ReadSize(howmuch: int, readable: int): (n: nat)
    ensures MayRead(n, howmuch, readable) && forall m: nat :: MayRead(m, howmuch, readable) ==> m <= n
  {
    var n := if readable <= 0 || readable > EVBUFFER_MAX_READ then EVBUFFER_MAX_READ else readable;
    if howmuch < 0 || howmuch > n then n else howmuch
  }

  /** The vectors offer what the chains have, the last one perhaps less. */
  lemma {:induction false} SameRoom(buf: EvBuffer, vecs: seq<IoVec>, room: seq<nat>)
    requires buf.Valid() && RoomAt(buf, FirstWithSpace(buf), room) && MatchesSpace(buf, vecs) && AllButLastFull(buf, vecs, room)
    ensures forall i | 0 <= i < |vecs| - 1 :: Lens(vecs)[i] == room[..|vecs|][i]
    ensures vecs != [] ==> Lens(vecs)[|vecs| - 1] <= room[..|vecs|][|vecs| - 1]
  {
    if vecs != [] {
      var n := |vecs| - 1;
      assert InSpaceOf(vecs[n], buf.chains[FirstWithSpace(buf) + n]) && room[n] == buf.chains[FirstWithSpace(buf) + n].SpaceLen();
    }
    forall i | 0 <= i < |vecs| - 1
      ensures Lens(vecs)[i] == room[i]
    {
      assert vecs[i].len == room[i];
    }
  }

  lemma {:induction false} StartReading(buf: EvBuffer, vecs: seq<IoVec>, room0: seq<nat>, data: seq<byte>, pieces: seq<seq<byte>>) returns (room: seq<nat>)
    requires buf.Valid() && buf.chains != [] && RoomAt(buf, FirstWithSpace(buf), room0)
    requires MatchesSpace(buf, vecs) && AllButLastFull(buf, vecs, room0) && 0 < |data| <= Sum(Lens(vecs))
    requires pieces == Pieces(data, Lens(vecs)) && AllPending(buf.chains[FirstWithSpace(buf)..], pieces)
    ensures ReadAt(buf, buf.Contents(), data, FirstWithSpace(buf), room, pieces, 0, data, buf.lastWithDatap, buf.lwd)
  {
    room := room0[..|vecs|];
    SameRoom(buf, vecs, room0);
    StartPouring(data, Lens(vecs), room);
    StartCommitting(buf, FirstWithSpace(buf), pieces);
  }

  lemma {:induction false} StartPouring(data: seq<byte>, lens: seq<nat>, room: seq<nat>)
    requires |lens| == |room| && 0 < |data| <= Sum(lens)
    requires forall i | 0 <= i < |lens| - 1 :: lens[i] == room[i]
    requires lens != [] ==> lens[|lens| - 1] <= room[|lens| - 1]
    ensures room != [] && Pouring(Pieces(data, lens), data, room, 0, data)
  {
    SamePieces(data, lens, room);
    var pieces := Pieces(data, lens);
    assert pieces[0..] == pieces && room[0..] == room && pieces[..0] == [] && [] + data == data;
  }

  lemma {:induction false} StartCommitting(buf: EvBuffer, first: nat, pieces: seq<seq<byte>>)
    requires buf.Valid() && buf.chains != [] && buf.lwd <= first <= buf.lwd + 1 && first + |pieces| <= |buf.chains|
    requires AllPending(buf.chains[first..], pieces)
    ensures Committed(buf, buf.Contents(), first, pieces, 0, buf.lastWithDatap, buf.lwd)
  {
    assert pieces[0..] == pieces && pieces[..0] == [] && buf.Contents() + [] == buf.Contents();
    assert buf.chains[first + 0..] == buf.chains[first..];
  }

  // Makes room for `size` bytes and sets up the vectors for it.
  method PrepareRead(buf: EvBuffer, size: nat) returns (vecs: seq<IoVec>, holder: Chain?, chain: Chain, ghost room: seq<nat>)
    requires buf.Valid() && size <= EVBUFFER_MAX_READ && (size > 0 || !LastFull(buf))
    modifies buf, buf.chains`next, buf.chains`misalign
    ensures buf.Valid() && buf.SameFlags() && buf.GainsFresh() && buf.Contents() == old(buf.Contents())
    ensures buf.chains != [] && RoomAt(buf, FirstWithSpace(buf), room)
    ensures MatchesSpace(buf, vecs) && AllButLastFull(buf, vecs, room) && Sum(Lens(vecs)) == size
    ensures FirstWithSpace(buf) < |buf.chains| && chain == buf.chains[FirstWithSpace(buf)]
    ensures holder == if FirstWithSpace(buf) == 0 then null else buf.chains[FirstWithSpace(buf) - 1]
    ensures forall m | m in buf.Memory() :: m in old(buf.Memory()) || fresh(m)
  {
    var ok;
    ghost var first;
    ok, first, room := ExpandFast(buf, size, NUM_READ_IOVEC);
    RoomFirst(buf, first, room);
    vecs, holder, chain := ReadSetupVecs(buf, size, NUM_READ_IOVEC, true, room);
  }

  /**
   * evbuffer_read. Asked for nothing, it needs a chain with space nevertheless: without one an assertion of
   * evbuffer_read_setup_vecs_ fails.
   */
  method Read(buf: EvBuffer, howmuch: int, readable: int, incoming: seq<byte>, failed: bool) returns (r: int)
    requires buf.Valid() && (buf.freezeEnd || howmuch != 0 || !LastFull(buf))
    modifies buf, buf.chains, buf.Memory()
    ensures buf.Valid() && buf.SameFlags() && buf.GainsFresh()
    ensures r == -1 <==> buf.freezeEnd || failed
    ensures r != -1 ==> 0 <= r <= |incoming| && MayRead(r, howmuch, readable)
    ensures r != -1 ==> forall m: nat :: m <= |incoming| && MayRead(m, howmuch, readable) ==> m <= r
    ensures buf.Contents() == old(buf.Contents()) + if r > 0 then incoming[..r] else []
  {
    if buf.freezeEnd { return -1; }
    var size := ReadSize(howmuch, readable);
    r := ReadUpTo(buf, size, incoming, failed);
  }

  method ReadUpTo(buf: EvBuffer, size: nat, incoming: seq<byte>, failed: bool) returns (r: int)
    requires buf.Valid() && size <= EVBUFFER_MAX_READ && (size > 0 || !LastFull(buf))
    modifies buf, buf.chains, buf.Memory()
    ensures buf.Valid() && buf.SameFlags() && buf.GainsFresh()
    ensures r == if failed then -1 else Min(|incoming|, size)
    ensures buf.Contents() == old(buf.Contents()) + if r > 0 then incoming[..r] else []
  {
    var vecs, holder, chain;
    ghost var room;
    vecs, holder, chain, room := PrepareRead(buf, size);
    if failed { return -1; }
    var data := incoming[..if |incoming| <= size then |incoming| else size];
    ReadInto(buf, vecs, holder, chain, data, room);
    r := |data|;
  }

  // readv and the commit loop.
  method ReadInto(buf: EvBuffer, vecs: seq<IoVec>, holder: Chain?, chain: Chain, data: seq<byte>, ghost room0: seq<nat>)
    requires buf.Valid() && buf.chains != [] && RoomAt(buf, FirstWithSpace(buf), room0)
    requires MatchesSpace(buf, vecs) && AllButLastFull(buf, vecs, room0) && |data| <= Sum(Lens(vecs))
    requires FirstWithSpace(buf) < |buf.chains| && chain == buf.chains[FirstWithSpace(buf)]
    requires holder == if FirstWithSpace(buf) == 0 then null else buf.chains[FirstWithSpace(buf) - 1]
    modifies buf, buf.chains`off, buf.Memory()
    ensures buf.Valid() && buf.SameFlags() && buf.chains == old(buf.chains)
    ensures buf.Contents() == old(buf.Contents()) + data
  {
    if data == [] { return; }
    ghost var room, pieces;
    room, pieces := Scatter(buf, vecs, data, room0);
    ReadLoop(buf, holder, chain, buf.Contents(), data, |data|, FirstWithSpace(buf), room, pieces);
  }

  // Everything is ready for the commit loop once readv has written the bytes.
  method Scatter(buf: EvBuffer, vecs: seq<IoVec>, data: seq<byte>, ghost room0: seq<nat>)
    returns (ghost room: seq<nat>, ghost pieces: seq<seq<byte>>)
    requires buf.Valid() && buf.chains != [] && RoomAt(buf, FirstWithSpace(buf), room0)
    requires MatchesSpace(buf, vecs) && AllButLastFull(buf, vecs, room0) && 0 < |data| <= Sum(Lens(vecs))
    modifies buf.Memory()
    ensures ReadAt(buf, buf.Contents(), data, FirstWithSpace(buf), room, pieces, 0, data, buf.lastWithDatap, buf.lwd)
  {
    Readv(buf, vecs, data);
    pieces := Pieces(data, Lens(vecs));
    room := StartReading(buf, vecs, room0, data, pieces);
  }

  const MAX_TO_COPY_IN_EXPAND: nat := 4096

  lemma {:induction false} DistinctUpdate(cs: seq<Chain>, k: nat, c: Chain)
    requires Distinct(cs) && k < |cs| && c !in cs && forall d | d in cs :: d.buffer != c.buffer || (d.immutable && c.immutable)
    ensures Distinct(cs[k := c])
  {
    assert forall i | 0 <= i < |cs| :: cs[i] in cs;
  }

  // *chainp = tmp, where chainp leads to the last chain with data.
  method ReplaceLastWithData(buf: EvBuffer, chain: Chain, tmp: Chain)
    requires buf.Valid() && buf.chains != [] && chain == buf.chains[buf.lwd]
    requires buf.Linkable(tmp) && tmp.Holds(buf.datas[buf.lwd])
    modifies buf, buf.chains`next, tmp`next
    ensures buf.Valid() && buf.SameFlags() && buf.Contents() == old(buf.Contents())
    ensures buf.chains == old(buf.chains)[old(buf.lwd) := tmp] && buf.lwd == old(buf.lwd)
  {
    var chainp := buf.lastWithDatap;
    DistinctUpdate(buf.chains, buf.lwd, tmp);
    tmp.next := chain.next;
    if chainp != null { chainp.next := tmp; }
    buf.Header(if chainp == null then tmp else buf.first, if buf.last == chain then tmp else buf.last, chainp, buf.totalLen,
      buf.chains[buf.lwd := tmp], buf.datas, buf.lwd);
  }

  // The branch of evbuffer_expand_singlechain that moves the data of the chain to a larger one.
  method Enlarge(buf: EvBuffer, chain: Chain, datlen: nat) returns (result: Chain?)
    requires buf.Valid() && buf.chains != [] && chain == buf.chains[buf.lwd]
    modifies buf, buf.chains`next
    ensures buf.Valid() && buf.SameFlags() && buf.GainsFresh() && buf.Contents() == old(buf.Contents())
    ensures result == null <==> chain.off + datlen > CHAIN_MAX - CHAIN_HEADER
    ensures result != null ==> !result.immutable && result.SpaceLen() >= datlen
    ensures result != null ==> buf.lwd == old(buf.lwd) < |buf.chains| && result == buf.chains[buf.lwd]
  {
    ghost var d := buf.datas[buf.lwd];
    assert chain.Holds(d);
    var bytes := chain.buffer[chain.misalign..chain.misalign + chain.off];
    assert bytes == d;
    var tmp := ChainWith(chain.off + datlen, bytes);
    if tmp == null { return null; }
    ReplaceLastWithData(buf, chain, tmp);
    assert buf.chains[buf.lwd] == tmp;
    result := tmp;
  }

  // evbuffer_chain_insert_new
  method InsertNew(buf: EvBuffer, datlen: nat) returns (result: Chain?, ghost k: nat)
    requires buf.Valid()
    modifies buf, buf.chains`next
    ensures buf.Valid() && buf.SameFlags() && buf.GainsFresh() && buf.Contents() == old(buf.Contents())
    ensures result == null <==> datlen > CHAIN_MAX - CHAIN_HEADER
    ensures result != null ==> !result.immutable && result.SpaceLen() >= datlen && k + 1 == |buf.chains| && result == buf.chains[k]
  {
    k := 0;
    result := ChainNew(datlen);
    if result != null {
      buf.ChainInsert(result, []);
      k := |buf.chains| - 1;
      assert buf.chains[k] == result;
    }
  }

  /** The chain has some space, but less than `datlen`, and is not worth realigning or enlarging; the next one will do. */
  predicate PassesOver(c: Chain, next: Chain, datlen: nat)
    requires c.off <= c.buffer.Length
    reads c, next
  {
    && !c.immutable && c.off > 0 && c.SpaceLen() < datlen && !c.ShouldRealign(datlen)
    && (c.SpaceLen() < c.buffer.Length / 8 || c.off > MAX_TO_COPY_IN_EXPAND || datlen >= CHAIN_MAX - c.off)
    && next.SpaceLen() >= datlen
  }

  /** evbuffer_expand_singlechain will hand out a chain that is neither the first one with space nor the last one. */
  ghost predicate TakesMiddle(buf: EvBuffer, datlen: nat)
    reads *
  {
    var k := FirstWithSpace(buf);
    k + 2 < |buf.chains| && buf.chains[k].off <= buf.chains[k].buffer.Length && PassesOver(buf.chains[k], buf.chains[k + 1], datlen)
  }

  /** Chain `k` is the first one with space, or the last one. */
  ghost predicate AtEitherEnd(buf: EvBuffer, k: nat)
    reads *
  {
    k == FirstWithSpace(buf) || k == |buf.chains| - 1
  }

  /** evbuffer_expand_singlechain; chain `k` is the one it hands out. */
  method ExpandSinglechain(buf: EvBuffer, datlen: nat) returns (result: Chain?, ghost k: nat)
    requires buf.Valid()
    modifies buf, buf.chains, buf.Memory()
    ensures buf.Valid() && buf.SameFlags() && buf.GainsFresh() && buf.Contents() == old(buf.Contents())
    ensures result != null ==> k < |buf.chains| && result == buf.chains[k] && !result.immutable && result.SpaceLen() >= datlen
    ensures result != null ==> (AtEitherEnd(buf, k) <==> !old(TakesMiddle(buf, datlen)))
    ensures datlen <= CHAIN_MAX - CHAIN_HEADER - MAX_TO_COPY_IN_EXPAND ==> result != null
  {
    k := FirstWithSpace(buf);
    if buf.LastWithData() == null {
      result, k := InsertNew(buf, datlen);
      return;
    }
    var holder, chain := FindSpace(buf);
    if chain == null || chain.immutable {
      result, k := InsertNew(buf, datlen);
      return;
    }
    assert chain == buf.chains[k] && chain.Holds(buf.datas[k]);
    if chain.SpaceLen() >= datlen { return chain, k; }
    if chain.off == 0 {
      result, k := InsertNew(buf, datlen);
      return;
    }
    result, k := FromData(buf, chain, datlen);
  }

  // The part of evbuffer_expand_singlechain for a chain with data and too little space behind it.
  method FromData(buf: EvBuffer, chain: Chain, datlen: nat) returns (result: Chain?, ghost k: nat)
    requires buf.Valid() && buf.chains != [] && chain == buf.chains[buf.lwd] && buf.lwd == FirstWithSpace(buf)
    requires !chain.immutable && 0 < chain.off <= chain.buffer.Length && chain.SpaceLen() < datlen
    modifies buf, buf.chains, buf.Memory()
    ensures buf.Valid() && buf.SameFlags() && buf.GainsFresh() && buf.Contents() == old(buf.Contents())
    ensures result != null ==> k < |buf.chains| && result == buf.chains[k] && !result.immutable && result.SpaceLen() >= datlen
    ensures result != null ==> (AtEitherEnd(buf, k) <==> !old(TakesMiddle(buf, datlen)))
    ensures datlen <= CHAIN_MAX - CHAIN_HEADER - MAX_TO_COPY_IN_EXPAND ==> result != null
  {
    k := buf.lwd;
    assert chain in buf.chains && chain.Holds(buf.datas[k]);
    if chain.ShouldRealign(datlen) {
      buf.AlignChain(chain, k);
      assert chain.Holds(buf.datas[k]);
      return chain, k;
    }
    if chain.SpaceLen() < chain.buffer.Length / 8 || chain.off > MAX_TO_COPY_IN_EXPAND || datlen >= CHAIN_MAX - chain.off {
      if chain.next != null && chain.next.SpaceLen() >= datlen {
        return chain.next, k + 1;
      }
      result, k := InsertNew(buf, datlen);
    } else {
      result := Enlarge(buf, chain, datlen);
    }
  }

  /** A vector over all the free space of one of the chains. */
  ghost predicate SpaceOf(buf: EvBuffer, v: IoVec, k: nat)
    reads *
  {
    k < |buf.chains| && !buf.chains[k].immutable && InSpaceOf(v, buf.chains[k]) && v.len == buf.chains[k].SpaceLen()
  }

  /**
   * evbuffer_reserve_space. A lone vector is over the space of chain `k`, and can be committed unless a chain in the
   * middle had to be taken. Asked for nothing, the function needs a chain with space, as evbuffer_read does.
   */
  method ReserveSpace(buf: EvBuffer, size: nat, nVecs: nat) returns (n: int, vecs: seq<IoVec>, ghost k: nat)
    requires buf.Valid() && (buf.freezeEnd || nVecs < 2 || size > 0 || !LastFull(buf))
    modifies buf, buf.chains, buf.Memory()
    ensures buf.Valid() && buf.SameFlags() && buf.GainsFresh() && buf.Contents() == old(buf.Contents())
    ensures n == |vecs| || (n == -1 && (buf.freezeEnd || nVecs == 0 || size > CHAIN_MAX - CHAIN_HEADER - MAX_TO_COPY_IN_EXPAND))
    ensures n >= 0 ==> n <= nVecs && Sum(Lens(vecs)) >= size
    ensures n >= 0 && nVecs > 1 ==> MatchesSpace(buf, vecs)
    ensures n >= 0 && nVecs == 1 ==> n == 1 && SpaceOf(buf, vecs[0], k) && (Commits(buf, vecs) <==> !old(TakesMiddle(buf, size)))
  {
    k := 0;
    if buf.freezeEnd || nVecs < 1 { return -1, [], k; }
    if nVecs == 1 {
      var chain;
      chain, k := ExpandSinglechain(buf, size);
      if chain == null { return -1, [], k; }
      vecs := ReserveOne(buf, chain, k);
    } else {
      var r;
      ghost var first, room;
      r, first, room := ExpandFast(buf, size, nVecs);
      if r < 0 { return -1, [], k; }
      RoomFirst(buf, first, room);
      var holder, chain;
      vecs, holder, chain := ReadSetupVecs(buf, size, nVecs, false, room);
    }
    n := |vecs|;
  }

  method ReserveOne(buf: EvBuffer, chain: Chain, ghost k: nat) returns (vecs: seq<IoVec>)
    requires buf.Valid() && k < |buf.chains| && chain == buf.chains[k] && !chain.immutable
    ensures |vecs| == 1 && SpaceOf(buf, vecs[0], k) && Sum(Lens(vecs)) == chain.SpaceLen()
    ensures Commits(buf, vecs) <==> AtEitherEnd(buf, k)
  {
    assert chain.Holds(buf.datas[k]);
    var v := IoVec(chain.buffer, chain.misalign + chain.off, chain.SpaceLen());
    vecs := [v];
    StepLens([], v, [v.len]);
    assert [] + [v] == vecs && Lens([]) == [];
    SingleVectorCommits(buf, k, v);
  }

  /** Whatever part of the reserved vectors is handed back, evbuffer_commit_space takes it. */
  lemma {:induction false} ReservedCommits(buf: EvBuffer, vecs: seq<IoVec>, used: seq<IoVec>)
    requires MatchesSpace(buf, vecs) && |used| <= |vecs|
    requires forall i | 0 <= i < |used| :: used[i].mem == vecs[i].mem && used[i].base == vecs[i].base && used[i].len <= vecs[i].len
    ensures Commits(buf, used)
  {
    forall i | 0 <= i < |used|
      ensures InSpaceOf(used[i], buf.chains[FirstWithSpace(buf) + i])
    {
      assert InSpaceOf(vecs[i], buf.chains[FirstWithSpace(buf) + i]);
    }
  }

  /** The exact condition for a lone vector, cut short or not, over the space of one chain to be taken back. */
  lemma {:induction false} SingleVectorCommits(buf: EvBuffer, k: nat, v: IoVec)
    requires buf.Valid() && k < |buf.chains| && !buf.chains[k].immutable
    requires v == IoVec(buf.chains[k].buffer, buf.chains[k].misalign + buf.chains[k].off, v.len) && v.len <= buf.chains[k].SpaceLen()
    ensures Commits(buf, [v]) <==> AtEitherEnd(buf, k)
  {
    assert InSpaceOf(v, buf.chains[k]) && [v][0] == v;
    var first := FirstWithSpace(buf);
    assert MatchesSpace(buf, [v]) <==> first < |buf.chains| && InSpaceOf(v, buf.chains[first]);
  }

  /** A buffer to which as many bytes have been added as a new chain has room for: its last chain is full. */
  method FilledToTheBrim() returns (buf: EvBuffer)
    ensures buf.Valid() && !buf.freezeEnd && LastFull(buf)
  {
    buf := new EvBuffer();
    var c := new Chain(MIN_BUFFER_SIZE - CHAIN_HEADER);
    buf.ChainInsert(c, []);
    var data := seq(MIN_BUFFER_SIZE - CHAIN_HEADER, i => 0);
    assert c.Holds(buf.datas[0]);
    buf.FillTail(c, data);
    assert c.Holds(buf.datas[0]);
    ConcatSingle(buf.datas[0]);
    assert buf.datas == [buf.datas[0]];
  }

  /** The buffer and all it owns are newly allocated. */
  twostate predicate AllFresh(new buf: EvBuffer)
    reads buf
  {
    fresh(buf) && forall i | 0 <= i < |buf.chains| :: fresh(buf.chains[i]) && fresh(buf.chains[i].buffer)
  }

  // A buffer of one chain, which has room for one more byte.
  method OneByteLeft() returns (buf: EvBuffer)
    ensures buf.Valid() && !buf.freezeEnd && AllFresh(buf) && |buf.chains| == 1 && buf.lwd == 0
    ensures var c := buf.chains[0]; !c.immutable && c.off == 15 && c.buffer.Length == 16 && c.SpaceLen() == 1
  {
    buf := new EvBuffer();
    var c := new Chain(16);
    var data := seq(15, i => 0);
    c.Append(data, []);
    assert [] + data == data;
    buf.ChainInsert(c, data);
  }

  // A chain that has room for one more byte, and two empty ones.
  method ThreeChains() returns (buf: EvBuffer)
    ensures buf.Valid() && !buf.freezeEnd && AllFresh(buf) && TakesMiddle(buf, 2)
  {
    buf := OneByteLeft();
    var c := new Chain(16);
    var d := new Chain(16);
    assert c.SpaceLen() == d.SpaceLen() == 16;
    AppendEmpty(buf, c);
    AppendEmpty(buf, d);
  }

  /** Two bytes are reserved behind a chain that has room for one, and before another empty chain: they cannot be committed. */
  method LoneVectorRefused() returns (r: int)
    ensures r == -1
  {
    var buf := ThreeChains();
    var n, vecs;
    ghost var k;
    n, vecs, k := ReserveSpace(buf, 2, 1);
    r := CommitSpace(buf, vecs);
  }
}
