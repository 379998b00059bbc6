// Moving chains between buffers without copying their bytes.
module EvBufferMoves {
  import opened Bytes
  import opened EvBuffers

  /** Two buffers that share neither chains nor writable memory. */
  ghost predicate Separate(a: EvBuffer, b: EvBuffer)
    reads *
  {
    && a != b
    && Apart(a.chains, b.chains)
  }

  /** The chain shares nothing that may be written with these chains. */
  ghost predicate OneApart(c: Chain, other: seq<Chain>) {
    forall j {:trigger other[j]} | 0 <= j < |other| :: c != other[j] && (c.buffer != other[j].buffer || (c.immutable && other[j].immutable))
  }

  lemma {:induction false} StillApart(before: seq<Chain>, now: seq<Chain>, other: seq<Chain>)
    requires Apart(before, other) && forall c | c in now && c !in before :: OneApart(c, other)
    ensures Apart(now, other)
  {
    forall i, j | 0 <= i < |now| && 0 <= j < |other|
      ensures now[i] != other[j] && (now[i].buffer != other[j].buffer || (now[i].immutable && other[j].immutable))
    {
      if now[i] in before {
        var k :| 0 <= k < |before| && before[k] == now[i];
      } else {
        assert OneApart(now[i], other);
      }
    }
  }

  /** The chains of both buffers are chains that one of them had before, or newly allocated. */
  twostate predicate OldOrFresh(a: EvBuffer, b: EvBuffer)
    reads a, b
  {
    forall c | c in a.chains + b.chains :: c in old(a.chains) || c in old(b.chains) || (fresh(c) && fresh(c.buffer))
  }

  /** Sharing nothing is mutual. */
  lemma {:induction false} ApartBack(a: seq<Chain>, b: seq<Chain>)
    requires Apart(a, b)
    ensures Apart(b, a)
  {
  }

  lemma {:induction false} ApartParts(a: seq<Chain>, b: seq<Chain>, k: nat)
    requires Apart(a, b) && k <= |b|
    ensures Apart(a, b[..k]) && Apart(a, b[k..])
  {
  }

  lemma {:induction false} JoinLayouts(a: seq<seq<byte>>, la: nat, b: seq<seq<byte>>, lb: nat)
    requires LwdOk(a, la) && Kept(a, la) == |a|
    requires LwdOk(b, lb) && Concat(b) != []
    ensures LwdOk(a + b, |a| + lb)
    ensures Concat(a + b) == Concat(a) + Concat(b)
  {
    ConcatAppend(a, b);
    if b[lb] == [] {
      ConcatEmpty(b);
    }
  }

  lemma {:induction false} NothingKept(ds: seq<seq<byte>>, lwd: nat)
    requires Concat(ds) == []
    ensures Kept(ds, lwd) == 0
  {
    if lwd < |ds| {
      ConcatAt(ds, lwd);
    }
  }

  // ZERO_CHAIN
  method ZeroChain(buf: EvBuffer)
    modifies buf
    ensures buf.Valid() && buf.chains == [] && buf.Contents() == [] && buf.SameFlags()
  {
    buf.Header(null, null, null, 0, [], [], 0);
  }

  // COPY_CHAIN: `dst` takes over the header of `src`.
  method CopyChain(dst: EvBuffer, src: EvBuffer)
    requires src.Valid() && dst != src
    modifies dst
    ensures dst.Valid() && dst.SameFlags()
    ensures dst.chains == src.chains && dst.Contents() == src.Contents()
  {
    dst.Header(src.first, src.last, src.lastWithDatap, src.totalLen, src.chains, src.datas, src.lwd);
  }

  // Links a segment after the last chain `chp` of `dst`; the caller says where *last_with_datap ends up.
  method LinkSegment(dst: EvBuffer, chp: Chain?, head: Chain, tail: Chain, lw: Chain?, bytes: nat,
                     ghost cs: seq<Chain>, ghost ds: seq<seq<byte>>, ghost w: nat)
    requires dst.Core() && cs != [] && Segment(cs, ds) && Apart(dst.chains, cs)
    requires head == cs[0] && tail == cs[|cs| - 1] && bytes == |Concat(ds)|
    requires chp == if dst.chains == [] then null else dst.chains[|dst.chains| - 1]
    requires LwdAt(dst.datas + ds, w) && lw == if w == 0 then null else (dst.chains + cs)[w - 1]
    modifies dst, dst.chains`next
    ensures dst.Body() && dst.TailCached() && dst.SameFlags()
    ensures dst.chains == old(dst.chains) + cs && dst.datas == old(dst.datas) + ds && dst.lwd == w
  {
    ConcatAppend(dst.datas, ds);
    JoinDistinct(dst.chains, cs);
    if chp != null { chp.next := head; }
    dst.Header(if chp == null then head else dst.first, tail, lw, dst.totalLen + bytes,
      dst.chains + cs, dst.datas + ds, w);
  }

  // evbuffer_free_trailing_empty_chains on `dst` leaves a separate buffer alone.
  method FreeBeside(dst: EvBuffer, src: EvBuffer) returns (chp: Chain?)
    requires src.Valid() && dst.Valid() && Separate(dst, src)
    modifies dst, dst.chains`next
    ensures dst.Core() && dst.SameFlags() && dst.lwd == old(dst.lwd) && Kept(dst.datas, dst.lwd) == |dst.chains|
    ensures dst.chains == old(dst.chains)[..Kept(old(dst.datas), old(dst.lwd))] && dst.Contents() == old(dst.Contents())
    ensures chp == if dst.chains == [] then null else dst.chains[|dst.chains| - 1]
    ensures src.Valid() && Apart(dst.chains, src.chains)
  {
    forall i | 0 <= i < |src.chains|
      ensures src.chains[i] !in dst.chains
    {
    }
    chp := dst.FreeTrailingEmptyChains();
  }

  // APPEND_CHAIN
  method AppendChain(dst: EvBuffer, src: EvBuffer)
    requires src.Valid() && dst.Valid() && Separate(dst, src) && src.totalLen > 0
    modifies dst, dst.chains`next
    ensures dst.Valid() && dst.SameFlags()
    ensures dst.chains == old(dst.chains)[..Kept(old(dst.datas), old(dst.lwd))] + src.chains
    ensures dst.Contents() == old(dst.Contents()) + src.Contents()
  {
    var chp := FreeBeside(dst, src);
    AppendBehind(dst, src, chp);
  }

  // Links the chains of `src` behind `chp`, the last chain that is kept.
  method AppendBehind(dst: EvBuffer, src: EvBuffer, chp: Chain?)
    requires dst.Core() && src.Valid() && dst != src && Apart(dst.chains, src.chains) && src.totalLen > 0
    requires Kept(dst.datas, dst.lwd) == |dst.chains| && chp == if dst.chains == [] then null else dst.chains[|dst.chains| - 1]
    modifies dst, dst.chains`next
    ensures dst.Valid() && dst.SameFlags()
    ensures dst.chains == old(dst.chains) + src.chains && dst.Contents() == old(dst.Contents()) + src.Contents()
  {
    JoinLayouts(dst.datas, dst.lwd, src.datas, src.lwd);
    var lw := if src.lastWithDatap == null then chp else src.lastWithDatap;
    LinkSegment(dst, chp, src.first, src.last, lw, src.totalLen, src.chains, src.datas, |dst.datas| + src.lwd);
  }

  // COPY_CHAIN, for a buffer without content.
  method CopyIntoEmpty(dst: EvBuffer, src: EvBuffer)
    requires src.Valid() && dst.Valid() && dst != src && dst.totalLen == 0
    modifies dst
    ensures dst.Valid() && dst.SameFlags()
    ensures dst.chains == old(dst.chains)[..Kept(old(dst.datas), old(dst.lwd))] + src.chains
    ensures dst.Contents() == old(dst.Contents()) + src.Contents()
  {
    EmptyKeepsNothing(dst, src.chains, src.Contents());
    CopyChain(dst, src);
  }

  lemma {:induction false} EmptyKeepsNothing(buf: EvBuffer, cs: seq<Chain>, d: seq<byte>)
    requires buf.Valid() && buf.totalLen == 0
    ensures buf.Contents() + d == d && buf.chains[..Kept(buf.datas, buf.lwd)] + cs == cs
  {
    NothingKept(buf.datas, buf.lwd);
  }

  // The branch of evbuffer_add_buffer that relinks the chains.
  method TakeAll(dst: EvBuffer, src: EvBuffer)
    requires src.Valid() && dst.Valid() && Separate(dst, src) && src.totalLen > 0
    modifies dst, dst.chains`next
    ensures dst.Valid() && dst.SameFlags()
    ensures dst.chains == old(dst.chains)[..Kept(old(dst.datas), old(dst.lwd))] + src.chains
    ensures dst.Contents() == old(dst.Contents()) + src.Contents()
  {
    if dst.totalLen == 0 {
      CopyIntoEmpty(dst, src);
    } else {
      AppendChain(dst, src);
    }
  }

  method AddBuffer(outbuf: EvBuffer, inbuf: EvBuffer) returns (r: int)
    requires outbuf.Valid() && inbuf.Valid()
    requires outbuf == inbuf || Separate(outbuf, inbuf)
    modifies outbuf, inbuf, outbuf.chains`next
    ensures outbuf.Valid() && inbuf.Valid() && outbuf.SameFlags() && inbuf.SameFlags()
    ensures outbuf != inbuf ==> Separate(outbuf, inbuf)
    ensures var noop := outbuf == inbuf || old(inbuf.totalLen) == 0;
      && r == (if noop then 0 else if outbuf.freezeEnd || inbuf.freezeStart then -1 else 0)
      && (if noop || r != 0 then
            && outbuf.Contents() == old(outbuf.Contents()) && inbuf.Contents() == old(inbuf.Contents())
            && outbuf.chains == old(outbuf.chains) && inbuf.chains == old(inbuf.chains)
          else
            && outbuf.Contents() == old(outbuf.Contents()) + old(inbuf.Contents()) && inbuf.Contents() == []
            && outbuf.chains == old(outbuf.chains)[..Kept(old(outbuf.datas), old(outbuf.lwd))] + old(inbuf.chains)
            && inbuf.chains == [])
  {
    if inbuf.totalLen == 0 || outbuf == inbuf { return 0; }
    if outbuf.freezeEnd || inbuf.freezeStart { return -1; }
    TakeAll(outbuf, inbuf);
    ZeroChain(inbuf);
    r := 0;
  }

  // PREPEND_CHAIN
  method PrependChain(dst: EvBuffer, src: EvBuffer)
    requires src.Valid() && dst.Valid() && Separate(dst, src) && src.totalLen > 0 && dst.totalLen > 0
    modifies dst, src.chains`next
    ensures dst.Valid() && dst.SameFlags()
    ensures dst.chains == src.chains + old(dst.chains)
    ensures dst.Contents() == src.Contents() + old(dst.Contents())
  {
    PrependLayouts(src.datas, dst.datas, dst.lwd);
    ApartBack(dst.chains, src.chains);
    JoinDistinct(src.chains, dst.chains);
    var lw := if dst.lastWithDatap == null then src.last else dst.lastWithDatap;
    LinkFront(src.last, dst.first, src.chains, src.datas, dst.chains, dst.datas);
    InstallList(dst, src.first, dst.last, lw, dst.totalLen + src.totalLen,
      src.chains + dst.chains, src.datas + dst.datas, |src.datas| + dst.lwd);
  }

  // Links a list behind another one.
  method LinkFront(last: Chain, next: Chain, ghost cs: seq<Chain>, ghost ds: seq<seq<byte>>, ghost more: seq<Chain>, ghost mds: seq<seq<byte>>)
    requires cs != [] && more != [] && Segment(cs, ds) && Segment(more, mds) && Distinct(cs + more)
    requires last == cs[|cs| - 1] && next == more[0]
    modifies last`next
    ensures Segment(cs + more, ds + mds)
  {
    ghost var all := cs + more;
    assert last == all[|cs| - 1];
    last.next := next;
    forall i {:trigger all[i].next} | 0 <= i < |all|
      ensures all[i].next == if i + 1 < |all| then all[i + 1] else null
    {
      assert all[i] == if i < |cs| then cs[i] else more[i - |cs|];
    }
    forall i | 0 <= i < |all|
      ensures all[i].Holds((ds + mds)[i])
    {
      assert all[i] == if i < |cs| then cs[i] else more[i - |cs|];
      assert (ds + mds)[i] == if i < |cs| then ds[i] else mds[i - |cs|];
    }
  }

  // Makes a list the chains of the buffer.
  method InstallList(buf: EvBuffer, first: Chain, last: Chain, lw: Chain?, total: nat,
                     ghost cs: seq<Chain>, ghost ds: seq<seq<byte>>, ghost w: nat)
    requires cs != [] && Segment(cs, ds) && first == cs[0] && last == cs[|cs| - 1] && total == |Concat(ds)|
    requires LwdOk(ds, w) && lw == if w == 0 then null else cs[w - 1]
    modifies buf
    ensures buf.Valid() && buf.SameFlags() && buf.chains == cs && buf.datas == ds && buf.lwd == w
  {
    buf.Header(first, last, lw, total, cs, ds, w);
  }

  lemma {:induction false} PrependLayouts(a: seq<seq<byte>>, b: seq<seq<byte>>, lb: nat)
    requires LwdOk(b, lb) && Concat(b) != []
    ensures LwdOk(a + b, |a| + lb)
    ensures Concat(a + b) == Concat(a) + Concat(b)
  {
    ConcatAppend(a, b);
    if b[lb] == [] {
      ConcatEmpty(b);
    }
  }

  // The branch of evbuffer_prepend_buffer that relinks the chains.
  method TakeAllInFront(dst: EvBuffer, src: EvBuffer)
    requires src.Valid() && dst.Valid() && Separate(dst, src) && src.totalLen > 0
    modifies dst, src.chains`next
    ensures dst.Valid() && dst.SameFlags()
    ensures dst.chains == src.chains + if old(dst.totalLen) == 0 then [] else old(dst.chains)
    ensures dst.Contents() == src.Contents() + old(dst.Contents())
  {
    if dst.totalLen == 0 {
      assert src.Contents() + dst.Contents() == src.Contents();
      CopyChain(dst, src);
    } else {
      PrependChain(dst, src);
    }
  }

  method PrependBuffer(outbuf: EvBuffer, inbuf: EvBuffer) returns (r: int)
    requires outbuf.Valid() && inbuf.Valid()
    requires outbuf == inbuf || Separate(outbuf, inbuf)
    modifies outbuf, inbuf, inbuf.chains`next
    ensures outbuf.Valid() && inbuf.Valid() && outbuf.SameFlags() && inbuf.SameFlags()
    ensures outbuf != inbuf ==> Separate(outbuf, inbuf)
    ensures var noop := outbuf == inbuf || old(inbuf.totalLen) == 0;
      && r == (if noop then 0 else if outbuf.freezeStart || inbuf.freezeStart then -1 else 0)
      && (if noop || r != 0 then
            && outbuf.Contents() == old(outbuf.Contents()) && inbuf.Contents() == old(inbuf.Contents())
            && outbuf.chains == old(outbuf.chains) && inbuf.chains == old(inbuf.chains)
          else
            && outbuf.Contents() == old(inbuf.Contents()) + old(outbuf.Contents()) && inbuf.Contents() == []
            && outbuf.chains == old(inbuf.chains) + (if old(outbuf.totalLen) == 0 then [] else old(outbuf.chains))
            && inbuf.chains == [])
  {
    if inbuf.totalLen == 0 || inbuf == outbuf { return 0; }
    if outbuf.freezeStart || inbuf.freezeStart { return -1; }
    TakeAllInFront(outbuf, inbuf);
    ZeroChain(inbuf);
    r := 0;
  }

  // advance_last_with_data
  method AdvanceLastWithData(buf: EvBuffer) returns (n: nat)
    requires buf.Body() && buf.TailCached()
    modifies buf
    ensures buf.Valid() && buf.SameFlags()
    ensures buf.chains == old(buf.chains) && buf.datas == old(buf.datas)
    ensures n == if buf.chains == [] then 0 else |buf.chains| - 1 - old(buf.lwd)
  {
    n := 0;
    var chain := buf.LastWithData();
    if chain == null { return; }
    var lw := buf.lastWithDatap;
    ghost var w: nat := buf.lwd;
    while chain.next != null
      invariant 0 <= n && buf.lwd + n < |buf.chains| && chain == buf.chains[buf.lwd + n]
      invariant LwdAt(buf.datas, w) && w <= buf.lwd + n
      invariant forall j | w < j <= buf.lwd + n :: buf.datas[j] == []
      invariant lw == if w == 0 then null else buf.chains[w - 1]
      decreases |buf.chains| - n
    {
      var holder := chain;
      n, chain := n + 1, chain.next;
      assert chain.Holds(buf.datas[buf.lwd + n]);
      if chain.off > 0 {
        lw, w := holder, buf.lwd + n;
      }
    }
    buf.Header(buf.first, buf.last, lw, buf.totalLen, buf.chains, buf.datas, w);
  }

  lemma {:induction false} DetachLayout(cs: seq<Chain>, ds: seq<seq<byte>>, lwd: nat, k: nat)
    requires |cs| == |ds| && Distinct(cs) && LwdOk(ds, lwd) && 0 < k <= lwd
    ensures Distinct(cs[..k]) && Distinct(cs[k..]) && LwdOk(ds[k..], lwd - k)
    ensures |Concat(ds)| == |Concat(ds[..k])| + |Concat(ds[k..])|
  {
    ConcatSplit(ds, k);
  }

  // Cuts the first `k` chains off `src`; `previous` is the last of them.
  method Detach(src: EvBuffer, chain: Chain, previous: Chain, lw: Chain?, bytes: nat, ghost k: nat)
    requires src.Valid() && 0 < k <= src.lwd
    requires chain == src.chains[k] && previous == src.chains[k - 1] && bytes == |Concat(src.datas[..k])|
    requires lw == if k == src.lwd then null else src.lastWithDatap
    modifies src, previous`next
    ensures src.Valid() && src.SameFlags() && src.lwd == old(src.lwd) - k
    ensures src.chains == old(src.chains)[k..] && src.datas == old(src.datas)[k..]
    ensures Segment(old(src.chains)[..k], old(src.datas)[..k])
  {
    DetachLayout(src.chains, src.datas, src.lwd, k);
    CutSegment(previous, src.chains, src.datas, k);
    InstallList(src, chain, src.last, lw, src.totalLen - bytes, src.chains[k..], src.datas[k..], src.lwd - k);
  }

  method CutSegment(previous: Chain, ghost cs: seq<Chain>, ghost ds: seq<seq<byte>>, ghost k: nat)
    requires 0 < k < |cs| && Segment(cs, ds) && previous == cs[k - 1]
    modifies previous`next
    ensures Segment(cs[..k], ds[..k]) && Segment(cs[k..], ds[k..])
  {
    previous.next := null;
  }

  // The part of evbuffer_remove_buffer that moves whole chains.
  method MoveChains(src: EvBuffer, dst: EvBuffer, chain: Chain, previous: Chain, lw: Chain?, bytes: nat, ghost k: nat)
    requires src.Valid() && dst.Valid() && Separate(dst, src) && 0 < k <= src.lwd
    requires chain == src.chains[k] && previous == src.chains[k - 1] && bytes == |Concat(src.datas[..k])|
    requires lw == if k == src.lwd then null else src.lastWithDatap
    modifies src, dst, src.chains`next, dst.chains`next
    ensures src.Valid() && dst.Valid() && src.SameFlags() && dst.SameFlags()
    ensures src.lwd == old(src.lwd) - k
    ensures src.chains == old(src.chains)[k..] && src.datas == old(src.datas)[k..]
    ensures dst.chains == old(dst.chains)[..Kept(old(dst.datas), old(dst.lwd))] + old(src.chains)[..k]
    ensures dst.Contents() == old(dst.Contents()) + Concat(old(src.datas)[..k])
  {
    var head := src.first;
    ghost var cs, ds := src.chains[..k], src.datas[..k];
    ApartParts(dst.chains, src.chains, k);
    DetachBeside(src, dst, chain, previous, lw, bytes, k);
    AdoptBeside(dst, src, head, previous, bytes, cs, ds);
  }

  // Detach leaves a separate buffer alone.
  method DetachBeside(src: EvBuffer, dst: EvBuffer, chain: Chain, previous: Chain, lw: Chain?, bytes: nat, ghost k: nat)
    requires src.Valid() && dst.Valid() && Separate(dst, src) && 0 < k <= src.lwd
    requires chain == src.chains[k] && previous == src.chains[k - 1] && bytes == |Concat(src.datas[..k])|
    requires lw == if k == src.lwd then null else src.lastWithDatap
    modifies src, previous`next
    ensures src.Valid() && src.SameFlags() && src.lwd == old(src.lwd) - k && dst.Valid()
    ensures src.chains == old(src.chains)[k..] && src.datas == old(src.datas)[k..]
    ensures Segment(old(src.chains)[..k], old(src.datas)[..k])
  {
    assert forall i | 0 <= i < |dst.chains| :: dst.chains[i] != previous;
    Detach(src, chain, previous, lw, bytes, k);
  }

  // Adopt leaves a separate buffer alone.
  method AdoptBeside(dst: EvBuffer, src: EvBuffer, head: Chain, tail: Chain, bytes: nat, ghost cs: seq<Chain>, ghost ds: seq<seq<byte>>)
    requires dst.Valid() && src.Valid() && Separate(dst, src) && cs != [] && Segment(cs, ds) && Apart(dst.chains, cs)
    requires head == cs[0] && tail == cs[|cs| - 1] && bytes == |Concat(ds)|
    modifies dst, dst.chains`next
    ensures dst.Valid() && dst.SameFlags() && src.Valid()
    ensures dst.chains == old(dst.chains)[..Kept(old(dst.datas), old(dst.lwd))] + cs
    ensures dst.Contents() == old(dst.Contents()) + Concat(ds)
  {
    assert forall i | 0 <= i < |src.chains| :: src.chains[i] !in dst.chains;
    Adopt(dst, head, tail, bytes, cs, ds);
  }

  // Appends a detached segment and finds the new last chain with data.
  method Adopt(dst: EvBuffer, head: Chain, tail: Chain, bytes: nat, ghost cs: seq<Chain>, ghost ds: seq<seq<byte>>)
    requires dst.Valid() && cs != [] && Segment(cs, ds) && Apart(dst.chains, cs)
    requires head == cs[0] && tail == cs[|cs| - 1] && bytes == |Concat(ds)|
    modifies dst, dst.chains`next
    ensures dst.Valid() && dst.SameFlags()
    ensures dst.chains == old(dst.chains)[..Kept(old(dst.datas), old(dst.lwd))] + cs
    ensures dst.Contents() == old(dst.Contents()) + Concat(ds)
  {
    var chp := dst.FreeTrailingEmptyChains();
    ConcatAppend(dst.datas, ds);
    LinkSegment(dst, chp, head, tail, dst.lastWithDatap, bytes, cs, ds, dst.lwd);
    var n := AdvanceLastWithData(dst);
  }

  // The loop of evbuffer_remove_buffer: the first chain that is not moved whole.
  method FindCut(src: EvBuffer, datlen: nat)
    returns (chain: Chain, previous: Chain, lw: Chain?, moved: nat, ghost k: nat)
    requires src.Valid() && datlen < src.totalLen
    ensures k <= src.lwd && k < |src.chains| && chain == src.chains[k]
    ensures k > 0 ==> previous == src.chains[k - 1]
    ensures (k == 0) == (chain == src.first)
    ensures moved == |Concat(src.datas[..k])| && moved <= datlen < moved + |src.datas[k]|
    ensures lw == if k == src.lwd then null else src.lastWithDatap
  {
    chain, previous, lw, moved, k := src.first, src.first, src.lastWithDatap, 0, 0;
    while chain.off <= datlen - moved
      invariant k <= src.lwd && k < |src.chains| && chain == src.chains[k]
      invariant chain.Holds(src.datas[k])
      invariant k > 0 ==> previous == src.chains[k - 1]
      invariant moved == |Concat(src.datas[..k])| <= datlen
      invariant lw == if k == src.lwd then null else src.lastWithDatap
      decreases src.lwd - k
    {
      PrefixStopsAtLwd(src.datas, src.lwd, k, datlen);
      moved, previous := moved + chain.off, chain;
      if src.lastWithDatap == chain { lw := null; }
      chain, k := chain.next, k + 1;
      assert chain.Holds(src.datas[k]);
    }
  }

  // evbuffer_add on `dst` leaves a separate buffer alone.
  method AddBeside(dst: EvBuffer, src: EvBuffer, data: seq<byte>) returns (r: int)
    requires dst.Valid() && src.Valid() && Separate(dst, src)
    modifies dst, dst.chains, dst.Memory()
    ensures dst.Valid() && src.Valid() && Separate(dst, src) && dst.SameFlags() && dst.GainsFresh()
    ensures r == if dst.freezeEnd || |data| > SIZE_MAX - old(dst.totalLen) || |data| > CHAIN_MAX - CHAIN_HEADER then -1 else 0
    ensures dst.Contents() == old(dst.Contents()) + if r == 0 then data else []
  {
    r := AddAway(dst, src, data);
    StillApart(old(dst.chains), dst.chains, src.chains);
  }

  method AddAway(dst: EvBuffer, src: EvBuffer, data: seq<byte>) returns (r: int)
    requires dst.Valid() && src.Valid() && Separate(dst, src)
    modifies dst, dst.chains, dst.Memory()
    ensures dst.Valid() && src.Valid() && src.chains == old(src.chains) && dst.SameFlags() && dst.GainsFresh()
    ensures r == if dst.freezeEnd || |data| > SIZE_MAX - old(dst.totalLen) || |data| > CHAIN_MAX - CHAIN_HEADER then -1 else 0
    ensures dst.Contents() == old(dst.Contents()) + if r == 0 then data else []
  {
    forall i | 0 <= i < |src.chains|
      ensures src.chains[i] !in dst.chains && src.chains[i].buffer !in dst.Memory()
    {
    }
    r := dst.Add(data);
  }

  /** The chains, and what may be written of their memory, lie in `frame`. */
  ghost predicate ChainsWithin(cs: seq<Chain>, frame: set<object>) {
    forall i | 0 <= i < |cs| :: cs[i] in frame && (!cs[i].immutable ==> cs[i].buffer in frame)
  }

  /** Everything `buf` may write lies in `frame`. */
  ghost predicate Within(buf: EvBuffer, frame: set<object>)
    reads buf
  {
    buf in frame && ChainsWithin(buf.chains, frame)
  }

  /** Chains from the front of `s` change over to `d`. */
  lemma {:induction false} Regrouped(d: seq<Chain>, s: seq<Chain>, n: nat, k: nat, frame: set<object>)
    requires Apart(d, s) && Distinct(s) && ChainsWithin(d, frame) && ChainsWithin(s, frame) && n <= |d| && k <= |s|
    ensures Apart(d[..n] + s[..k], s[k..]) && ChainsWithin(d[..n] + s[..k], frame) && ChainsWithin(s[k..], frame)
    ensures forall c | c in d[..n] + s[..k] + s[k..] :: c in d || c in s
  {
    var now, rest := d[..n] + s[..k], s[k..];
    forall i, j | 0 <= i < |now| && 0 <= j < |rest|
      ensures now[i] != rest[j] && (now[i].buffer != rest[j].buffer || (now[i].immutable && rest[j].immutable))
    {
      assert rest[j] == s[k + j];
      assert now[i] == if i < n then d[i] else s[i - n];
    }
  }

  lemma {:induction false} EachIn(cs: seq<Chain>)
    ensures forall i | 0 <= i < |cs| :: cs[i] in cs
  {
  }

  /** The buffer, its chains and the memory it may write. */
  ghost function Frame(buf: EvBuffer): (f: set<object>)
    reads buf
    ensures Within(buf, f)
  {
    EachIn(buf.chains);
    {buf} + (set c: Chain | c in buf.chains :: c as object) + buf.Memory()
  }

  // Moves the first `n` bytes of the first chain by copying; a failed evbuffer_add goes unnoticed.
  method CopyPart(src: EvBuffer, dst: EvBuffer, n: nat, ghost frame: set<object>)
    requires Within(src, frame) && Within(dst, frame)
    requires src.Valid() && dst.Valid() && Separate(dst, src)
    requires src.chains != [] && n < |src.datas[0]|
    modifies frame
    ensures OldOrFresh(src, dst)
    ensures src.Valid() && dst.Valid() && Separate(dst, src) && src.SameFlags() && dst.SameFlags()
    ensures n <= |old(src.Contents())| && src.Contents() == old(src.Contents())[n..]
    ensures dst.Contents() == old(dst.Contents()) + old(src.Contents())[..if dst.freezeEnd || old(dst.totalLen) + n > SIZE_MAX then 0 else n]
  {
    assert src.chains[0].Holds(src.datas[0]);
    HeadOfContents(src.datas, n);
    var bytes := HeadBytes(src, n);
    var r := AddBeside(dst, src, bytes);
    TrimBeside(src, dst, n);
  }

  // The first bytes of the first chain.
  method HeadBytes(src: EvBuffer, n: nat) returns (bytes: seq<byte>)
    requires src.Valid() && src.chains != [] && n < |src.datas[0]|
    ensures bytes == src.datas[0][..n]
  {
    var chain := src.first;
    assert chain.Holds(src.datas[0]);
    bytes := chain.buffer[chain.misalign..chain.misalign + n];
  }

  // Dropping the first bytes of the first chain leaves a separate buffer alone.
  method TrimBeside(src: EvBuffer, dst: EvBuffer, n: nat)
    requires src.Valid() && dst.Valid() && Separate(dst, src) && src.chains != [] && n < |src.datas[0]|
    modifies src, src.chains`off, src.chains`misalign
    ensures src.Valid() && dst.Valid() && src.SameFlags() && src.chains == old(src.chains)
    ensures n <= |old(src.Contents())| && src.Contents() == old(src.Contents())[n..]
  {
    var chain := src.first;
    assert forall i | 0 <= i < |dst.chains| :: dst.chains[i] != chain;
    HeadOfContents(src.datas, n);
    assert chain.Holds(src.datas[0]) && chain == src.chains[0] && src.chains[0..] == src.chains;
    src.TrimHead(chain, src.lastWithDatap, src.totalLen - n, n, 0);
  }

  lemma {:induction false} HeadOfContents(ds: seq<seq<byte>>, n: nat)
    requires ds != [] && n <= |ds[0]|
    ensures n <= |Concat(ds)| && Concat(ds)[..n] == ds[0][..n] && Concat(ds[..0]) == []
  {
  }

  // The chains found by FindCut, if any, change hands.
  method MoveWhole(src: EvBuffer, dst: EvBuffer, chain: Chain, previous: Chain, lw: Chain?, bytes: nat,
                   ghost k: nat, ghost frame: set<object>)
    requires Within(src, frame) && Within(dst, frame)
    requires src.Valid() && dst.Valid() && Separate(dst, src) && k <= src.lwd && k < |src.chains|
    requires chain == src.chains[k] && bytes == |Concat(src.datas[..k])|
    requires k > 0 ==> previous == src.chains[k - 1]
    requires lw == if k == src.lwd then null else src.lastWithDatap
    modifies frame
    ensures OldOrFresh(src, dst)
    ensures src.Valid() && dst.Valid() && Separate(dst, src) && src.SameFlags() && dst.SameFlags()
    ensures Within(src, frame) && Within(dst, frame)
    ensures src.chains != [] && src.datas[0] == old(src.datas)[k]
    ensures bytes <= |old(src.Contents())| && src.Contents() == old(src.Contents())[bytes..]
    ensures dst.Contents() == old(dst.Contents()) + old(src.Contents())[..bytes]
  {
    SplitContents(src.datas, k, 0);
    ghost var n := Kept(dst.datas, dst.lwd);
    Regrouped(dst.chains, src.chains, n, k, frame);
    if chain != src.first {
      MoveChains(src, dst, chain, previous, lw, bytes, k);
    }
  }

  // evbuffer_remove_buffer when `src` holds more than it is asked for. If this is too much for `dst`, whole chains
  // arrive there nevertheless, and the bytes that would have been copied are lost.
  method MovePrefix(src: EvBuffer, dst: EvBuffer, datlen: nat, ghost frame: set<object>)
    requires Within(src, frame) && Within(dst, frame)
    requires src.Valid() && dst.Valid() && Separate(dst, src) && datlen < src.totalLen
    modifies frame
    ensures OldOrFresh(src, dst)
    ensures src.Valid() && dst.Valid() && Separate(dst, src) && src.SameFlags() && dst.SameFlags()
    ensures src.Contents() == old(src.Contents())[datlen..]
    ensures !dst.freezeEnd ==> dst.Contents() == old(dst.Contents()) + old(src.Contents())[..old(Arriving(src, dst, datlen))]
  {
    var chain, previous, lw, moved, k := FindCut(src, datlen);
    SplitContents(src.datas, k, datlen - moved);
    WholeIs(src.datas, k, datlen);
    RejoinPrefix(dst.Contents(), src.Contents(), moved, datlen);
    MoveAndCopy(src, dst, chain, previous, lw, moved, datlen - moved, k, frame);
  }

  // Whole chains, and then the first `n` bytes of the next one.
  method MoveAndCopy(src: EvBuffer, dst: EvBuffer, chain: Chain, previous: Chain, lw: Chain?, bytes: nat, n: nat,
                     ghost k: nat, ghost frame: set<object>)
    requires Within(src, frame) && Within(dst, frame)
    requires src.Valid() && dst.Valid() && Separate(dst, src) && k <= src.lwd && k < |src.chains|
    requires chain == src.chains[k] && bytes == |Concat(src.datas[..k])| && n < |src.datas[k]|
    requires k > 0 ==> previous == src.chains[k - 1]
    requires lw == if k == src.lwd then null else src.lastWithDatap
    modifies frame
    ensures OldOrFresh(src, dst)
    ensures src.Valid() && dst.Valid() && Separate(dst, src) && src.SameFlags() && dst.SameFlags()
    ensures bytes + n <= |old(src.Contents())| && src.Contents() == old(src.Contents())[bytes..][n..]
    ensures var m := if dst.freezeEnd || old(dst.totalLen) + bytes + n > SIZE_MAX then 0 else n;
      dst.Contents() == old(dst.Contents()) + old(src.Contents())[..bytes] + old(src.Contents())[bytes..][..m]
  {
    MoveWhole(src, dst, chain, previous, lw, bytes, k, frame);
    CopyPart(src, dst, n, frame);
  }

  /** The length of the chains at the front that lie within the first `n` bytes. */
  ghost function Whole(ds: seq<seq<byte>>, n: nat): (k: nat)
    ensures k <= n
  {
    if ds == [] || |ds[0]| > n then 0 else |ds[0]| + Whole(ds[1..], n - |ds[0]|)
  }

  /** How many of `n` bytes that leave `src` arrive at the end of `dst`. */
  ghost function Arriving(src: EvBuffer, dst: EvBuffer, n: nat): (k: nat)
    reads src, dst
    ensures k <= n
  {
    if n >= src.totalLen || dst.totalLen + n <= SIZE_MAX then n else Whole(src.datas, n)
  }

  lemma {:induction false} WholeIs(ds: seq<seq<byte>>, k: nat, n: nat)
    requires k < |ds| && |Concat(ds[..k])| <= n < |Concat(ds[..k])| + |ds[k]|
    ensures Whole(ds, n) == |Concat(ds[..k])|
  {
    if k > 0 {
      assert ds[..k][1..] == ds[1..][..k - 1] && ds[..k][0] == ds[0];
      WholeIs(ds[1..], k - 1, n - |ds[0]|);
    }
  }

  lemma {:induction false} RejoinPrefix(a: seq<byte>, b: seq<byte>, m: nat, n: nat)
    requires m <= n <= |b|
    ensures a + b[..m] + b[m..][..n - m] == a + b[..n] && a + b[..m] + b[m..][..0] == a + b[..m]
    ensures b[m..][n - m..] == b[n..]
  {
  }

  lemma {:induction false} SplitContents(ds: seq<seq<byte>>, k: nat, n: nat)
    requires k < |ds| && n <= |ds[k]|
    ensures Concat(ds[..0]) == [] && ds[0..] == ds
    ensures var m := |Concat(ds[..k])|;
      && m + n <= |Concat(ds)|
      && Concat(ds)[m..] == Concat(ds[k..])
      && Concat(ds)[..m] == Concat(ds[..k])
  {
    ConcatSplit(ds, k);
    HeadOfContents(ds[k..], n);
  }

  // evbuffer_remove_buffer when all of `src` is moved.
  method MoveAll(src: EvBuffer, dst: EvBuffer)
    requires src.Valid() && dst.Valid() && Separate(dst, src) && !dst.freezeEnd && !src.freezeStart
    modifies src, dst, dst.chains`next
    ensures OldOrFresh(src, dst)
    ensures src.Valid() && dst.Valid() && Separate(dst, src) && src.SameFlags() && dst.SameFlags()
    ensures src.Contents() == [] && dst.Contents() == old(dst.Contents()) + old(src.Contents())
  {
    var r := AddBuffer(dst, src);
    assert old(src.totalLen) == 0 ==> src.Contents() == [];
  }

  method RemoveBuffer(src: EvBuffer, dst: EvBuffer, datlen: nat) returns (r: int)
    requires src.Valid() && dst.Valid() && (src == dst || Separate(dst, src))
    modifies Frame(src), Frame(dst)
    ensures src.Valid() && dst.Valid() && src.SameFlags() && dst.SameFlags()
    ensures OldOrFresh(src, dst)
    ensures src != dst ==> Separate(dst, src)
    ensures r == if datlen == 0 || src == dst then 0 else if dst.freezeEnd || src.freezeStart then -1
                 else Min(datlen, old(src.totalLen))
    ensures r <= 0 ==> src.Contents() == old(src.Contents()) && dst.Contents() == old(dst.Contents())
    ensures r > 0 ==> src.Contents() == old(src.Contents())[r..]
    ensures r > 0 ==> dst.Contents() == old(dst.Contents()) + old(src.Contents())[..old(Arriving(src, dst, r))]
  {
    if datlen == 0 || dst == src { return 0; }
    if dst.freezeEnd || src.freezeStart { return -1; }
    if datlen >= src.totalLen {
      r := src.totalLen;
      assert src.Contents()[..r] == src.Contents() && src.Contents()[r..] == [];
      MoveAll(src, dst);
    } else {
      r := datlen;
      MovePrefix(src, dst, datlen, Frame(src) + Frame(dst));
    }
  }
}
