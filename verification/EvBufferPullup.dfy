// evbuffer_pullup: making a prefix of the content contiguous.
module EvBufferPullup {
  import opened Bytes
  import opened EvBuffers

  // Copies into `tmp` every chain of the list that is wholly pulled up.
  method CopyWhole(tmp: Chain, head: Chain?, size: nat, lastWithData: Chain?, holder: Chain?,
                   ghost d: seq<byte>, ghost cs: seq<Chain>, ghost ds: seq<seq<byte>>)
    returns (chain: Chain?, left: nat, removedLast: bool, removedHolder: bool, ghost k: nat)
    requires Segment(cs, ds) && head == (if cs == [] then null else cs[0]) && Apart([tmp], cs)
    requires tmp.Holds(d) && !tmp.immutable && tmp.misalign + tmp.off + size <= tmp.buffer.Length
    requires size <= |Concat(ds)|
    modifies tmp`off, tmp.buffer
    ensures k <= |cs| && chain == if k < |cs| then cs[k] else null
    ensures Segment(cs, ds) && tmp.Holds(d + Concat(ds[..k]))
    ensures left == size - |Concat(ds[..k])|
    ensures if k < |cs| then left < |ds[k]| else left == 0
    ensures removedLast <==> lastWithData in cs[..k]
    ensures removedHolder <==> holder in cs[..k]
  {
    chain, left, removedLast, removedHolder, k := head, size, false, false, 0;
    assert tmp.Holds(d + Concat(ds[..0])) by { assert d + Concat(ds[..0]) == d; }
    while chain != null && left >= chain.off
      invariant k <= |cs| && chain == if k < |cs| then cs[k] else null
      invariant Segment(cs, ds) && tmp.Holds(d + Concat(ds[..k])) && !tmp.immutable
      invariant left == size - |Concat(ds[..k])|
      invariant tmp.misalign + tmp.off + left <= tmp.buffer.Length
      invariant removedLast <==> lastWithData in cs[..k]
      invariant removedHolder <==> holder in cs[..k]
      decreases |cs| - k
    {
      assert [tmp][0] == tmp && chain.Holds(ds[k]);
      CopyOne(tmp, chain, d, cs, ds, k);
      left := left - chain.off;
      if chain == lastWithData { removedLast := true; }
      if chain == holder { removedHolder := true; }
      assert cs[..k + 1] == cs[..k] + [cs[k]];
      chain, k := chain.next, k + 1;
    }
    if chain == null { assert ds[..k] == ds; }
  }

  method CopyOne(tmp: Chain, chain: Chain, ghost d: seq<byte>, ghost cs: seq<Chain>, ghost ds: seq<seq<byte>>, ghost k: nat)
    requires Segment(cs, ds) && k < |cs| && chain == cs[k] && Apart([tmp], cs)
    requires tmp.Holds(d + Concat(ds[..k])) && !tmp.immutable
    requires tmp.misalign + tmp.off + chain.off <= tmp.buffer.Length
    modifies tmp`off, tmp.buffer
    ensures Segment(cs, ds) && tmp.Holds(d + Concat(ds[..k + 1])) && tmp.off == old(tmp.off) + chain.off
    ensures |Concat(ds[..k + 1])| == |Concat(ds[..k])| + chain.off
  {
    assert [tmp][0] == tmp;
    assert chain.Holds(ds[k]);
    assert chain.buffer[chain.misalign..chain.misalign + chain.off] == ds[k];
    ConcatTakeNext(ds, k);
    assert d + Concat(ds[..k + 1]) == d + Concat(ds[..k]) + ds[k];
    tmp.Append(chain.buffer[chain.misalign..chain.misalign + chain.off], d + Concat(ds[..k]));
  }

  /** What the first chain holds after pulling `k` whole chains and `n` bytes of the next one. */
  ghost function PulledHead(d: seq<byte>, ds: seq<seq<byte>>, k: nat, n: nat): seq<byte>
    requires k <= |ds| && (if k < |ds| then n <= |ds[k]| else n == 0)
  {
    d + Concat(ds[..k]) + if k < |ds| then ds[k][..n] else []
  }

  /** What the chains after it hold. */
  ghost function PulledRest(ds: seq<seq<byte>>, k: nat, n: nat): seq<seq<byte>>
    requires k <= |ds| && (if k < |ds| then n <= |ds[k]| else n == 0)
  {
    if k < |ds| then ds[k..][0 := ds[k][n..]] else []
  }

  lemma {:induction false} PulledUpContent(d: seq<byte>, ds: seq<seq<byte>>, k: nat, n: nat)
    requires k <= |ds| && (if k < |ds| then n <= |ds[k]| else n == 0)
    ensures Concat([PulledHead(d, ds, k, n)] + PulledRest(ds, k, n)) == d + Concat(ds)
  {
    var head, rest := PulledHead(d, ds, k, n), PulledRest(ds, k, n);
    assert ([head] + rest)[1..] == rest;
    if k < |ds| {
      ConcatAt(ds, k);
      ConcatUpdate(ds[k..], 0, ds[k][n..]);
      assert ds[k..][1..] == ds[k + 1..] && ds[k..][..0] == [];
      assert ds[k] == ds[k][..n] + ds[k][n..];
    } else {
      assert ds[..k] == ds;
    }
  }

  /** The new index of the last chain with data, `k` chains after the first having gone. */
  function NewLwd(lwd: nat, k: nat): nat {
    if lwd <= k then 0 else lwd - k
  }

  // Takes the rest of the bytes from `chain`, if any are missing.
  method TakePart(tmp: Chain, chain: Chain?, left: nat, ghost d: seq<byte>, ghost cs: seq<Chain>, ghost ds: seq<seq<byte>>, ghost k: nat)
    requires Segment(cs, ds) && k <= |cs| && chain == (if k < |cs| then cs[k] else null) && Apart([tmp], cs)
    requires if k < |cs| then left < |ds[k]| else left == 0
    requires tmp.Holds(d + Concat(ds[..k])) && !tmp.immutable && tmp.misalign + tmp.off + left <= tmp.buffer.Length
    modifies tmp`off, tmp.buffer, cs`off, cs`misalign
    ensures Segment(cs[k..], PulledRest(ds, k, left)) && tmp.Holds(PulledHead(d, ds, k, left))
  {
    assert [tmp][0] == tmp;
    if chain != null {
      assert chain.Holds(ds[k]);
      var part := chain.buffer[chain.misalign..chain.misalign + left];
      assert part == ds[k][..left];
      tmp.Append(part, d + Concat(ds[..k]));
      assert chain.Holds(ds[k]);
      chain.Skip(left, ds[k]);
    }
  }

  // The copying half of evbuffer_pullup.
  method CopyAll(tmp: Chain, head: Chain?, size: nat, lastWithData: Chain?, holder: Chain?,
                 ghost d: seq<byte>, ghost cs: seq<Chain>, ghost ds: seq<seq<byte>>)
    returns (chain: Chain?, removedLast: bool, removedHolder: bool, ghost k: nat, ghost left: nat,
             ghost rest: seq<Chain>, ghost nd: seq<byte>, ghost nds: seq<seq<byte>>)
    requires Segment(cs, ds) && head == (if cs == [] then null else cs[0]) && Apart([tmp], cs)
    requires tmp.Holds(d) && !tmp.immutable && tmp.misalign + tmp.off + size <= tmp.buffer.Length
    requires size <= |Concat(ds)|
    modifies tmp`off, tmp.buffer, cs`off, cs`misalign
    ensures k <= |cs| && chain == (if rest == [] then null else rest[0])
    ensures if k < |ds| then left < |ds[k]| else left == 0
    ensures rest == cs[k..] && nd == PulledHead(d, ds, k, left) && nds == PulledRest(ds, k, left)
    ensures Segment(rest, nds) && tmp.Holds(nd) && |nd| == |d| + size
    ensures (removedLast <==> lastWithData in cs[..k]) && (removedHolder <==> holder in cs[..k])
  {
    var n;
    chain, n, removedLast, removedHolder, k := CopyWhole(tmp, head, size, lastWithData, holder, d, cs, ds);
    left := n;
    TakePart(tmp, chain, n, d, cs, ds, k);
    rest, nd, nds := cs[k..], PulledHead(d, ds, k, left), PulledRest(ds, k, left);
  }

  lemma {:induction false} InWindow(cs: seq<Chain>, i: nat, k: nat)
    requires Distinct(cs) && i < |cs| && k < |cs|
    ensures cs[i] in cs[1..][..k] <==> 1 <= i <= k
  {
    if 1 <= i <= k {
      assert cs[1..][..k][i - 1] == cs[i];
    }
  }

  /** Everything Install asks of the new layout, from what the copying loop found. */
  lemma {:induction false} PullLayout(cs: seq<Chain>, all: seq<seq<byte>>, lwd: nat, k: nat, n: nat, removedLast: bool, removedHolder: bool,
                   rest: seq<Chain>, d: seq<byte>, ds: seq<seq<byte>>, w: nat)
    requires 0 < |cs| == |all| && Distinct(cs) && LwdOk(all, lwd) && 0 < lwd && k < |all|
    requires if k + 1 < |all| then n < |all[k + 1]| else n == 0
    requires removedLast <==> cs[lwd] in cs[1..][..k]
    requires removedHolder <==> cs[lwd - 1] in cs[1..][..k]
    requires rest == cs[1..][k..] && d == PulledHead(all[0], all[1..], k, n) && ds == PulledRest(all[1..], k, n)
    requires w == NewLwd(lwd, k)
    ensures Concat([d] + ds) == Concat(all) && LwdOk([d] + ds, w)
    ensures Distinct([cs[0]] + rest)
    ensures rest != [] ==> cs[|cs| - 1] == rest[|rest| - 1]
    ensures removedLast ==> w == 0
    ensures !removedLast && removedHolder ==> w == 1
    ensures !removedLast && !removedHolder ==> w > 0 && |rest| >= w && cs[lwd - 1] == ([cs[0]] + rest)[w - 1]
    ensures forall c | c in rest :: c in cs
  {
    assert cs[1..][k..] == cs[k + 1..];
    InWindow(cs, lwd, k);
    InWindow(cs, lwd - 1, k);
    PulledUpContent(all[0], all[1..], k, n);
    if k + 1 < |all| {
      assert all[1..][k] == all[k + 1];
      assert lwd >= k + 1;
    }
  }

  // Makes `tmp` the first chain, followed by `rest`.
  method Install(buf: EvBuffer, tmp: Chain, chain: Chain?, removedLast: bool, removedHolder: bool,
                 ghost rest: seq<Chain>, ghost d: seq<byte>, ghost ds: seq<seq<byte>>, ghost w: nat)
    requires Segment(rest, ds) && tmp.Holds(d) && Distinct([tmp] + rest)
    requires chain == if rest == [] then null else rest[0]
    requires rest != [] ==> buf.last == rest[|rest| - 1]
    requires buf.totalLen == |Concat([d] + ds)| && LwdOk([d] + ds, w)
    requires removedLast ==> w == 0
    requires !removedLast && removedHolder ==> w == 1
    requires !removedLast && !removedHolder ==> w > 0 && buf.lastWithDatap == ([tmp] + rest)[w - 1]
    modifies buf, tmp`next
    ensures buf.Valid() && buf.SameFlags()
    ensures buf.chains == [tmp] + rest && buf.datas == [d] + ds
  {
    var lw := buf.lastWithDatap;
    if removedLast {
      lw := null;
    } else if removedHolder {
      assert chain.Holds(ds[0]);
      lw := if chain != null && chain.off > 0 then tmp else null;
    }
    tmp.next := chain;
    buf.Header(tmp, if chain == null then tmp else buf.last, lw, buf.totalLen, [tmp] + rest, [d] + ds, w);
  }

  /** The chains behind the first one. */
  lemma {:induction false} TailSegment(buf: EvBuffer)
    requires buf.Valid() && buf.chains != []
    ensures Segment(buf.chains[1..], buf.datas[1..]) && Apart([buf.chains[0]], buf.chains[1..])
    ensures buf.chains[0].next == if |buf.chains| > 1 then buf.chains[1] else null
    ensures Concat(buf.datas) == buf.datas[0] + Concat(buf.datas[1..])
  {
  }

  // The copying half of evbuffer_pullup: fills `tmp` and finds out what is left of the list.
  method PullCopy(buf: EvBuffer, tmp: Chain, lastWithData: Chain, size: nat)
    returns (chain: Chain?, removedLast: bool, removedHolder: bool,
             ghost rest: seq<Chain>, ghost d: seq<byte>, ghost ds: seq<seq<byte>>, ghost w: nat)
    requires buf.Valid() && buf.lwd > 0 && tmp == buf.chains[0] && lastWithData == buf.chains[buf.lwd]
    requires !tmp.immutable && tmp.misalign + tmp.off + size <= tmp.buffer.Length
    requires 0 < size && tmp.off + size <= buf.totalLen
    modifies tmp.buffer, buf.chains`off, buf.chains`misalign
    ensures Segment(rest, ds) && tmp.Holds(d) && Distinct([tmp] + rest)
    ensures chain == if rest == [] then null else rest[0]
    ensures rest != [] ==> buf.last == rest[|rest| - 1]
    ensures buf.totalLen == |Concat([d] + ds)| && LwdOk([d] + ds, w) && Concat([d] + ds) == buf.Contents()
    ensures removedLast ==> w == 0
    ensures !removedLast && removedHolder ==> w == 1
    ensures !removedLast && !removedHolder ==> w > 0 && buf.lastWithDatap == ([tmp] + rest)[w - 1]
    ensures |d| == old(tmp.off) + size
    ensures forall c | c in rest :: c in buf.chains
  {
    assert tmp.Holds(buf.datas[0]) && [tmp][0] == tmp;
    TailSegment(buf);
    ghost var k, left;
    chain, removedLast, removedHolder, k, left, rest, d, ds :=
      CopyAll(tmp, tmp.next, size, lastWithData, buf.lastWithDatap, buf.datas[0], buf.chains[1..], buf.datas[1..]);
    w := NewLwd(buf.lwd, k);
    PullLayout(buf.chains, buf.datas, buf.lwd, k, left, removedLast, removedHolder, rest, d, ds, w);
  }

  // Pulls `size` more bytes into the first chain, which has room for them.
  method PullInto(buf: EvBuffer, tmp: Chain, lastWithData: Chain, size: nat)
    requires buf.Valid() && buf.lwd > 0 && tmp == buf.chains[0] && lastWithData == buf.chains[buf.lwd]
    requires !tmp.immutable && tmp.misalign + tmp.off + size <= tmp.buffer.Length
    requires 0 < size && tmp.off + size <= buf.totalLen
    modifies buf, tmp.buffer, buf.chains
    ensures buf.Valid() && buf.SameFlags() && buf.Contents() == old(buf.Contents())
    ensures buf.chains != [] && buf.chains[0] == tmp && |buf.datas[0]| == old(tmp.off) + size
    ensures forall c | c in buf.chains :: c in old(buf.chains)
  {
    var chain, removedLast, removedHolder;
    ghost var rest, d, ds, w;
    chain, removedLast, removedHolder, rest, d, ds, w := PullCopy(buf, tmp, lastWithData, size);
    Install(buf, tmp, chain, removedLast, removedHolder, rest, d, ds, w);
  }

  // Puts a new, still empty chain in front of a list whose data reaches past its first chain.
  method LinkEmptyHead(buf: EvBuffer, tmp: Chain)
    requires buf.Valid() && buf.lwd > 0 && buf.Linkable(tmp) && tmp.Holds([])
    modifies buf, tmp`next
    ensures buf.Valid() && buf.SameFlags() && buf.Contents() == old(buf.Contents())
    ensures buf.chains == [tmp] + old(buf.chains) && buf.lwd == old(buf.lwd) + 1
  {
    assert ([[]] + buf.datas)[1..] == buf.datas;
    tmp.next := buf.first;
    buf.Header(tmp, buf.last, buf.lastWithDatap, buf.totalLen, [tmp] + buf.chains, [[]] + buf.datas, buf.lwd + 1);
  }

  lemma {:induction false} ReachesPastFirst(ds: seq<seq<byte>>, lwd: nat)
    requires LwdOk(ds, lwd) && ds != [] && |ds[0]| < |Concat(ds)|
    ensures lwd > 0
  {
    if lwd == 0 {
      ConcatEmpty(ds[1..]);
    }
  }

  method Pullup(buf: EvBuffer, size: int) returns (result: Chain?)
    requires buf.Valid()
    modifies buf, buf.chains, buf.Memory()
    ensures buf.Valid() && buf.SameFlags() && buf.GainsFresh() && buf.Contents() == old(buf.Contents())
    ensures var n := if size < 0 then |buf.Contents()| else size;
      && (result == null <==> n == 0 || n > |buf.Contents()| || n > CHAIN_MAX - CHAIN_HEADER)
      && (result != null ==>
            && result == buf.first && n <= result.off && result.misalign + n <= result.buffer.Length
            && result.buffer[result.misalign..result.misalign + n] == buf.Contents()[..n])
  {
    var chain, n := buf.first, if size < 0 then buf.totalLen else size;
    if n == 0 || n > buf.totalLen { return null; }
    assert chain.Holds(buf.datas[0]);
    if chain.off < n {
      ReachesPastFirst(buf.datas, buf.lwd);
      result := Gather(buf, n);
      if result == null { return; }
    } else {
      result := chain;
    }
    HeadIs(buf, result, n);
  }

  /** The first bytes of the first chain are the first of the content. */
  lemma {:induction false} HeadIs(buf: EvBuffer, c: Chain, n: nat)
    requires buf.Valid() && buf.chains != [] && c == buf.chains[0] && n <= |buf.datas[0]|
    ensures n <= c.off && c.misalign + n <= c.buffer.Length && n <= |buf.Contents()|
    ensures c.buffer[c.misalign..c.misalign + n] == buf.Contents()[..n]
  {
    assert c.Holds(buf.datas[0]);
    FirstOfContents(buf.datas, n);
    assert c.buffer[c.misalign..c.misalign + n] == buf.datas[0][..n];
  }

  lemma {:induction false} FirstOfContents(ds: seq<seq<byte>>, n: nat)
    requires ds != [] && n <= |ds[0]|
    ensures n <= |Concat(ds)| && Concat(ds)[..n] == ds[0][..n]
  {
  }

  // The case in which bytes have to move: into the first chain if it is large enough, else into a new one.
  method Gather(buf: EvBuffer, n: nat) returns (result: Chain?)
    requires buf.Valid() && buf.lwd > 0 && |buf.datas[0]| < n <= buf.totalLen
    modifies buf, buf.chains, buf.Memory()
    ensures buf.Valid() && buf.SameFlags() && buf.GainsFresh() && buf.Contents() == old(buf.Contents())
    ensures result == null <==> n > CHAIN_MAX - CHAIN_HEADER
    ensures result != null ==> buf.chains != [] && result == buf.chains[0] && |buf.datas[0]| == n
  {
    var chain, lastWithData := buf.first, buf.LastWithData();
    assert chain.Holds(buf.datas[0]) && chain in buf.chains;
    if chain.buffer.Length - chain.misalign >= n {
      PullInto(buf, chain, lastWithData, n - chain.off);
      result := chain;
    } else {
      result := ChainNew(n);
      if result != null {
        LinkEmptyHead(buf, result);
        PullInto(buf, result, lastWithData, n);
      }
    }
  }
}
