module EvBuffers {
  import opened Bytes

  const MIN_BUFFER_SIZE: nat := 1024
  const CHAIN_HEADER: nat := 48
  const CHAIN_MAX: nat := SSIZE_MAX
  const MAX_TO_REALIGN: nat := 2048
  const MAX_AUTO_SIZE: nat := 4096

  class Chain {
    var next: Chain?
    const buffer: array<byte>
    const immutable: bool
    var misalign: nat
    var off: nat

    ghost predicate Holds(data: seq<byte>)
      reads this`off, this`misalign, buffer
    {
      && off == |data|
      && misalign + off <= buffer.Length
      && (forall k | 0 <= k < |data| :: buffer[misalign + k] == data[k])
      && (immutable ==> misalign + off == buffer.Length && (off == 0 ==> buffer.Length == 0))
      && buffer.Length <= CHAIN_MAX - CHAIN_HEADER
    }

    constructor (capacity: nat)
      requires capacity <= CHAIN_MAX - CHAIN_HEADER
      ensures fresh(buffer) && buffer.Length == capacity
      ensures !immutable && next == null && misalign == 0 && off == 0
    {
      buffer := new byte[capacity](_ => 0);
      immutable := false;
      next := null;
      misalign, off := 0, 0;
    }

    // The chain evbuffer_add_reference makes: it borrows the caller's memory.
    constructor Reference(mem: array<byte>)
      requires mem.Length <= CHAIN_MAX - CHAIN_HEADER
      ensures buffer == mem && immutable && next == null && Holds(mem[..])
    {
      buffer := mem;
      immutable := true;
      next := null;
      misalign, off := 0, mem.Length;
    }

    // The bytes stored in the chain.
    function Bytes(): seq<byte>
      requires misalign + off <= buffer.Length
      reads this, buffer
    {
      buffer[misalign..misalign + off]
    }

    function SpaceLen(): int
      reads this
    {
      if immutable then 0 else buffer.Length - (misalign + off)
    }

    method Append(data: seq<byte>, ghost before: seq<byte>)
      requires Holds(before) && !immutable && |data| <= SpaceLen()
      modifies this`off, buffer
      ensures Holds(before + data)
    {
      MemCpy(buffer, misalign + off, data);
      off := off + |data|;
    }

    // An empty chain counts as empty at the beginning.
    function HeadRoom(): nat
      reads this
    {
      if off == 0 then buffer.Length else misalign
    }

    method Push(data: seq<byte>, ghost before: seq<byte>)
      requires Holds(before) && !immutable && |data| <= misalign
      modifies this`off, this`misalign, buffer
      ensures Holds(data + before)
    {
      MemCpy(buffer, misalign - |data|, data);
      off, misalign := off + |data|, misalign - |data|;
    }

    // Drops the first `n` bytes.
    method Skip(n: nat, ghost before: seq<byte>)
      requires Holds(before) && n < |before|
      modifies this`off, this`misalign
      ensures Holds(before[n..])
    {
      misalign, off := misalign + n, off - n;
    }

    predicate ShouldRealign(n: nat)
      requires off <= buffer.Length
      reads this
    {
      buffer.Length - off >= n && off < buffer.Length / 2 && off <= MAX_TO_REALIGN
    }

    method Align(ghost data: seq<byte>)
      requires Holds(data) && !immutable
      modifies this`misalign, buffer
      ensures Holds(data) && misalign == 0
    {
      MemCpy(buffer, 0, buffer[misalign..misalign + off]);
      misalign := 0;
    }
  }

  method MemCpy(dst: array<byte>, at: nat, src: seq<byte>)
    requires at + |src| <= dst.Length
    modifies dst
    ensures forall i | 0 <= i < dst.Length :: dst[i] == if at <= i < at + |src| then src[i - at] else old(dst[i])
  {
    forall i | 0 <= i < |src| { dst[at + i] := src[i]; }
  }

  method ChainNew(size: nat) returns (c: Chain?)
    ensures c == null <==> size > CHAIN_MAX - CHAIN_HEADER
    ensures c != null ==>
      && fresh(c) && fresh(c.buffer) && !c.immutable && c.next == null
      && c.buffer.Length >= size && c.buffer.Length > 0 && c.Holds([])
      && c.misalign == 0
  {
    if size > CHAIN_MAX - CHAIN_HEADER { return null; }
    var total := size + CHAIN_HEADER;
    var toAlloc;
    if total < CHAIN_MAX / 2 {
      toAlloc := MIN_BUFFER_SIZE;
      while toAlloc < total
        invariant MIN_BUFFER_SIZE <= toAlloc
        invariant toAlloc == MIN_BUFFER_SIZE || toAlloc < 2 * total
        decreases total - toAlloc
      {
        toAlloc := toAlloc * 2;
      }
    } else {
      toAlloc := total;
    }
    c := new Chain(toAlloc - CHAIN_HEADER);
  }

  // A new chain of at least `size` bytes that already holds `data`.
  method ChainWith(size: nat, data: seq<byte>) returns (c: Chain?)
    requires |data| <= size
    ensures c == null <==> size > CHAIN_MAX - CHAIN_HEADER
    ensures c != null ==>
      && fresh(c) && fresh(c.buffer) && !c.immutable && c.next == null && c.Holds(data)
      && c.buffer.Length >= size && c.misalign == 0
  {
    c := ChainNew(size);
    if c != null {
      c.Append(data, []);
      assert [] + data == data;
    }
  }

  ghost predicate Distinct(cs: seq<Chain>) {
    forall i, j | 0 <= i < j < |cs| ::
      && cs[i] != cs[j]
      && (cs[i].buffer != cs[j].buffer || (cs[i].immutable && cs[j].immutable))
  }

  ghost predicate Apart(a: seq<Chain>, b: seq<Chain>) {
    forall i, j | 0 <= i < |a| && 0 <= j < |b| ::
      && a[i] != b[j]
      && (a[i].buffer != b[j].buffer || (a[i].immutable && b[j].immutable))
  }

  lemma {:induction false} JoinDistinct(a: seq<Chain>, b: seq<Chain>)
    requires Distinct(a) && Distinct(b) && Apart(a, b)
    ensures Distinct(a + b)
  {
  }

  lemma {:induction false} DistinctCons(c: Chain, cs: seq<Chain>)
    requires Distinct(cs) && c !in cs && forall d | d in cs :: d.buffer != c.buffer || (d.immutable && c.immutable)
    ensures Distinct([c] + cs)
  {
    forall i, j | 0 <= i < j < |[c] + cs|
      ensures ([c] + cs)[i] != ([c] + cs)[j]
      ensures ([c] + cs)[i].buffer != ([c] + cs)[j].buffer || (([c] + cs)[i].immutable && ([c] + cs)[j].immutable)
    {
      assert ([c] + cs)[j] == cs[j - 1] && cs[j - 1] in cs;
    }
  }

  // A null-terminated list of chains that no buffer header owns.
  ghost predicate Segment(cs: seq<Chain>, ds: seq<seq<byte>>)
    reads *
  {
    && |cs| == |ds|
    && Distinct(cs)
    && (forall i {:trigger cs[i].next} | 0 <= i < |cs| :: cs[i].next == if i + 1 < |cs| then cs[i + 1] else null)
    && (forall i {:trigger ds[i]} | 0 <= i < |cs| :: cs[i].Holds(ds[i]))
  }

  // *last_with_datap is the first chain or a chain with data.
  ghost predicate LwdAt(datas: seq<seq<byte>>, lwd: nat) {
    if datas == [] then lwd == 0 else lwd < |datas| && (lwd > 0 ==> datas[lwd] != [])
  }

  ghost predicate TrailingEmpty(datas: seq<seq<byte>>, lwd: nat) {
    forall j | lwd < j < |datas| :: datas[j] == []
  }

  ghost predicate LwdOk(datas: seq<seq<byte>>, lwd: nat) {
    LwdAt(datas, lwd) && TrailingEmpty(datas, lwd)
  }

  /** Number of chains that survive the removal of the trailing empty chains. */
  ghost function Kept(datas: seq<seq<byte>>, lwd: nat): (k: nat)
    ensures k <= |datas|
  {
    if lwd >= |datas| || datas[lwd] == [] then 0 else lwd + 1
  }

  lemma {:induction false} DroppedAreEmpty(datas: seq<seq<byte>>, lwd: nat)
    requires LwdOk(datas, lwd)
    ensures forall j | Kept(datas, lwd) <= j < |datas| :: datas[j] == []
    ensures LwdOk(datas[..Kept(datas, lwd)], lwd)
    ensures Concat(datas[..Kept(datas, lwd)]) == Concat(datas)
  {
    ConcatSplit(datas, Kept(datas, lwd));
    ConcatEmpty(datas[Kept(datas, lwd)..]);
  }

  lemma {:induction false} GrowAtLwd(ds: seq<seq<byte>>, lwd: nat, data: seq<byte>)
    requires ds != [] && LwdOk(ds, lwd)
    ensures LwdOk(ds[lwd := ds[lwd] + data], lwd)
    ensures Concat(ds[lwd := ds[lwd] + data]) == Concat(ds) + data
  {
    ConcatAt(ds, lwd);
    ConcatUpdate(ds, lwd, ds[lwd] + data);
    ConcatEmpty(ds[lwd + 1..]);
  }

  lemma {:induction false} RejoinTail(a: seq<byte>, b: seq<byte>, n: nat)
    requires n <= |b|
    ensures a + b[..n] + b[n..] == a + b
  {
  }

  lemma {:induction false} RejoinHead(data: seq<byte>, n: nat, s: seq<byte>)
    requires n <= |data|
    ensures data[..n] + (data[n..] + s) == data + s
  {
  }

  lemma {:induction false} GrowAtHead(ds: seq<seq<byte>>, lwd: nat, data: seq<byte>)
    requires ds != [] && LwdOk(ds, lwd)
    ensures LwdOk(ds[0 := data + ds[0]], lwd)
    ensures Concat(ds[0 := data + ds[0]]) == data + Concat(ds)
  {
    ConcatUpdate(ds, 0, data + ds[0]);
    ConcatAt(ds, 0);
  }

  lemma {:induction false} NewHead(ds: seq<seq<byte>>, lwd: nat, data: seq<byte>)
    requires LwdOk(ds, lwd) && data != []
    ensures LwdOk([data] + ds, if Kept(ds, lwd) == 0 then 0 else lwd + 1)
    ensures Concat([data] + ds) == data + Concat(ds)
  {
    assert ([data] + ds)[1..] == ds;
  }

  /** A strict prefix of the content ends in or before the last chain with data. */
  lemma {:induction false} PrefixStopsAtLwd(ds: seq<seq<byte>>, lwd: nat, k: nat, len: nat)
    requires LwdOk(ds, lwd) && k <= lwd && k < |ds|
    requires |Concat(ds[..k])| <= len < |Concat(ds)|
    ensures k == lwd ==> len - |Concat(ds[..k])| < |ds[k]|
    ensures |Concat(ds[..k + 1])| == |Concat(ds[..k])| + |ds[k]|
  {
    ConcatTakeNext(ds, k);
    if k == lwd {
      ConcatAt(ds, k);
      ConcatEmpty(ds[k + 1..]);
    }
  }

  /** Dropping `k` whole chains and `n` bytes of the next one. */
  lemma {:induction false} DropFront(ds: seq<seq<byte>>, lwd: nat, k: nat, n: nat)
    requires LwdOk(ds, lwd) && k <= lwd && k < |ds| && n < |ds[k]|
    ensures LwdOk(ds[k..][0 := ds[k][n..]], lwd - k)
    ensures |Concat(ds[..k])| + n <= |Concat(ds)|
    ensures Concat(ds[k..][0 := ds[k][n..]]) == Concat(ds)[|Concat(ds[..k])| + n..]
  {
    var rest := ds[k..];
    ConcatAt(ds, k);
    ConcatUpdate(rest, 0, ds[k][n..]);
    assert rest[1..] == ds[k + 1..];
    assert rest[..0] == [];
  }

  class EvBuffer {
    var first: Chain?
    var last: Chain?
    var lastWithDatap: Chain?
    var totalLen: nat
    var freezeStart: bool
    var freezeEnd: bool

    ghost var chains: seq<Chain>
    ghost var datas: seq<seq<byte>>
    ghost var lwd: nat

    ghost predicate Linked()
      reads *
    {
      && first == (if chains == [] then null else chains[0])
      && forall i {:trigger chains[i].next} | 0 <= i < |chains| ::
           chains[i].next == if i + 1 < |chains| then chains[i + 1] else null
    }

    // All of the invariant but the cached tail and the claim that nothing follows *last_with_datap.
    ghost predicate Body()
      reads *
    {
      && |datas| == |chains|
      && Linked()
      && Distinct(chains)
      && (forall i {:trigger datas[i]} | 0 <= i < |chains| :: chains[i].Holds(datas[i]))
      && LwdAt(datas, lwd)
      && lastWithDatap == (if lwd == 0 then null else chains[lwd - 1])
      && totalLen == |Concat(datas)|
    }

    ghost predicate TailCached()
      reads *
    {
      last == (if chains == [] then null else chains[|chains| - 1])
    }

    // What holds while a helper has left the cached tail to its caller.
    ghost predicate Core()
      reads *
    {
      Body() && TrailingEmpty(datas, lwd)
    }

    ghost predicate Valid()
      reads *
    {
      Body() && TrailingEmpty(datas, lwd) && TailCached()
    }

    ghost function Contents(): seq<byte>
      reads this
    {
      Concat(datas)
    }

    // The chain memory this buffer may write.
    ghost function Memory(): set<object>
      reads this
    {
      set c | c in chains && !c.immutable :: c.buffer
    }

    twostate predicate SameFlags()
      reads this
    {
      freezeStart == old(freezeStart) && freezeEnd == old(freezeEnd)
    }

    // Every chain gained is newly allocated.
    twostate predicate GainsFresh()
      reads this
    {
      forall c | c in chains && c !in old(chains) :: fresh(c) && fresh(c.buffer) && !c.immutable
    }

    // *last_with_datap
    function LastWithData(): (c: Chain?)
      requires Body()
      reads *
      ensures c == if chains == [] then null else chains[lwd]
    {
      if lastWithDatap == null then first else lastWithDatap.next
    }

    constructor ()
      ensures Valid() && Contents() == [] && chains == []
      ensures !freezeStart && !freezeEnd
    {
      first, last, lastWithDatap, totalLen := null, null, null, 0;
      freezeStart, freezeEnd := false, false;
      chains, datas, lwd := [], [], 0;
    }

    method Header(f: Chain?, l: Chain?, p: Chain?, n: nat, ghost cs: seq<Chain>, ghost ds: seq<seq<byte>>, ghost w: nat)
      modifies this
      ensures first == f && last == l && lastWithDatap == p && totalLen == n
      ensures chains == cs && datas == ds && lwd == w && SameFlags()
    {
      first, last, lastWithDatap, totalLen := f, l, p, n;
      chains, datas, lwd := cs, ds, w;
    }

    method FillTail(c: Chain, data: seq<byte>)
      requires Valid() && chains != [] && c == chains[lwd] && !c.immutable && |data| <= c.SpaceLen()
      modifies this, c`off, c.buffer
      ensures Valid() && chains == old(chains) && lwd == old(lwd)
      ensures Contents() == old(Contents()) + data
      ensures SameFlags()
    {
      GrowAtLwd(datas, lwd, data);
      ghost var d := datas[lwd];
      totalLen, datas := totalLen + |data|, datas[lwd := d + data];
      c.Append(data, d);
    }

    method FreeTrailingEmptyChains() returns (chp: Chain?)
      requires Valid()
      modifies this, chains`next
      ensures Core()
      ensures var k := Kept(old(datas), old(lwd));
        && lwd == old(lwd)
        && chains == old(chains)[..k]
        && datas == old(datas)[..k]
        && chp == if k == 0 then null else chains[k - 1]
      ensures Contents() == old(Contents())
      ensures SameFlags()
    {
      chp := lastWithDatap;
      var ch := LastWithData();
      ghost var k := lwd;
      while ch != null && ch.off != 0
        invariant k <= |chains|
        invariant chp == if k == 0 then null else chains[k - 1]
        invariant ch == if k == |chains| then null else chains[k]
        invariant lwd <= k <= Kept(datas, lwd) || (k == lwd == 0)
        decreases |chains| - k
      {
        assert chains[k].Holds(datas[k]);
        chp, ch, k := ch, ch.next, k + 1;
      }
      assert ch != null ==> chains[k].Holds(datas[k]);
      assert k == Kept(datas, lwd);
      DroppedAreEmpty(datas, lwd);
      if ch != null {
        if chp != null { chp.next := null; }
        Header(if chp == null then null else first, last, lastWithDatap, totalLen, chains[..k], datas[..k], lwd);
      }
    }

    /** A chain that can be linked in: unknown to this buffer and sharing no writable memory with it. */
    ghost predicate Linkable(c: Chain)
      reads this
    {
      c !in chains && forall d | d in chains :: d.buffer != c.buffer || (d.immutable && c.immutable)
    }

    // *chp = chain, and the bookkeeping that goes with it.
    method Attach(chp: Chain?, chain: Chain, ghost data: seq<byte>)
      requires Core() && Linkable(chain) && chain.Holds(data) && chain.next == null
      requires Kept(datas, lwd) == |chains|
      requires chp == if chains == [] then null else chains[|chains| - 1]
      modifies this, chains`next
      ensures Valid() && SameFlags()
      ensures chains == old(chains) + [chain] && datas == old(datas) + [data]
      ensures lwd == if data != [] then |old(chains)| else old(lwd)
    {
      if chp != null { chp.next := chain; }
      assert |Concat(datas + [data])| == totalLen + |data| by { ConcatSnoc(datas, data); }
      Header(if chp == null then chain else first, chain, if chain.off > 0 then chp else lastWithDatap, totalLen + chain.off,
        chains + [chain], datas + [data], if data != [] then |chains| else lwd);
    }

    // The place behind the last chain that is kept: evbuffer_free_trailing_empty_chains, if there are chains.
    method FreeTail() returns (chp: Chain?)
      requires Valid()
      modifies this, chains`next
      ensures Core() && SameFlags() && lwd == old(lwd)
      ensures chains == old(chains)[..Kept(old(datas), old(lwd))] && Kept(datas, lwd) == |chains|
      ensures chp == if chains == [] then null else chains[|chains| - 1]
      ensures Contents() == old(Contents())
    {
      chp := null;
      if LastWithData() != null {
        chp := FreeTrailingEmptyChains();
      }
    }

    method ChainInsert(chain: Chain, ghost data: seq<byte>)
      requires Valid() && Linkable(chain) && chain.Holds(data) && chain.next == null
      modifies this, chains`next
      ensures Valid() && SameFlags()
      ensures chains == old(chains)[..Kept(old(datas), old(lwd))] + [chain]
      ensures Contents() == old(Contents()) + data
      ensures lwd == if data != [] then |chains| - 1 else old(lwd)
    {
      var chp := FreeTail();
      ConcatSnoc(datas, data);
      assert Linkable(chain) && chain.Holds(data);
      Attach(chp, chain, data);
    }

    // evbuffer_chain_align on the k-th chain.
    method AlignChain(c: Chain, ghost k: nat)
      requires Valid() && k < |chains| && c == chains[k] && !c.immutable
      modifies c`misalign, c.buffer
      ensures Valid() && c.misalign == 0
    {
      c.Align(datas[k]);
    }

    method Add(data: seq<byte>) returns (r: int)
      requires Valid()
      modifies this, chains, Memory()
      ensures Valid() && SameFlags() && GainsFresh()
      ensures r == if freezeEnd || |data| > SIZE_MAX - old(totalLen) || |data| > CHAIN_MAX - CHAIN_HEADER then -1 else 0
      ensures Contents() == old(Contents()) + if r == 0 then data else []
    {
      if freezeEnd { return -1; }
      if |data| > SIZE_MAX - totalLen { return -1; }
      var chain := LastWithData();
      if chain == null {
        chain := ChainNew(|data|);
        if chain == null { return -1; }
        ChainInsert(chain, []);
      }
      var remain := 0;
      assert chain == chains[lwd] && chain.Holds(datas[lwd]);
      if !chain.immutable {
        remain := chain.SpaceLen();
        if remain >= |data| {
          FillTail(chain, data);
          return 0;
        } else if chain.ShouldRealign(|data|) {
          AlignChain(chain, lwd);
          FillTail(chain, data);
          return 0;
        }
      }
      r := AddChain(chain, data, remain);
    }

    method TopUp(c: Chain, data: seq<byte>)
      requires Valid() && chains != [] && c == chains[lwd]
      requires data != [] ==> !c.immutable && c.misalign + c.off + |data| <= c.buffer.Length
      modifies this, c, Memory()
      ensures Valid() && SameFlags() && chains == old(chains)
      ensures Contents() == old(Contents()) + data
    {
      if data != [] {
        FillTail(c, data);
      }
    }

    // The end of evbuffer_add: fill the tail, then put the rest in a new chain.
    method AddChain(chain: Chain, data: seq<byte>, remain: nat) returns (r: int)
      requires Valid() && chains != [] && chain == chains[lwd]
      requires remain == chain.SpaceLen() <= |data|
      modifies this, chains, Memory()
      ensures Valid() && SameFlags() && GainsFresh()
      ensures r == if |data| > CHAIN_MAX - CHAIN_HEADER then -1 else 0
      ensures Contents() == old(Contents()) + if r == 0 then data else []
    {
      var toAlloc := chain.buffer.Length;
      assert chain.Holds(datas[lwd]);
      if toAlloc <= MAX_AUTO_SIZE / 2 { toAlloc := toAlloc * 2; }
      if |data| > toAlloc { toAlloc := |data|; }
      var tmp := ChainWith(toAlloc, data[remain..]);
      if tmp == null { return -1; }
      TopUp(chain, data[..remain]);
      InsertRest(tmp, data[remain..]);
      RejoinTail(old(Contents()), data, remain);
      r := 0;
    }

    method InsertRest(tmp: Chain, ghost data: seq<byte>)
      requires Valid() && Linkable(tmp) && tmp.Holds(data) && tmp.next == null
      modifies this, chains`next
      ensures Valid() && SameFlags() && Contents() == old(Contents()) + data
      ensures forall c | c in chains :: c in old(chains) || c == tmp
    {
      ChainInsert(tmp, data);
    }

    // Writes `data` in front of the bytes of the first chain.
    method FillHead(c: Chain, data: seq<byte>)
      requires Valid() && chains != [] && c == chains[0] && !c.immutable && |data| <= c.HeadRoom()
      modifies this, c`off, c`misalign, c.buffer
      ensures Valid() && SameFlags() && chains == old(chains)
      ensures Contents() == data + old(Contents())
    {
      GrowAtHead(datas, lwd, data);
      ghost var d := datas[0];
      totalLen, datas := totalLen + |data|, datas[0 := data + d];
      if c.off == 0 { c.misalign := c.buffer.Length; }
      c.Push(data, d);
    }

    // Makes `tmp` the first chain, in front of the list `rest`.
    method InstallHead(tmp: Chain, next: Chain, lw: Chain?, total: nat, ghost rest: seq<Chain>, ghost ds: seq<seq<byte>>, ghost w: nat)
      requires rest != [] && ds != [] && Segment(rest, ds[1..]) && Distinct([tmp] + rest) && tmp.Holds(ds[0])
      requires next == rest[0] && last == rest[|rest| - 1] && total == |Concat(ds)|
      requires LwdOk(ds, w) && lw == if w == 0 then null else ([tmp] + rest)[w - 1]
      modifies this, tmp`next
      ensures Valid() && SameFlags() && chains == [tmp] + rest && datas == ds
    {
      tmp.next := next;
      Header(tmp, last, lw, total, [tmp] + rest, ds, w);
    }

    // evbuffer_prepend, once the new chain is filled: make it the first one.
    method LinkHead(tmp: Chain, ghost data: seq<byte>)
      requires Valid() && chains != [] && Linkable(tmp) && tmp.Holds(data) && data != []
      modifies this, tmp`next
      ensures Valid() && SameFlags() && chains == [tmp] + old(chains)
      ensures Contents() == data + old(Contents())
    {
      assert first.Holds(datas[0]);
      NewHead(datas, lwd, data);
      DistinctCons(tmp, chains);
      ghost var w: nat := if Kept(datas, lwd) == 0 then 0 else lwd + 1;
      var lw := if lastWithDatap == null && first.off > 0 then tmp else lastWithDatap;
      assert ([data] + datas)[1..] == datas;
      InstallHead(tmp, first, lw, totalLen + tmp.off, chains, [data] + datas, w);
    }

    ghost predicate PrependRefused(data: seq<byte>)
      reads this
    {
      data != [] && (freezeStart || |data| > SIZE_MAX - totalLen)
    }

    /** How many bytes go in front of the first chain without another one. */
    ghost function FrontRoom(): nat
      reads *
    {
      if first == null || first.immutable then 0 else first.HeadRoom()
    }

    // evbuffer_prepend. If the bytes that need another chain are too many, the others have been put in front already.
    method Prepend(data: seq<byte>) returns (r: int)
      requires Valid()
      modifies this, chains, Memory()
      ensures Valid() && SameFlags() && GainsFresh()
      ensures old(PrependRefused(data)) ==> r == -1 && Contents() == old(Contents())
      ensures var left := Max(0, |data| - old(FrontRoom()));
        && (!old(PrependRefused(data)) ==> r == if left > CHAIN_MAX - CHAIN_HEADER then -1 else 0)
        && (!old(PrependRefused(data)) ==> Contents() == (if r == 0 then data else data[left..]) + old(Contents()))
    {
      if |data| == 0 { assert data + Contents() == Contents(); return 0; }
      if freezeStart || |data| > SIZE_MAX - totalLen { return -1; }
      var chain := first;
      if chain == null {
        assert data[|data|..] + Contents() == Contents();
        chain := ChainNew(|data|);
        if chain == null { return -1; }
        ChainInsert(chain, []);
      }
      r := PutInFront(chain, data);
    }

    // evbuffer_prepend once there is a chain: fill what is in front of its bytes, then put the rest in a new chain.
    method PutInFront(chain: Chain, data: seq<byte>) returns (r: int)
      requires Valid() && chains != [] && chain == chains[0]
      modifies this, chains, Memory()
      ensures Valid() && SameFlags() && GainsFresh()
      ensures var left := Max(0, |data| - old(FrontRoom()));
        && r == (if left > CHAIN_MAX - CHAIN_HEADER then -1 else 0)
        && Contents() == (if r == 0 then data else data[left..]) + old(Contents())
    {
      var left := FillFront(chain, data);
      RejoinHead(data, left, old(Contents()));
      r := PrependChain(data[..left]);
    }

    // Fills what is in front of the bytes of the first chain; returns how many bytes are left over.
    method FillFront(chain: Chain, data: seq<byte>) returns (left: nat)
      requires Valid() && chains != [] && chain == chains[0]
      modifies this, chains, Memory()
      ensures Valid() && SameFlags() && chains == old(chains) && left == Max(0, |data| - old(FrontRoom()))
      ensures Contents() == data[left..] + old(Contents())
    {
      left := |data|;
      if chain.immutable {
        assert data[left..] + Contents() == Contents();
        return;
      }
      assert chain.Holds(datas[0]);
      var room := chain.HeadRoom();
      left := if room >= |data| then 0 else |data| - room;
      FillHead(chain, data[left..]);
    }

    method PrependChain(data: seq<byte>) returns (r: int)
      requires Valid() && chains != []
      modifies this, chains, Memory()
      ensures Valid() && SameFlags() && GainsFresh()
      ensures r == if |data| > CHAIN_MAX - CHAIN_HEADER then -1 else 0
      ensures Contents() == if r == 0 then data + old(Contents()) else old(Contents())
    {
      if data == [] { return 0; }
      var tmp := ChainNew(|data|);
      if tmp == null { return -1; }
      tmp.misalign := tmp.buffer.Length;
      tmp.Push(data, []);
      assert data + [] == data;
      LinkHead(tmp, data);
      r := 0;
    }

    method Drain(len: nat) returns (r: int)
      requires Valid()
      modifies this, chains
      ensures Valid() && SameFlags()
      ensures r == if old(totalLen) > 0 && freezeStart then -1 else 0
      ensures Contents() == if r == 0 then old(Contents())[Min(len, |old(Contents())|)..] else old(Contents())
      ensures |chains| <= |old(chains)| && chains == old(chains)[|old(chains)| - |chains|..]
    {
      if totalLen == 0 { return 0; }
      if freezeStart { return -1; }
      if len >= totalLen {
        Header(null, null, null, 0, [], [], 0);
        return 0;
      }
      var remaining, chain, lw := len, first, lastWithDatap;
      ghost var k := 0;
      while remaining >= chain.off
        invariant Valid()
        invariant k <= lwd && k < |chains| && chain == chains[k]
        invariant chain.Holds(datas[k])
        invariant 0 <= remaining == len - |Concat(datas[..k])|
        invariant lw == if k == lwd then null else lastWithDatap
        decreases lwd - k
        modifies {}
      {
        PrefixStopsAtLwd(datas, lwd, k, len);
        if chain == lastWithDatap { lw := null; }
        remaining := remaining - chain.off;
        chain, k := chain.next, k + 1;
        assert chain.Holds(datas[k]);
      }
      TrimHead(chain, lw, totalLen - len, remaining, k);
      r := 0;
    }

    // Makes `chain` the first chain and drops its first `n` bytes.
    method TrimHead(chain: Chain, lw: Chain?, total: nat, n: nat, ghost k: nat)
      requires Valid() && k <= lwd && k < |chains| && chain == chains[k] && n < |datas[k]|
      requires lw == (if k == lwd then null else lastWithDatap) && total == totalLen - |Concat(datas[..k])| - n
      modifies this, chain`off, chain`misalign
      ensures Valid() && SameFlags() && chains == old(chains)[k..] && lwd == old(lwd) - k
      ensures Contents() == old(Contents()[|Concat(datas[..k])| + n..])
    {
      DropFront(datas, lwd, k, n);
      ghost var d := datas[k];
      assert chain.Holds(d);
      Header(chain, last, lw, total, chains[k..], datas[k..][0 := datas[k][n..]], lwd - k);
      chain.Skip(n, d);
      forall i {:trigger datas[i]} | 0 <= i < |chains|
        ensures chains[i].Holds(datas[i])
      {
        if i > 0 {
          assert chains[i] == old(chains)[k + i] && old(chains[k + i].Holds(datas[k + i]));
        }
      }
    }

    // evbuffer_add_reference: the content grows by bytes this buffer will never write.
    method AddReference(mem: array<byte>) returns (r: int)
      requires Valid() && mem.Length <= CHAIN_MAX - CHAIN_HEADER
      requires mem !in Memory()
      modifies this, chains`next
      ensures Valid() && SameFlags()
      ensures r == if freezeEnd then -1 else 0
      ensures Contents() == old(Contents()) + if r == 0 then mem[..] else []
      ensures mem !in Memory()
      ensures forall c | c in chains && c !in old(chains) :: fresh(c) && c.immutable && c.buffer == mem
    {
      var chain := new Chain.Reference(mem);
      if freezeEnd { return -1; }
      ChainInsert(chain, mem[..]);
      r := 0;
    }
  }
}
