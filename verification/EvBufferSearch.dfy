// Positions in an evbuffer, searches across chain boundaries, and reading lines.
module EvBufferSearch {
  import opened Bytes
  import opened EvBuffers

  /** struct evbuffer_ptr */
  datatype Ptr = Ptr(pos: int, chain: Chain?, posInChain: nat)

  const NotFound := Ptr(-1, null, 0)

  /** `p` designates byte `p.pos` of the content, which is in chain `k`, or the end if there is no such chain. */
  ghost predicate PtrAt(buf: EvBuffer, p: Ptr, k: nat)
    reads *
  {
    && k <= |buf.chains| == |buf.datas|
    && p.pos == |Concat(buf.datas[..k])| + p.posInChain
    && (if k < |buf.chains| then p.chain == buf.chains[k] && p.posInChain <= |buf.datas[k]|
        else p.chain == null && p.posInChain == 0)
  }

  ghost predicate PtrOk(buf: EvBuffer, p: Ptr)
    reads *
  {
    exists k: nat :: PtrAt(buf, p, k)
  }

  /** The chain of `p` holds a stretch of the content. */
  lemma {:induction false} InChain(buf: EvBuffer, p: Ptr, k: nat)
    requires buf.Valid() && PtrAt(buf, p, k) && k < |buf.chains|
    ensures p.chain.Holds(buf.datas[k]) && p.chain.Bytes() == buf.datas[k]
    ensures |Concat(buf.datas[..k + 1])| == |Concat(buf.datas[..k])| + |buf.datas[k]|
    ensures var base := p.pos - p.posInChain;
      && 0 <= base <= base + |buf.datas[k]| <= |buf.Contents()|
      && forall j {:trigger buf.Contents()[j]} | base <= j < base + |buf.datas[k]| :: buf.Contents()[j] == buf.datas[k][j - base]
  {
    ConcatTakeNext(buf.datas, k);
    ConcatAt(buf.datas, k);
    assert p.chain.Holds(buf.datas[k]);
  }

  lemma {:induction false} AtEnd(buf: EvBuffer, p: Ptr)
    requires buf.Valid() && PtrAt(buf, p, |buf.chains|)
    ensures p.pos == |buf.Contents()|
  {
    assert buf.datas[..|buf.chains|] == buf.datas;
  }

  lemma {:induction false} AtStart(buf: EvBuffer)
    requires buf.Valid()
    ensures PtrAt(buf, Ptr(0, buf.first, 0), 0) && PtrOk(buf, Ptr(0, buf.first, 0))
  {
    assert PtrAt(buf, Ptr(0, buf.first, 0), 0);
  }

  lemma {:induction false} PtrBounds(buf: EvBuffer, p: Ptr, k: nat)
    requires buf.Valid() && PtrAt(buf, p, k)
    ensures 0 <= p.pos <= |buf.Contents()|
  {
    if k < |buf.chains| { InChain(buf, p, k); } else { AtEnd(buf, p); }
  }

  /** `d` is the stretch of `s` that starts at `base`. */
  ghost predicate Stretch(s: seq<byte>, base: int, d: seq<byte>) {
    0 <= base && base + |d| <= |s| && forall j {:trigger s[j]} | base <= j < base + |d| :: s[j] == d[j - base]
  }

  // The bytes of the chain that `it` is in, and the position after it.
  method Load(buf: EvBuffer, it: Ptr, ghost k: nat) returns (d: seq<byte>, next: Ptr)
    requires buf.Valid() && PtrAt(buf, it, k) && it.chain != null
    ensures k < |buf.chains| && it.posInChain <= |d| && Stretch(buf.Contents(), it.pos - it.posInChain, d)
    ensures next.pos == it.pos - it.posInChain + |d| && next.posInChain == 0 && PtrAt(buf, next, k + 1)
    ensures d == buf.datas[k]
  {
    InChain(buf, it, k);
    d := it.chain.Bytes();
    next := Ptr(it.pos - it.posInChain + |d|, it.chain.next, 0);
  }

  lemma {:induction false} MoveIn(buf: EvBuffer, it: Ptr, k: nat, i: nat)
    requires PtrAt(buf, it, k) && k < |buf.chains| && i <= |buf.datas[k]|
    ensures PtrAt(buf, Ptr(it.pos - it.posInChain + i, it.chain, i), k)
    ensures PtrOk(buf, Ptr(it.pos - it.posInChain + i, it.chain, i))
  {
    assert PtrAt(buf, Ptr(it.pos - it.posInChain + i, it.chain, i), k);
  }

  // memchr over d[from..]
  method MemChr(d: seq<byte>, from: nat, b: byte) returns (i: int)
    requires from <= |d|
    ensures i == -1 || from <= i < |d|
    ensures i >= 0 ==> d[i] == b
    ensures forall j | from <= j < (if i >= 0 then i else |d|) :: d[j] != b
  {
    for k := from to |d|
      invariant forall j | from <= j < k :: d[j] != b
    {
      if d[k] == b { return k; }
    }
    i := -1;
  }

  // One round of the loop of evbuffer_strchr: where `b` is in the chain of `it`, or the position after the chain.
  method ChrInChain(buf: EvBuffer, it: Ptr, b: byte, ghost k: nat) returns (r: Ptr, found: bool)
    requires buf.Valid() && PtrAt(buf, it, k) && it.chain != null
    ensures it.pos <= r.pos <= |buf.Contents()| && PtrAt(buf, r, if found then k else k + 1)
    ensures found ==> r.chain != null && r.pos < |buf.Contents()| && buf.Contents()[r.pos] == b
    ensures forall j | it.pos <= j < r.pos :: buf.Contents()[j] != b
  {
    var d, next := Load(buf, it, k);
    var i := MemChr(d, it.posInChain, b);
    if i < 0 { return next, false; }
    MoveIn(buf, it, k, i);
    return Ptr(it.pos - it.posInChain + i, it.chain, i), true;
  }

  // evbuffer_strchr
  method Strchr(buf: EvBuffer, start: Ptr, b: byte) returns (it: Ptr, found: bool)
    requires buf.Valid() && PtrOk(buf, start)
    ensures found ==> PtrOk(buf, it) && it.chain != null && start.pos <= it.pos < |buf.Contents()| && buf.Contents()[it.pos] == b
    ensures forall j | start.pos <= j < (if found then it.pos else |buf.Contents()|) :: buf.Contents()[j] != b
  {
    it := start;
    ghost var k: nat :| PtrAt(buf, start, k);
    ghost var s := buf.Contents();
    PtrBounds(buf, start, k);
    while it.chain != null
      invariant PtrAt(buf, it, k) && start.pos <= it.pos <= |s|
      invariant forall j | start.pos <= j < it.pos :: s[j] != b
      decreases |buf.chains| - k
    {
      it, found := ChrInChain(buf, it, b, k);
      if found { return; }
      k := k + 1;
    }
    AtEnd(buf, it);
    found := false;
  }

  const CR: byte := 13
  const LF: byte := 10
  const CHUNK_SZ: nat := 128

  predicate IsEolChar(b: byte) { b == CR || b == LF }

  // find_eol_char over d[from..]: memchr for both characters, a chunk at a time.
  method FindEolCharIn(d: seq<byte>, from: nat) returns (i: int)
    requires from <= |d|
    ensures i == -1 || from <= i < |d|
    ensures i >= 0 ==> IsEolChar(d[i])
    ensures forall j | from <= j < (if i >= 0 then i else |d|) :: !IsEolChar(d[j])
  {
    var s := from;
    while s < |d|
      invariant from <= s
      invariant forall j | from <= j < s && j < |d| :: !IsEolChar(d[j])
    {
      var chunk := if s + CHUNK_SZ < |d| then CHUNK_SZ else |d| - s;
      var cr := MemChr(d[..s + chunk], s, CR);
      var lf := MemChr(d[..s + chunk], s, LF);
      assert forall j | s <= j < s + chunk :: d[..s + chunk][j] == d[j];
      if cr >= 0 {
        if lf >= 0 && lf < cr { return lf; }
        return cr;
      } else if lf >= 0 {
        return lf;
      }
      s := s + CHUNK_SZ;
    }
    i := -1;
  }

  // One round of the loop of evbuffer_find_eol_char.
  method EolCharInChain(buf: EvBuffer, it: Ptr, ghost k: nat) returns (r: Ptr, found: bool)
    requires buf.Valid() && PtrAt(buf, it, k) && it.chain != null
    ensures it.pos <= r.pos <= |buf.Contents()| && PtrAt(buf, r, if found then k else k + 1)
    ensures found ==> r.chain != null && r.pos < |buf.Contents()| && IsEolChar(buf.Contents()[r.pos])
    ensures forall j | it.pos <= j < r.pos :: !IsEolChar(buf.Contents()[j])
  {
    var d, next := Load(buf, it, k);
    var i := FindEolCharIn(d, it.posInChain);
    if i < 0 { return next, false; }
    MoveIn(buf, it, k, i);
    return Ptr(it.pos - it.posInChain + i, it.chain, i), true;
  }

  // evbuffer_find_eol_char
  method FindEolChar(buf: EvBuffer, start: Ptr) returns (it: Ptr, found: bool)
    requires buf.Valid() && PtrOk(buf, start)
    ensures found ==> PtrOk(buf, it) && it.chain != null && start.pos <= it.pos < |buf.Contents()| && IsEolChar(buf.Contents()[it.pos])
    ensures forall j | start.pos <= j < (if found then it.pos else |buf.Contents()|) :: !IsEolChar(buf.Contents()[j])
  {
    it := start;
    ghost var k: nat :| PtrAt(buf, start, k);
    ghost var s := buf.Contents();
    PtrBounds(buf, start, k);
    while it.chain != null
      invariant PtrAt(buf, it, k) && start.pos <= it.pos <= |s|
      invariant forall j | start.pos <= j < it.pos :: !IsEolChar(s[j])
      decreases |buf.chains| - k
    {
      it, found := EolCharInChain(buf, it, k);
      if found { return; }
      k := k + 1;
    }
    AtEnd(buf, it);
    found := false;
  }

  // The inner loop of evbuffer_strspn.
  method SpanIn(d: seq<byte>, from: nat, chrset: set<byte>) returns (i: nat)
    requires from <= |d|
    ensures from <= i <= |d|
    ensures forall j | from <= j < i :: d[j] in chrset
    ensures i < |d| ==> d[i] !in chrset
  {
    i := from;
    while i < |d| && d[i] in chrset
      invariant from <= i <= |d|
      invariant forall j | from <= j < i :: d[j] in chrset
    {
      i := i + 1;
    }
  }

  // One round of the loop of evbuffer_strspn: `n` bytes of the chain from `it` on are in `chrset`.
  method SpanInChain(buf: EvBuffer, it: Ptr, chrset: set<byte>, ghost k: nat) returns (n: nat, next: Ptr, all: bool)
    requires buf.Valid() && PtrAt(buf, it, k) && it.chain != null
    ensures PtrAt(buf, next, k + 1) && it.pos + n <= next.pos <= |buf.Contents()|
    ensures forall j | it.pos <= j < it.pos + n :: buf.Contents()[j] in chrset
    ensures if all then next.pos == it.pos + n else it.pos + n < |buf.Contents()| && buf.Contents()[it.pos + n] !in chrset
  {
    var d;
    d, next := Load(buf, it, k);
    var i := SpanIn(d, it.posInChain, chrset);
    n, all := i - it.posInChain, i == |d|;
  }

  // evbuffer_strspn: how many bytes from `start` on are in `chrset`.
  method Strspn(buf: EvBuffer, start: Ptr, chrset: set<byte>) returns (count: nat)
    requires buf.Valid() && PtrOk(buf, start)
    ensures 0 <= start.pos <= start.pos + count <= |buf.Contents()|
    ensures forall j | start.pos <= j < start.pos + count :: buf.Contents()[j] in chrset
    ensures start.pos + count < |buf.Contents()| ==> buf.Contents()[start.pos + count] !in chrset
  {
    count := 0;
    var it := start;
    ghost var k: nat :| PtrAt(buf, start, k);
    ghost var s := buf.Contents();
    PtrBounds(buf, start, k);
    while it.chain != null
      invariant PtrAt(buf, it, k) && it.pos == start.pos + count <= |s|
      invariant forall j | start.pos <= j < start.pos + count :: s[j] in chrset
      decreases |buf.chains| - k
    {
      var n, next, all := SpanInChain(buf, it, chrset, k);
      count := count + n;
      if !all { return; }
      it, k := next, k + 1;
    }
    AtEnd(buf, it);
    assert start.pos + count == |s|;
  }

  ghost predicate OccursAt(s: seq<byte>, what: seq<byte>, j: int) {
    0 <= j && j + |what| <= |s| && s[j..j + |what|] == what
  }

  // memcmp(d + from, what + done, n) == 0
  method MemEq(d: seq<byte>, from: nat, what: seq<byte>, done: nat, n: nat) returns (eq: bool)
    requires from + n <= |d| && done + n <= |what|
    ensures eq <==> d[from..from + n] == what[done..done + n]
  {
    for i := 0 to n
      invariant d[from..from + i] == what[done..done + i]
    {
      if d[from + i] != what[done + i] {
        assert d[from..from + n][i] != what[done..done + n][i];
        return false;
      }
      assert d[from..from + i + 1] == d[from..from + i] + [d[from + i]];
      assert what[done..done + i + 1] == what[done..done + i] + [what[done + i]];
    }
    eq := true;
  }

  /** The first `done` bytes of `what` are at `pos`. */
  ghost predicate Agrees(s: seq<byte>, pos: int, what: seq<byte>, done: nat) {
    && 0 <= pos && pos + |what| <= |s| && done <= |what|
    && forall j {:trigger what[j]} | 0 <= j < done :: s[pos + j] == what[j]
  }

  lemma {:induction false} AgreesFully(s: seq<byte>, pos: int, what: seq<byte>)
    requires 0 <= pos && pos + |what| <= |s|
    ensures Agrees(s, pos, what, |what|) <==> OccursAt(s, what, pos)
  {
    if OccursAt(s, what, pos) {
      forall j | 0 <= j < |what|
        ensures s[pos + j] == what[j]
      {
        assert s[pos..pos + |what|][j] == s[pos + j];
      }
    }
  }

  lemma {:induction false} MatchesFurther(s: seq<byte>, pos: int, what: seq<byte>, done: nat, d: seq<byte>, from: nat, n: nat)
    requires Agrees(s, pos, what, done) && done + n <= |what| && from + n <= |d|
    requires Stretch(s, pos + done - from, d)
    ensures d[from..from + n] == what[done..done + n] <==> Agrees(s, pos, what, done + n)
  {
    forall j | done <= j < done + n
      ensures s[pos + j] == d[from..from + n][j - done] && what[j] == what[done..done + n][j - done]
    {
    }
    if Agrees(s, pos, what, done + n) {
      forall j | done <= j < done + n
        ensures d[from..from + n][j - done] == what[j]
      {
        assert s[pos + j] == what[j];
      }
      assert forall i {:trigger what[done..done + n][i]} | 0 <= i < n :: what[done..done + n][i] == what[done + i];
    }
  }

  // One round of the loop of evbuffer_ptr_memcmp.
  method MatchChain(d: seq<byte>, from: nat, what: seq<byte>, done0: nat, ghost s: seq<byte>, ghost pos: int)
    returns (same: bool, done: nat)
    requires from <= |d| && done0 < |what| && Agrees(s, pos, what, done0) && Stretch(s, pos + done0 - from, d)
    ensures if same then Agrees(s, pos, what, done) && (done < |what| ==> done == done0 + |d| - from)
            else !OccursAt(s, what, pos)
  {
    AgreesFully(s, pos, what);
    var n := if |what| - done0 + from > |d| then |d| - from else |what| - done0;
    MatchesFurther(s, pos, what, done0, d, from, n);
    same := MemEq(d, from, what, done0, n);
    done := done0 + n;
  }

  // evbuffer_ptr_memcmp, as far as its callers look: whether `what` is at `start`.
  method PtrMatches(buf: EvBuffer, start: Ptr, what: seq<byte>) returns (eq: bool)
    requires buf.Valid() && PtrOk(buf, start)
    ensures eq <==> OccursAt(buf.Contents(), what, start.pos)
  {
    ghost var k: nat :| PtrAt(buf, start, k);
    ghost var s := buf.Contents();
    PtrBounds(buf, start, k);
    if start.pos + |what| > buf.totalLen { return false; }
    var it, done: nat := start, 0;
    while done < |what| && it.chain != null
      invariant PtrAt(buf, it, k) && (done < |what| ==> it.pos == start.pos + done)
      invariant Agrees(s, start.pos, what, done)
      decreases |buf.chains| - k
    {
      var d, next := Load(buf, it, k);
      var same;
      same, done := MatchChain(d, it.posInChain, what, done, s, start.pos);
      if !same { return false; }
      it, k := next, k + 1;
    }
    if done < |what| { AtEnd(buf, it); }
    AgreesFully(s, start.pos, what);
    eq := true;
  }

  /** No occurrence of `what` starts in s[from..to]. */
  ghost predicate Clear(s: seq<byte>, what: seq<byte>, from: int, to: int) {
    forall j | from <= j < to :: !OccursAt(s, what, j)
  }

  lemma {:induction false} ClearOf(s: seq<byte>, what: seq<byte>, d: seq<byte>, base: int, from: nat, to: nat)
    requires what != [] && Stretch(s, base, d) && from <= to <= |d|
    requires forall i | from <= i < to :: d[i] != what[0]
    ensures Clear(s, what, base + from, base + to)
  {
    forall j | base + from <= j < base + to
      ensures !OccursAt(s, what, j)
    {
      StartsWithFirst(s, what, j);
      assert s[j] == d[j - base];
    }
  }

  lemma {:induction false} StartsWithFirst(s: seq<byte>, what: seq<byte>, j: int)
    requires what != []
    ensures OccursAt(s, what, j) ==> s[j] == what[0]
  {
    if OccursAt(s, what, j) {
      assert s[j..j + |what|][0] == s[j];
    }
  }

  // memchr for the first byte of `what` in the chain of `it`.
  method FirstByte(buf: EvBuffer, it0: Ptr, d: seq<byte>, what: seq<byte>, ghost k: nat) returns (it: Ptr, present: bool)
    requires buf.Valid() && PtrAt(buf, it0, k) && k < |buf.chains| && d == buf.datas[k] && what != []
    requires Stretch(buf.Contents(), it0.pos - it0.posInChain, d)
    ensures PtrAt(buf, it, k) && it.chain == it0.chain && it.pos - it.posInChain == it0.pos - it0.posInChain
    ensures it0.posInChain <= it.posInChain <= |d| && Clear(buf.Contents(), what, it0.pos, it.pos)
    ensures present <==> it.posInChain < |d|
  {
    var p := MemChr(d, it0.posInChain, what[0]);
    var to: nat := if p >= 0 then p else |d|;
    ClearOf(buf.Contents(), what, d, it0.pos - it0.posInChain, it0.posInChain, to);
    MoveIn(buf, it0, k, to);
    it := Ptr(it0.pos - it0.posInChain + to, it0.chain, to);
    present := p >= 0;
  }

  // Where the first byte of `what` comes next in the chain of `it`, and whether all of `what` is there. If it is not,
  // the search goes on one byte further.
  method Candidate(buf: EvBuffer, it0: Ptr, d: seq<byte>, what: seq<byte>, ghost k: nat)
    returns (it: Ptr, present: bool, eq: bool)
    requires buf.Valid() && PtrAt(buf, it0, k) && k < |buf.chains| && d == buf.datas[k] && what != []
    requires Stretch(buf.Contents(), it0.pos - it0.posInChain, d)
    ensures PtrAt(buf, it, k) && it.chain == it0.chain && it.pos - it.posInChain == it0.pos - it0.posInChain
    ensures it0.posInChain <= it.posInChain <= |d| && Clear(buf.Contents(), what, it0.pos, it.pos)
    ensures if present then (if eq then OccursAt(buf.Contents(), what, it.pos) else it0.posInChain < it.posInChain)
            else it.posInChain == |d|
  {
    it, present := FirstByte(buf, it0, d, what, k);
    if !present { return it, false, false; }
    eq := PtrMatches(buf, it, what);
    if !eq {
      MoveIn(buf, it, k, it.posInChain + 1);
      it := Ptr(it.pos + 1, it.chain, it.posInChain + 1);
    }
  }

  // The part of the loop of evbuffer_search_range that looks at one chain: the first place in it at which
  // `what` occurs, or the position after the chain. `missed` is set if the last memchr found nothing.
  method SearchChain(buf: EvBuffer, it0: Ptr, what: seq<byte>, ghost k: nat)
    returns (it: Ptr, found: bool, missed: bool)
    requires buf.Valid() && PtrAt(buf, it0, k) && it0.chain != null && what != []
    ensures it0.pos <= it.pos && Clear(buf.Contents(), what, it0.pos, it.pos)
    ensures if found then PtrAt(buf, it, k) && it.chain == it0.chain && OccursAt(buf.Contents(), what, it.pos)
            else PtrAt(buf, it, k + 1) && it.pos == it0.pos - it0.posInChain + |buf.datas[k]|
  {
    var d, next := Load(buf, it0, k);
    it := it0;
    while true
      invariant PtrAt(buf, it, k) && it.chain == it0.chain && it.pos - it.posInChain == it0.pos - it0.posInChain
      invariant it0.posInChain <= it.posInChain <= |d| && Clear(buf.Contents(), what, it0.pos, it.pos)
      decreases |d| - it.posInChain
    {
      var present, eq;
      it, present, eq := Candidate(buf, it, d, what, k);
      if !present { return next, false, true; }
      if eq { return it, true, false; }
      if it.posInChain == |d| { return next, false, false; }
    }
  }

  ghost predicate Misses(s: seq<byte>, what: seq<byte>, from: int, limit: int) {
    forall j | from <= j && OccursAt(s, what, j) :: j + |what| > limit
  }

  // evbuffer_search_range
  method SearchRange(buf: EvBuffer, what: seq<byte>, start: Option<Ptr>, end: Option<Ptr>) returns (r: Ptr)
    requires buf.Valid() && (start.Some? ==> PtrOk(buf, start.value)) && (end.Some? ==> PtrOk(buf, end.value))
    ensures var from := if start.Some? then start.value else Ptr(0, buf.first, 0);
      var limit := if end.Some? then end.value.pos else |buf.Contents()|;
      if what == [] || |what| > SSIZE_MAX then r == from
      else if r.pos >= 0 then
        && PtrOk(buf, r) && from.pos <= r.pos && r.pos + |what| <= limit
        && OccursAt(buf.Contents(), what, r.pos) && Clear(buf.Contents(), what, from.pos, r.pos)
      else r == NotFound && Misses(buf.Contents(), what, from.pos, limit)
  {
    AtStart(buf);
    ghost var s := buf.Contents();
    var it := if start.Some? then start.value else Ptr(0, buf.first, 0);
    var lastChain := if end.Some? then end.value.chain else null;
    if what == [] || |what| > SSIZE_MAX { return it; }
    ghost var from := it.pos;
    ghost var k: nat :| PtrAt(buf, it, k);
    while it.chain != null
      invariant PtrAt(buf, it, k) && from <= it.pos && Clear(s, what, from, it.pos)
      decreases |buf.chains| - k
    {
      var c := it.chain;
      var found, missed;
      ghost var k0 := k;
      it, found, missed := SearchChain(buf, it, what, k);
      if found {
        if end.Some? && it.pos + |what| > end.value.pos { return NotFound; }
        assert PtrOk(buf, it);
        return it;
      }
      if missed && c == lastChain {
        EndsInChain(buf, end.value, k);
        return NotFound;
      }
      k := k + 1;
    }
    AtEnd(buf, it);
    r := NotFound;
  }

  lemma {:induction false} EndsInChain(buf: EvBuffer, p: Ptr, k: nat)
    requires buf.Valid() && PtrOk(buf, p) && k < |buf.chains| && p.chain == buf.chains[k]
    ensures p.pos <= |Concat(buf.datas[..k])| + |buf.datas[k]|
  {
    var i: nat :| PtrAt(buf, p, i);
  }

  /** A position inside a chain rather than just after its last byte. */
  predicate Normal(p: Ptr)
    reads if p.chain != null then {p.chain} else {}
  {
    p.chain != null ==> p.posInChain < p.chain.off
  }

  datatype PtrHow = PtrSet | PtrAdd

  // evbuffer_ptr_set
  method SetPtr(buf: EvBuffer, p: Ptr, position: nat, how: PtrHow) returns (r: int, q: Ptr)
    requires buf.Valid() && (how.PtrAdd? ==> PtrOk(buf, p) || p.pos < 0)
    ensures how.PtrAdd? && (p.pos < 0 || SIZE_MAX - position < p.pos) ==> r == -1 && q == p
    ensures how.PtrSet? || (0 <= p.pos <= SIZE_MAX - position) ==>
      var target := if how.PtrSet? then position else p.pos + position;
      if target <= |buf.Contents()| then r == 0 && PtrOk(buf, q) && q.pos == target && Normal(q)
      else r == -1 && q == NotFound
  {
    var it, left: nat := Ptr(0, buf.first, 0), position;
    ghost var k: nat := 0;
    AtStart(buf);
    if how.PtrAdd? {
      if p.pos < 0 || SIZE_MAX - position < p.pos { return -1, p; }
      it := p;
      k :| PtrAt(buf, p, k);
    }
    ghost var target := it.pos + position;
    while it.chain != null && it.posInChain + left >= it.chain.off
      invariant PtrAt(buf, it, k) && it.pos + left == target
      decreases |buf.chains| - k
    {
      var d, next := Load(buf, it, k);
      left, it, k := left - (|d| - it.posInChain), next, k + 1;
    }
    r, q := Place(buf, it, left, k);
  }

  // The end of evbuffer_ptr_set: the position is in the chain of `it`, or there is no such chain.
  method Place(buf: EvBuffer, it: Ptr, left: nat, ghost k: nat) returns (r: int, q: Ptr)
    requires buf.Valid() && PtrAt(buf, it, k) && (it.chain != null ==> it.posInChain + left < it.chain.off)
    ensures if it.pos + left <= |buf.Contents()| then r == 0 && PtrOk(buf, q) && q.pos == it.pos + left && Normal(q)
            else r == -1 && q == NotFound
  {
    if it.chain != null {
      InChain(buf, it, k);
      MoveIn(buf, it, k, it.posInChain + left);
      return 0, Ptr(it.pos + left, it.chain, it.posInChain + left);
    }
    AtEnd(buf, it);
    if left == 0 { return 0, it; }
    return -1, NotFound;
  }

  // evbuffer_ptr_subtract
  method SubtractPtr(buf: EvBuffer, p: Ptr, howfar: nat) returns (r: int, q: Ptr)
    requires buf.Valid() && (PtrOk(buf, p) || p.pos < 0)
    ensures if p.pos < howfar then r == -1 && q == p else r == 0 && PtrOk(buf, q) && q.pos == p.pos - howfar
    ensures r == 0 && howfar > 0 ==> Normal(q)
  {
    if p.pos < 0 || howfar > p.pos { return -1, p; }
    ghost var k: nat :| PtrAt(buf, p, k);
    PtrBounds(buf, p, k);
    if p.chain != null { InChain(buf, p, k); }
    if p.chain != null && howfar <= p.posInChain {
      MoveIn(buf, p, k, p.posInChain - howfar);
      return 0, Ptr(p.pos - howfar, p.chain, p.posInChain - howfar);
    }
    r, q := SetPtr(buf, p, p.pos - howfar, PtrSet);
  }

  datatype EolStyle = EolAny | EolCrlf | EolCrlfStrict | EolLf | EolNul

  /** Line ends as the style defines them, on flat content: the first one from `from` on is s[pos..pos + len]. */
  ghost predicate FirstEol(s: seq<byte>, from: nat, style: EolStyle, pos: int, len: nat) {
    && from <= pos && 0 < len && pos + len <= |s|
    && match style
       case EolAny =>
         && (forall j | from <= j < pos :: !IsEolChar(s[j]))
         && (forall j | pos <= j < pos + len :: IsEolChar(s[j]))
         && (pos + len < |s| ==> !IsEolChar(s[pos + len]))
       case EolCrlfStrict => len == 2 && OccursAt(s, [CR, LF], pos) && Clear(s, [CR, LF], from, pos)
       case EolCrlf =>
         && s[pos + len - 1] == LF && (forall j | from <= j < pos + len - 1 :: s[j] != LF)
         && (if len == 2 then s[pos] == CR else len == 1 && (pos == from || s[pos - 1] != CR))
       case EolLf => len == 1 && s[pos] == LF && forall j | from <= j < pos :: s[j] != LF
       case EolNul => len == 1 && s[pos] == 0 && forall j | from <= j < pos :: s[j] != 0
  }

  ghost predicate NoEol(s: seq<byte>, from: nat, style: EolStyle) {
    match style
    case EolAny => forall j | from <= j < |s| :: !IsEolChar(s[j])
    case EolCrlfStrict => forall j | from <= j :: !OccursAt(s, [CR, LF], j)
    case EolNul => forall j | from <= j < |s| :: s[j] != 0
    case _ => forall j | from <= j < |s| :: s[j] != LF
  }

  // evbuffer_search_eol
  method SearchEol(buf: EvBuffer, start: Option<Ptr>, style: EolStyle) returns (it: Ptr, eolLen: nat)
    requires buf.Valid() && (start.Some? ==> PtrOk(buf, start.value))
    ensures var from := if start.Some? then start.value.pos else 0;
      && 0 <= from <= |buf.Contents()|
      && (if it.pos >= 0 then PtrOk(buf, it) && FirstEol(buf.Contents(), from, style, it.pos, eolLen)
          else it == NotFound && eolLen == 0 && NoEol(buf.Contents(), from, style))
  {
    AtStart(buf);
    var from := if start.Some? then start.value else Ptr(0, buf.first, 0);
    ghost var k: nat :| PtrAt(buf, from, k);
    PtrBounds(buf, from, k);
    if from.chain == null {
      AtEnd(buf, from);
      return NotFound, 0;
    }
    match style {
      case EolAny => it, eolLen := SearchAny(buf, from);
      case EolCrlfStrict =>
        it := SearchRange(buf, [CR, LF], Some(from), None);
        eolLen := if it.pos < 0 then 0 else 2;
      case EolCrlf => it, eolLen := SearchCrlf(buf, from);
      case EolLf => it, eolLen := SearchByte(buf, from, LF);
      case EolNul => it, eolLen := SearchByte(buf, from, 0);
    }
  }

  // The EVBUFFER_EOL_LF and EVBUFFER_EOL_NUL cases.
  method SearchByte(buf: EvBuffer, from: Ptr, b: byte) returns (it: Ptr, eolLen: nat)
    requires buf.Valid() && PtrOk(buf, from) && 0 <= from.pos
    ensures if it.pos >= 0 then
              && PtrOk(buf, it) && eolLen == 1 && from.pos <= it.pos < |buf.Contents()| && buf.Contents()[it.pos] == b
              && forall j | from.pos <= j < it.pos :: buf.Contents()[j] != b
            else it == NotFound && eolLen == 0 && forall j | from.pos <= j < |buf.Contents()| :: buf.Contents()[j] != b
  {
    var found;
    it, found := Strchr(buf, from, b);
    if !found { return NotFound, 0; }
    eolLen := 1;
  }

  // The EVBUFFER_EOL_ANY case.
  method SearchAny(buf: EvBuffer, from: Ptr) returns (it: Ptr, eolLen: nat)
    requires buf.Valid() && PtrOk(buf, from) && 0 <= from.pos
    ensures if it.pos >= 0 then PtrOk(buf, it) && FirstEol(buf.Contents(), from.pos, EolAny, it.pos, eolLen)
            else it == NotFound && eolLen == 0 && NoEol(buf.Contents(), from.pos, EolAny)
  {
    var found;
    it, found := FindEolChar(buf, from);
    if !found { return NotFound, 0; }
    eolLen := Strspn(buf, it, {CR, LF});
  }

  // The EVBUFFER_EOL_CRLF case.
  method SearchCrlf(buf: EvBuffer, from: Ptr) returns (it: Ptr, eolLen: nat)
    requires buf.Valid() && PtrOk(buf, from) && 0 <= from.pos
    ensures if it.pos >= 0 then PtrOk(buf, it) && FirstEol(buf.Contents(), from.pos, EolCrlf, it.pos, eolLen)
            else it == NotFound && eolLen == 0 && NoEol(buf.Contents(), from.pos, EolCrlf)
  {
    var found;
    it, found := Strchr(buf, from, LF);
    if !found { return NotFound, 0; }
    it, eolLen := BackUpOverCr(buf, it, from.pos);
  }

  // The end of the EVBUFFER_EOL_CRLF case: the LF may be preceded by a CR.
  method BackUpOverCr(buf: EvBuffer, lf: Ptr, startPos: int) returns (it: Ptr, eolLen: nat)
    requires buf.Valid() && PtrOk(buf, lf) && 0 <= startPos <= lf.pos < |buf.Contents()|
    ensures PtrOk(buf, it)
    ensures if lf.pos > startPos && buf.Contents()[lf.pos - 1] == CR then it.pos == lf.pos - 1 && eolLen == 2
            else it == lf && eolLen == 1
  {
    if lf.pos == startPos { return lf, 1; }
    var r, it2 := SubtractPtr(buf, lf, 1);
    var b := GetChr(buf, it2);
    if b == CR as int { return it2, 2; }
    return lf, 1;
  }

  // evbuffer_getchr
  method GetChr(buf: EvBuffer, it: Ptr) returns (b: int)
    requires buf.Valid() && PtrOk(buf, it) && it.pos < |buf.Contents()|
    requires Normal(it)
    ensures 0 <= it.pos && b == buf.Contents()[it.pos] as int
  {
    ghost var k: nat :| PtrAt(buf, it, k);
    if it.chain == null {
      AtEnd(buf, it);
      assert false;
    }
    InChain(buf, it, k);
    b := it.chain.buffer[it.chain.misalign + it.posInChain] as int;
    assert it.chain.Bytes()[it.posInChain] as int == b;
  }

  // evbuffer_copyout_from
  method CopyoutFrom(buf: EvBuffer, pos: Option<Ptr>, datlen: nat) returns (r: int, out: seq<byte>)
    requires buf.Valid() && (pos.Some? ==> PtrOk(buf, pos.value))
    ensures var from := if pos.Some? then pos.value.pos else 0;
      && 0 <= from <= |buf.Contents()|
      && (if pos.Some? && datlen > SSIZE_MAX - from then r == -1 && out == []
          else
            var n := Min(datlen, |buf.Contents()| - from);
            if n > 0 && buf.freezeStart then r == -1 && out == []
            else r == n && out == buf.Contents()[from..from + n])
  {
    AtStart(buf);
    var it := if pos.Some? then pos.value else Ptr(0, buf.first, 0);
    ghost var k: nat :| PtrAt(buf, it, k);
    PtrBounds(buf, it, k);
    if pos.Some? && datlen > SSIZE_MAX - it.pos { return -1, []; }
    var n := if datlen + it.pos > buf.totalLen then buf.totalLen - it.pos else datlen;
    if n == 0 { return 0, []; }
    if buf.freezeStart { return -1, []; }
    out := CopyBytes(buf, it, n);
    r := n;
  }

  // The copying loop of evbuffer_copyout_from.
  method CopyBytes(buf: EvBuffer, start: Ptr, n: nat) returns (out: seq<byte>)
    requires buf.Valid() && PtrOk(buf, start) && 0 <= start.pos && start.pos + n <= |buf.Contents()|
    ensures out == buf.Contents()[start.pos..start.pos + n]
  {
    ghost var s := buf.Contents();
    ghost var k: nat :| PtrAt(buf, start, k);
    var it, left: nat := start, n;
    out := [];
    while left > 0 && it.chain != null && left >= it.chain.off - it.posInChain
      invariant PtrAt(buf, it, k) && it.pos + left == start.pos + n
      invariant start.pos <= it.pos && out == s[start.pos..it.pos]
      decreases |buf.chains| - k
    {
      var m := it.chain.off - it.posInChain;
      var next;
      out, next := CopyPiece(buf, it, m, out, start.pos, k);
      it, left, k := next, left - m, k + 1;
      assert PtrAt(buf, it, k);
    }
    out := CopyRest(buf, it, left, out, start.pos, k);
  }

  // The end of evbuffer_copyout_from: what is left is in one chain.
  method CopyRest(buf: EvBuffer, it: Ptr, left: nat, out0: seq<byte>, ghost from: int, ghost k: nat) returns (out: seq<byte>)
    requires buf.Valid() && PtrAt(buf, it, k) && (it.chain != null ==> left == 0 || left < it.chain.off - it.posInChain)
    requires 0 <= from <= it.pos && it.pos + left <= |buf.Contents()| && out0 == buf.Contents()[from..it.pos]
    ensures out == buf.Contents()[from..it.pos + left]
  {
    if left == 0 { return out0; }
    if it.chain == null { AtEnd(buf, it); assert false; }
    var next;
    out, next := CopyPiece(buf, it, left, out0, from, k);
  }

  // memcpy of the first `m` bytes from `it` on that are in the same chain.
  method CopyPiece(buf: EvBuffer, it: Ptr, m: int, out0: seq<byte>, ghost from: int, ghost k: nat) returns (out: seq<byte>, next: Ptr)
    requires buf.Valid() && PtrAt(buf, it, k) && it.chain != null && m <= it.chain.off - it.posInChain
    requires 0 <= from <= it.pos <= |buf.Contents()| && out0 == buf.Contents()[from..it.pos]
    requires m >= 0 || m == it.chain.off - it.posInChain
    ensures k < |buf.chains| && PtrAt(buf, next, k + 1) && next.pos == it.pos + it.chain.off - it.posInChain
    ensures 0 <= m && it.pos + m <= |buf.Contents()| && out == buf.Contents()[from..it.pos + m]
  {
    var d;
    d, next := Load(buf, it, k);
    InChain(buf, it, k);
    TakeStretch(buf.Contents(), from, it.pos, it.pos - it.posInChain, d, it.posInChain, it.posInChain + m);
    out := out0 + d[it.posInChain..it.posInChain + m];
  }

  lemma {:induction false} TakeStretch(s: seq<byte>, from: int, at: int, base: int, d: seq<byte>, i: nat, j: nat)
    requires Stretch(s, base, d) && 0 <= from <= at == base + i && i <= j <= |d|
    ensures s[from..at] + d[i..j] == s[from..base + j]
  {
    assert forall x | i <= x < j :: s[base + x] == d[x];
  }

  // evbuffer_remove
  method Remove(buf: EvBuffer, datlen: nat) returns (r: int, out: seq<byte>)
    requires buf.Valid()
    modifies buf, buf.chains
    ensures buf.Valid() && buf.SameFlags()
    ensures var n := Min(datlen, |old(buf.Contents())|);
      if n > 0 && buf.freezeStart then r == -1 && out == [] && buf.Contents() == old(buf.Contents())
      else r == n && out == old(buf.Contents())[..n] && buf.Contents() == old(buf.Contents())[n..]
    ensures |buf.chains| <= |old(buf.chains)| && buf.chains == old(buf.chains)[|old(buf.chains)| - |buf.chains|..]
  {
    r, out := CopyoutFrom(buf, None, datlen);
    if r > 0 {
      var ok := buf.Drain(r);
    }
  }

  // evbuffer_readln
  method Readln(buf: EvBuffer, style: EolStyle) returns (line: Option<seq<byte>>, ghost eolLen: nat)
    requires buf.Valid()
    modifies buf, buf.chains
    ensures buf.Valid() && buf.SameFlags()
    ensures line.None? <==> buf.freezeStart || NoEol(old(buf.Contents()), 0, style)
    ensures line.None? ==> buf.Contents() == old(buf.Contents())
    ensures line.Some? ==>
      && FirstEol(old(buf.Contents()), 0, style, |line.value|, eolLen)
      && line.value == old(buf.Contents())[..|line.value|]
      && buf.Contents() == old(buf.Contents())[|line.value| + eolLen..]
  {
    if buf.freezeStart { return None, 0; }
    var it, extra := SearchEol(buf, None, style);
    EolOrNot(buf.Contents(), 0, style, it.pos, extra);
    if it.pos < 0 { return None, 0; }
    var out := TakeLine(buf, it.pos, extra);
    return Some(out), extra;
  }

  // The line, then the line end.
  method TakeLine(buf: EvBuffer, n: nat, extra: nat) returns (out: seq<byte>)
    requires buf.Valid() && !buf.freezeStart && n + extra <= |buf.Contents()|
    modifies buf, buf.chains
    ensures buf.Valid() && buf.SameFlags()
    ensures out == old(buf.Contents())[..n] && buf.Contents() == old(buf.Contents())[n + extra..]
  {
    ghost var s, cs := buf.Contents(), buf.chains;
    var r;
    r, out := Remove(buf, n);
    assert forall c | c in buf.chains :: c in cs;
    DropTwice(s, n, extra);
    r := buf.Drain(extra);
  }

  lemma {:induction false} DropTwice(s: seq<byte>, m: nat, n: nat)
    requires m + n <= |s|
    ensures |s[m..]| >= n && s[m..][n..] == s[m + n..]
  {
  }

  lemma {:induction false} EolOrNot(s: seq<byte>, from: nat, style: EolStyle, pos: int, len: nat)
    ensures FirstEol(s, from, style, pos, len) ==> !NoEol(s, from, style)
  {
    if FirstEol(s, from, style, pos, len) && style.EolAny? {
      assert IsEolChar(s[pos]);
    }
  }

  lemma {:induction false} OccursInPrefix(s: seq<byte>, what: seq<byte>, pos: int, j: int)
    requires 0 <= pos <= |s|
    ensures OccursAt(s[..pos], what, j) ==> OccursAt(s, what, j) && j + |what| <= pos
  {
    if OccursAt(s[..pos], what, j) {
      assert s[..pos][j..j + |what|] == s[j..j + |what|];
    }
  }

  /** A line never contains the terminator it was cut off at. */
  lemma {:induction false} LineHasNoEol(s: seq<byte>, style: EolStyle, pos: int, len: nat)
    requires FirstEol(s, 0, style, pos, len)
    ensures NoEol(s[..pos], 0, style)
    ensures s == s[..pos] + s[pos..pos + len] + s[pos + len..]
  {
    if style.EolCrlfStrict? {
      forall j | 0 <= j
        ensures !OccursAt(s[..pos], [CR, LF], j)
      {
        OccursInPrefix(s, [CR, LF], pos, j);
      }
    }
  }

  /** Both kinds of answer of evbuffer_search_eol exclude each other and leave nothing out: the end is unique. */
  lemma {:induction false} EolUnique(s: seq<byte>, from: nat, style: EolStyle, p1: int, n1: nat, p2: int, n2: nat)
    requires FirstEol(s, from, style, p1, n1) && FirstEol(s, from, style, p2, n2)
    ensures p1 == p2 && n1 == n2
  {
    match style
    case EolAny =>
      assert IsEolChar(s[p1]) && IsEolChar(s[p2]);
      assert p1 == p2;
    case EolCrlf =>
      assert s[p1 + n1 - 1] == LF && s[p2 + n2 - 1] == LF;
    case _ =>
  }
}
