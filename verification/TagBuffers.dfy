// The tagged format on buffers: what event_tagging.c appends to an evbuffer and takes from its front.
module TagBuffers {
  import opened Bytes
  import opened EvBuffers
  import opened EvBufferPullup
  import opened EvBufferMoves
  import opened Tags

  /** Digits beyond the last significant one are zero. */
  lemma {:induction false} DigitsEnd(n: nat, i: nat)
    requires i >= Nibbles(n)
    ensures Digit(n, i) == 0
  {
    if i > 0 && n >= 16 {
      DigitsEnd(n / 16, i - 1);
    } else if i > 0 {
      ZeroDigit(i - 1);
    }
  }

  lemma {:induction false} ZeroDigit(i: nat)
    ensures Digit(0, i) == 0
  {
    if i > 0 {
      ZeroDigit(i - 1);
    }
  }

  // Sets nibble `i` of `data`.
  method SetNibble(data: array<byte>, i: nat, v: nat)
    requires i < 2 * data.Length && v < 16
    modifies data
    ensures NibbleOf(data[..], i) == v
    ensures forall j | 0 <= j < 2 * data.Length && j != i :: NibbleOf(data[..], j) == NibbleOf(old(data[..]), j)
  {
    var b := data[i / 2] as nat;
    data[i / 2] := (if i % 2 == 1 then b / 16 * 16 + v else v * 16 + b % 16) as byte;
  }

  lemma {:induction false} SameNibbles(n: nat, s: seq<byte>)
    requires IntLength(n) <= |s| && forall i | 0 <= i < 2 * IntLength(n) :: NibbleOf(s, i) == Nibble(n, i)
    ensures s[..IntLength(n)] == EncodeInt(n)
  {
    forall k | 0 <= k < IntLength(n)
      ensures s[k] == EncodeInt(n)[k]
    {
      assert NibbleOf(s, 2 * k) == Nibble(n, 2 * k) && NibbleOf(s, 2 * k + 1) == Nibble(n, 2 * k + 1);
    }
  }

  // encode_int_internal, encode_int64_internal
  method EncodeIntInternal(data: array<byte>, number: nat) returns (len: nat)
    requires Nibbles(number) <= 16 && IntLength(number) <= data.Length
    modifies data
    ensures len == IntLength(number) && data[..len] == EncodeInt(number)
  {
    forall i | 0 <= i < data.Length {
      data[i] := 0;
    }
    var off: nat, n := 1, number;
    while n != 0
      invariant 1 <= off <= Nibbles(number) + 1 && n == Shifted(number, off - 1)
      invariant n != 0 ==> off - 1 + Nibbles(n) == Nibbles(number)
      invariant n == 0 ==> off - 1 == if number == 0 then 0 else Nibbles(number)
      invariant forall i | 0 <= i < 2 * data.Length :: NibbleOf(data[..], i) == if 1 <= i < off then Digit(number, i - 1) else 0
      decreases n
    {
      ShiftedDigit(number, off - 1);
      SetNibble(data, off, n % 16);
      n := n / 16;
      off := off + 1;
    }
    var nibbles := if off > 2 then off - 2 else 0;
    SetNibble(data, 0, nibbles % 16);
    len := (off + 1) / 2;
    forall i | 0 <= i < 2 * IntLength(number)
      ensures NibbleOf(data[..], i) == Nibble(number, i)
    {
      if i >= 1 {
        DigitOfNibble(number, i);
        if number == 0 {
          ZeroDigit(i - 1);
        } else if i >= off {
          DigitsEnd(number, i - 1);
        }
      }
    }
    SameNibbles(number, data[..]);
  }

  // evbuffer_add, whose result the encoding functions do not look at: a piece that is refused is left out.
  function Appended(s: seq<byte>, frozen: bool, piece: seq<byte>): seq<byte> {
    if frozen || |piece| > SIZE_MAX - |s| then s else s + piece
  }

  // What a buffer holds after evtag_marshal.
  function Marshalled(s: seq<byte>, frozen: bool, tag: nat, data: seq<byte>): seq<byte> {
    Appended(Appended(Appended(s, frozen, EncodeTag(tag)), frozen, EncodeInt(|data|)), frozen, data)
  }

  /** The whole record is appended exactly if the end is not frozen and all of it fits into a size_t. */
  lemma {:induction false} MarshalledWhole(s: seq<byte>, frozen: bool, r: Record)
    ensures Marshalled(s, frozen, r.tag, r.data) == s + Marshal(r) <==> !frozen && |s| + |Marshal(r)| <= SIZE_MAX
  {
    var t, n := EncodeTag(r.tag), EncodeInt(|r.data|);
    assert |t| > 0 && |n| > 0 && |Marshal(r)| == |t| + |n| + |r.data|;
    assert s + t + n + r.data == s + Marshal(r);
    assert |s + Marshal(r)| == |s| + |Marshal(r)|;
  }

  // evtag_encode_int (data of 5 bytes) and evtag_encode_int64 (9 bytes)
  method EncodeIntTo(buf: EvBuffer, number: nat, size: nat)
    requires buf.Valid() && Nibbles(number) <= 16 && IntLength(number) <= size
    modifies buf, buf.chains, buf.Memory()
    ensures buf.Valid() && buf.SameFlags() && buf.GainsFresh()
    ensures buf.Contents() == Appended(old(buf.Contents()), buf.freezeEnd, EncodeInt(number))
  {
    var data := new byte[size];
    var len := EncodeIntInternal(data, number);
    var _ := buf.Add(data[..len]);
  }

  // The loop of evtag_encode_tag.
  method EncodeTagBytes(data: array<byte>, tag: nat) returns (bytes: nat)
    requires |EncodeTag(tag)| <= data.Length
    modifies data
    ensures bytes == |EncodeTag(tag)| && data[..bytes] == EncodeTag(tag)
  {
    var t, more := tag, true;
    bytes := 0;
    while more
      invariant bytes <= |EncodeTag(tag)|
      invariant if more then data[..bytes] + EncodeTag(t) == EncodeTag(tag) else data[..bytes] == EncodeTag(tag)
      decreases more, t
    {
      var lower := t % 128;
      t := t / 128;
      if t != 0 {
        lower := lower + 128;
      }
      data[bytes] := lower as byte;
      bytes := bytes + 1;
      more := t != 0;
    }
  }

  // evtag_encode_tag
  method EncodeTagTo(buf: EvBuffer, tag: nat) returns (bytes: nat)
    requires buf.Valid() && tag < UINT32
    modifies buf, buf.chains, buf.Memory()
    ensures buf.Valid() && buf.SameFlags() && buf.GainsFresh()
    ensures bytes == |EncodeTag(tag)| <= 5 && buf.Contents() == Appended(old(buf.Contents()), buf.freezeEnd, EncodeTag(tag))
  {
    TagLength(tag, 0);
    var data := new byte[5];
    bytes := EncodeTagBytes(data, tag);
    var _ := buf.Add(data[..bytes]);
  }

  lemma {:induction false} TagLength(tag: nat, i: nat)
    requires i <= 4 && tag < TagLimit(i)
    ensures |EncodeTag(tag)| <= 5 - i
    decreases tag
  {
    if tag >= 128 {
      TagLength(tag / 128, i + 1);
    }
  }

  // evtag_marshal
  method MarshalTo(buf: EvBuffer, tag: nat, data: seq<byte>)
    requires buf.Valid() && tag < UINT32 && |data| < UINT32
    modifies buf, buf.chains, buf.Memory()
    ensures buf.Valid() && buf.SameFlags() && buf.GainsFresh()
    ensures buf.Contents() == Marshalled(old(buf.Contents()), buf.freezeEnd, tag, data)
  {
    EncodeHeaderTo(buf, tag, |data|);
    var _ := buf.Add(data);
  }

  // The tag and the length.
  method EncodeHeaderTo(buf: EvBuffer, tag: nat, len: nat)
    requires buf.Valid() && tag < UINT32 && len < UINT32
    modifies buf, buf.chains, buf.Memory()
    ensures buf.Valid() && buf.SameFlags() && buf.GainsFresh()
    ensures buf.Contents() == Appended(Appended(old(buf.Contents()), buf.freezeEnd, EncodeTag(tag)), buf.freezeEnd, EncodeInt(len))
  {
    Widths(len);
    var _ := EncodeTagTo(buf, tag);
    EncodeIntTo(buf, len, 5);
  }

  // evtag_marshal_int (data of 5 bytes) and evtag_marshal_int64 (9 bytes)
  method MarshalIntTo(buf: EvBuffer, tag: nat, n: nat, size: nat)
    requires buf.Valid() && tag < UINT32 && Nibbles(n) <= 16 && IntLength(n) <= size
    modifies buf, buf.chains, buf.Memory()
    ensures buf.Valid() && buf.SameFlags() && buf.GainsFresh()
    ensures buf.Contents() == Marshalled(old(buf.Contents()), buf.freezeEnd, tag, EncodeInt(n))
  {
    var data := new byte[size];
    var len := EncodeIntInternal(data, n);
    MarshalTo(buf, tag, data[..len]);
  }

  // number |= v << shift, for a shift by 7 * `i` bits that are still free
  function Or(acc: nat, i: nat, v: nat): nat { acc + Pow128(i) * v }

  // What the first `i` bytes of a tag, worth `acc`, and the bytes behind them make together.
  function Joined(acc: nat, i: nat, r: Option<(nat, nat)>): Option<(nat, nat)> {
    match r
    case Some(t) => Some((Or(acc, i, t.0), t.1))
    case None => None
  }

  lemma {:induction false} JoinedStep(s: seq<byte>, acc: nat, i: nat)
    requires i < |s| && i <= 4 && (i == 4 ==> s[i] as nat % 128 <= 15) && s[i] >= 128
    ensures Joined(acc, i, DecodeTagFrom(s, i)) == Joined(Or(acc, i, s[i] as nat % 128), i + 1, DecodeTagFrom(s, i + 1))
  {
    var r := DecodeTagFrom(s, i + 1);
    if r.Some? {
      var p, v, b := Pow128(i), r.value.0, s[i] as nat % 128;
      assert p * (b + 128 * v) == p * b + 128 * p * v;
    }
  }

  // The loop of decode_tag_internal over the first bytes of the buffer, which are contiguous.
  method DecodeTagBytes(s: seq<byte>, len: nat) returns (r: Option<(nat, nat)>)
    requires |s| == Min(len, 5)
    ensures r == DecodeTag(s)
  {
    var number: nat, i: nat := 0, 0;
    while i < len
      invariant i <= 5 && i <= len && DecodeTag(s) == Joined(number, i, DecodeTagFrom(s, i))
    {
      if i > 4 || (i == 4 && s[i] as nat % 128 > 15) {
        return None;
      }
      if s[i] < 128 {
        return Some((Or(number, i, s[i] as nat), i + 1));
      }
      JoinedStep(s, number, i);
      number := Or(number, i, s[i] as nat % 128);
      i := i + 1;
    }
    return None;
  }

  lemma {:induction false} TagInPrefix(s: seq<byte>, t: seq<byte>, i: nat)
    requires t == s[..Min(|s|, 5)] && i <= 5
    ensures DecodeTagFrom(t, i) == DecodeTagFrom(s, i)
    decreases 5 - i
  {
    if i < |t| {
      TagInPrefix(s, t, i + 1);
    }
  }

  // decode_tag_internal
  method DecodeTagInternal(buf: EvBuffer, doDrain: bool) returns (res: int, tag: nat)
    requires buf.Valid()
    modifies buf, buf.chains, buf.Memory()
    ensures buf.Valid() && buf.SameFlags() && buf.GainsFresh()
    ensures var d := DecodeTag(old(buf.Contents()));
      && (if d.Some? then res == d.value.1 && tag == d.value.0 else res == -1)
      && buf.Contents() ==
           if d.Some? && doDrain && !buf.freezeStart then old(buf.Contents())[d.value.1..] else old(buf.Contents())
  {
    var len := buf.totalLen;
    ghost var s := buf.Contents();
    var chain := Pullup(buf, Min(len, 5));
    if chain == null {
      return -1, 0;
    }
    TagInPrefix(s, s[..Min(len, 5)], 0);
    var r := DecodeTagBytes(chain.buffer[chain.misalign..chain.misalign + Min(len, 5)], len);
    if r.None? {
      return -1, 0;
    }
    res, tag := r.value.1, r.value.0;
    if doDrain {
      var _ := buf.Drain(res);
    }
  }

  // The loop of DECODE_INT_INTERNAL.
  method DecodeNibbles(data: seq<byte>, k: nat) returns (number: nat)
    requires k < 2 * |data|
    ensures number == Value(data, 0, k)
  {
    var i: nat := k;
    number := 0;
    while i > 0
      invariant i <= k && number == Value(data, i, k)
    {
      number := number * 16 + NibbleOf(data, i);
      i := i - 1;
    }
  }

  lemma {:induction false} ValueInPrefix(s: seq<byte>, t: seq<byte>, i: nat, k: nat)
    requires i <= k < 2 * |t| && t <= s
    ensures Value(t, i, k) == Value(s, i, k)
    decreases k - i
  {
    if i < k {
      ValueInPrefix(s, t, i + 1, k);
    }
  }

  // decode_int_internal (8 nibbles) and decode_int64_internal (16 nibbles)
  method DecodeIntInternal(buf: EvBuffer, offset: nat, maxNibbles: nat) returns (len: int, number: nat)
    requires buf.Valid() && maxNibbles <= 16 && offset <= 16
    modifies buf, buf.chains, buf.Memory()
    ensures buf.Valid() && buf.SameFlags() && buf.GainsFresh() && buf.Contents() == old(buf.Contents())
    ensures var d := DecodeInt(buf.Contents(), offset, maxNibbles);
      if d.Some? then len == d.value.1 && number == d.value.0 else len == -1
  {
    ghost var s := buf.Contents();
    if buf.totalLen <= offset {
      return -1, 0;
    }
    var first := FirstBytes(buf, offset + 1);
    assert first[offset] == s[offset];
    var nibbles := first[offset] as nat / 16 + 1;
    if nibbles > maxNibbles || nibbles / 2 + 1 > buf.totalLen - offset {
      return -1, 0;
    }
    len := nibbles / 2 + 1;
    first := FirstBytes(buf, offset + len);
    var data := first[offset..];
    assert data == s[offset..][..len];
    number := DecodeNibbles(data, nibbles);
    ValueInPrefix(s[offset..], data, 0, nibbles);
  }

  // The first bytes of the buffer, which evbuffer_pullup makes contiguous.
  method FirstBytes(buf: EvBuffer, len: nat) returns (data: seq<byte>)
    requires buf.Valid() && len <= |buf.Contents()| && len <= CHAIN_MAX - CHAIN_HEADER
    modifies buf, buf.chains, buf.Memory()
    ensures buf.Valid() && buf.SameFlags() && buf.GainsFresh() && buf.Contents() == old(buf.Contents())
    ensures data == buf.Contents()[..len]
  {
    var chain := Pullup(buf, len);
    data := if chain == null then [] else chain.buffer[chain.misalign..chain.misalign + len];
  }

  // evtag_decode_int and evtag_decode_int64
  method DecodeIntFrom(buf: EvBuffer, maxNibbles: nat) returns (res: int, number: nat)
    requires buf.Valid() && !buf.freezeStart && maxNibbles <= 16
    modifies buf, buf.chains, buf.Memory()
    ensures buf.Valid() && buf.SameFlags() && buf.GainsFresh()
    ensures var d := TakeInt(old(buf.Contents()), maxNibbles);
      buf.Contents() == d.rest && if d.result.Some? then res == 0 && number == d.result.value else res == -1
  {
    var len;
    len, number := DecodeIntInternal(buf, 0, maxNibbles);
    if len == -1 {
      return -1, 0;
    }
    var _ := buf.Drain(len);
    res := 0;
  }

  // evtag_peek_length
  method PeekLengthOf(buf: EvBuffer) returns (res: int, length: nat)
    requires buf.Valid()
    modifies buf, buf.chains, buf.Memory()
    ensures buf.Valid() && buf.SameFlags() && buf.GainsFresh() && buf.Contents() == old(buf.Contents())
    ensures if PeekLength(buf.Contents()).Some? then res == 0 && length == PeekLength(buf.Contents()).value else res == -1
  {
    ghost var s := buf.Contents();
    TagWithin(s, 0);
    var len, _ := DecodeTagInternal(buf, false);
    if len == -1 {
      return -1, 0;
    }
    var n, payload := DecodeIntInternal(buf, len, 8);
    if n == -1 {
      return -1, 0;
    }
    assert DecodeInt(s, len, 8) == Some((payload, n as nat));
    return 0, (payload + n + len) % UINT32;
  }

  // evtag_payload_length
  method PayloadLengthOf(buf: EvBuffer) returns (res: int, length: nat)
    requires buf.Valid()
    modifies buf, buf.chains, buf.Memory()
    ensures buf.Valid() && buf.SameFlags() && buf.GainsFresh() && buf.Contents() == old(buf.Contents())
    ensures var l := PayloadLength(buf.Contents()); if l.Some? then res == 0 && length == l.value else res == -1
  {
    TagWithin(buf.Contents(), 0);
    var len, _ := DecodeTagInternal(buf, false);
    if len == -1 {
      return -1, 0;
    }
    var n, payload := DecodeIntInternal(buf, len, 8);
    return if n == -1 then -1 else 0, payload;
  }

  lemma {:induction false} TagWithin(s: seq<byte>, i: nat)
    requires i <= 5
    ensures DecodeTagFrom(s, i).Some? ==> DecodeTagFrom(s, i).value.1 <= 5
    decreases 5 - i
  {
    if i < |s| && i <= 4 {
      TagWithin(s, i + 1);
    }
  }

  // evtag_unmarshal_header, with the length as it is before it becomes an int
  method UnmarshalHeader(buf: EvBuffer) returns (ok: bool, tag: nat, len: nat)
    requires buf.Valid() && !buf.freezeStart
    modifies buf, buf.chains, buf.Memory()
    ensures buf.Valid() && buf.SameFlags() && buf.GainsFresh()
    ensures var d := TakeHeader(old(buf.Contents()));
      buf.Contents() == d.rest && ok == d.result.Some? && (ok ==> d.result.value == (tag, len) && len <= |d.rest|)
  {
    var res;
    res, tag := DecodeTagInternal(buf, true);
    if res == -1 {
      return false, 0, 0;
    }
    res, len := DecodeIntFrom(buf, 8);
    if res == -1 {
      return false, 0, 0;
    }
    ok := buf.totalLen >= len;
  }

  // evtag_consume
  method Consume(buf: EvBuffer) returns (r: int)
    requires buf.Valid() && !buf.freezeStart
    modifies buf, buf.chains, buf.Memory()
    ensures buf.Valid() && buf.SameFlags() && buf.GainsFresh()
    ensures r == (if ConsumeFirst(old(buf.Contents())).0 then 0 else -1) && buf.Contents() == ConsumeFirst(old(buf.Contents())).1
  {
    var ok, _, length := UnmarshalHeader(buf);
    if !ok {
      return -1;
    }
    r := DrainInt(buf, ToInt(length));
  }

  // evbuffer_drain, given an int, which becomes a size_t; -1 is the failure of evtag_unmarshal_header.
  method DrainInt(buf: EvBuffer, len: int) returns (r: int)
    requires buf.Valid() && !buf.freezeStart && 0 - INT_LIMIT <= len
    modifies buf, buf.chains
    ensures buf.Valid() && buf.SameFlags() && buf.GainsFresh()
    ensures r == if len == -1 then -1 else 0
    ensures buf.Contents() == if len == -1 then old(buf.Contents()) else Drained(old(buf.Contents()), len)
  {
    if len == -1 {
      return -1;
    }
    var _ := buf.Drain(ToSize(len));
    return 0;
  }

  // evtag_unmarshal_int (8 nibbles) and evtag_unmarshal_int64 (16 nibbles)
  method UnmarshalIntFrom(buf: EvBuffer, needTag: nat, maxNibbles: nat) returns (result: int, number: nat)
    requires buf.Valid() && !buf.freezeStart && maxNibbles <= 16
    modifies buf, buf.chains, buf.Memory()
    ensures buf.Valid() && buf.SameFlags() && buf.GainsFresh()
    ensures var d := UnmarshalInt(old(buf.Contents()), needTag, maxNibbles);
      buf.Contents() == d.rest && if d.result.Some? then result > 0 && number == d.result.value else result == -1
  {
    var res, tag := DecodeTagInternal(buf, true);
    if res == -1 || tag != needTag {
      return -1, 0;
    }
    result, number := UnmarshalRestFrom(buf, maxNibbles);
  }

  method UnmarshalRestFrom(buf: EvBuffer, maxNibbles: nat) returns (result: int, number: nat)
    requires buf.Valid() && !buf.freezeStart && maxNibbles <= 16
    modifies buf, buf.chains, buf.Memory()
    ensures buf.Valid() && buf.SameFlags() && buf.GainsFresh()
    ensures var d := UnmarshalRest(old(buf.Contents()), maxNibbles);
      buf.Contents() == d.rest && if d.result.Some? then result > 0 && number == d.result.value else result == -1
  {
    var res, len := DecodeIntFrom(buf, 8);
    if res == -1 || buf.totalLen < len {
      return -1, 0;
    }
    result, number := IntOfLength(buf, len, maxNibbles);
  }

  method IntOfLength(buf: EvBuffer, len: nat, maxNibbles: nat) returns (result: int, number: nat)
    requires buf.Valid() && !buf.freezeStart && maxNibbles <= 16 && len <= |buf.Contents()|
    modifies buf, buf.chains, buf.Memory()
    ensures buf.Valid() && buf.SameFlags() && buf.GainsFresh() && buf.Contents() == old(buf.Contents())[len..]
    ensures var d := DecodeInt(old(buf.Contents()), 0, maxNibbles);
      if d.Some? && d.value.1 <= len then result > 0 && number == d.value.0 else result == -1
  {
    result, number := DecodeIntInternal(buf, 0, maxNibbles);
    var _ := buf.Drain(len);
    if result < 0 || result > len {
      return -1, 0;
    }
  }

  // evtag_unmarshal_header on `src` leaves a separate buffer alone.
  method HeaderAway(src: EvBuffer, dst: EvBuffer) returns (ok: bool, tag: nat, len: nat)
    requires src.Valid() && dst.Valid() && Separate(src, dst) && !src.freezeStart
    modifies src, src.chains, src.Memory()
    ensures src.Valid() && src.SameFlags() && src.GainsFresh() && dst.Valid() && dst.chains == old(dst.chains)
    ensures var d := TakeHeader(old(src.Contents()));
      src.Contents() == d.rest && ok == d.result.Some? && (ok ==> d.result.value == (tag, len) && len <= |d.rest|)
  {
    forall i | 0 <= i < |dst.chains|
      ensures dst.chains[i] !in src.chains && dst.chains[i].buffer !in src.Memory()
    {
    }
    ghost var cs := dst.chains;
    ok, tag, len := UnmarshalHeader(src);
    assert dst.chains == cs;
  }

  // The two stay separate.
  method HeaderBeside(src: EvBuffer, dst: EvBuffer) returns (ok: bool, tag: nat, len: nat)
    requires src.Valid() && dst.Valid() && Separate(src, dst) && !src.freezeStart
    modifies src, src.chains, src.Memory()
    ensures src.Valid() && src.SameFlags() && src.GainsFresh() && dst.Valid() && Separate(src, dst)
    ensures var d := TakeHeader(old(src.Contents()));
      src.Contents() == d.rest && ok == d.result.Some? && (ok ==> d.result.value == (tag, len) && len <= |d.rest|)
  {
    ok, tag, len := HeaderAway(src, dst);
    StillApart(old(src.chains), src.chains, dst.chains);
  }

  // evbuffer_pullup on `src`, whose first bytes are then handed to `dst`.
  method BytesAway(src: EvBuffer, dst: EvBuffer, len: nat) returns (data: seq<byte>)
    requires src.Valid() && dst.Valid() && Separate(src, dst) && len <= |src.Contents()| && len <= CHAIN_MAX - CHAIN_HEADER
    modifies src, src.chains, src.Memory()
    ensures src.Valid() && src.SameFlags() && src.GainsFresh() && dst.Valid() && dst.chains == old(dst.chains)
    ensures src.Contents() == old(src.Contents()) && data == src.Contents()[..len]
  {
    forall i | 0 <= i < |dst.chains|
      ensures dst.chains[i] !in src.chains && dst.chains[i].buffer !in src.Memory()
    {
    }
    data := FirstBytes(src, len);
  }

  // The two stay separate.
  method PullupBeside(src: EvBuffer, dst: EvBuffer, len: nat) returns (data: seq<byte>)
    requires src.Valid() && dst.Valid() && Separate(src, dst) && len <= |src.Contents()| && len <= CHAIN_MAX - CHAIN_HEADER
    modifies src, src.chains, src.Memory()
    ensures src.Valid() && src.SameFlags() && src.GainsFresh() && dst.Valid() && Separate(src, dst)
    ensures src.Contents() == old(src.Contents()) && data == src.Contents()[..len]
  {
    data := BytesAway(src, dst, len);
    StillApart(old(src.chains), src.chains, dst.chains);
  }

  // evbuffer_drain keeps the last chains.
  method DrainSome(buf: EvBuffer, len: nat)
    requires buf.Valid() && !buf.freezeStart && len <= |buf.Contents()|
    modifies buf, buf.chains
    ensures buf.Valid() && buf.SameFlags() && buf.Contents() == old(buf.Contents())[len..]
    ensures forall c | c in buf.chains :: c in old(buf.chains)
  {
    var _ := buf.Drain(len);
  }

  // evbuffer_drain on `src` leaves a separate buffer alone.
  method DrainAway(src: EvBuffer, dst: EvBuffer, len: nat)
    requires src.Valid() && dst.Valid() && Separate(src, dst) && !src.freezeStart && len <= |src.Contents()|
    modifies src, src.chains
    ensures src.Valid() && src.SameFlags() && src.Contents() == old(src.Contents())[len..]
    ensures forall c | c in src.chains :: c in old(src.chains)
    ensures dst.Valid() && dst.chains == old(dst.chains)
  {
    forall i | 0 <= i < |dst.chains|
      ensures dst.chains[i] !in src.chains
    {
    }
    DrainSome(src, len);
  }

  // The two stay separate.
  method DrainBeside(src: EvBuffer, dst: EvBuffer, len: nat)
    requires src.Valid() && dst.Valid() && Separate(src, dst) && !src.freezeStart && len <= |src.Contents()|
    modifies src, src.chains
    ensures src.Valid() && src.SameFlags() && dst.Valid() && Separate(src, dst)
    ensures src.Contents() == old(src.Contents())[len..]
  {
    DrainAway(src, dst, len);
    StillApart(old(src.chains), src.chains, dst.chains);
  }

  // evtag_unmarshal
  method UnmarshalTo(src: EvBuffer, dst: EvBuffer) returns (r: int, tag: nat)
    requires src.Valid() && dst.Valid() && Separate(src, dst) && !src.freezeStart
    modifies src, src.chains, src.Memory(), dst, dst.chains, dst.Memory()
    ensures src.Valid() && dst.Valid() && Separate(src, dst)
    ensures var d := Unmarshal(old(src.Contents()));
      if d.result.Some? && !dst.freezeEnd && |d.result.value.data| <= SIZE_MAX - |old(dst.Contents())| then
        && r == |d.result.value.data| && tag == d.result.value.tag && src.Contents() == d.rest
        && dst.Contents() == old(dst.Contents()) + d.result.value.data
      else
        && r == -1 && src.Contents() == TakeHeader(old(src.Contents())).rest && dst.Contents() == old(dst.Contents())
  {
    var ok, len;
    ok, tag, len := HeaderBeside(src, dst);
    if !ok || len >= INT_LIMIT {
      return -1, tag;
    }
    r := MovePayload(src, dst, len);
  }

  // The end of evtag_unmarshal: the first bytes of `src` go to `dst`, if it takes them.
  method MovePayload(src: EvBuffer, dst: EvBuffer, len: nat) returns (r: int)
    requires src.Valid() && dst.Valid() && Separate(src, dst) && !src.freezeStart && len <= |src.Contents()| && len < INT_LIMIT
    modifies src, src.chains, src.Memory(), dst, dst.chains, dst.Memory()
    ensures src.Valid() && dst.Valid() && Separate(src, dst) && dst.SameFlags()
    ensures r == if !dst.freezeEnd && len <= SIZE_MAX - |old(dst.Contents())| then len else -1
    ensures var n := if r == -1 then 0 else len; var s := old(src.Contents());
      src.Contents() == s[n..] && dst.Contents() == old(dst.Contents()) + s[..n]
  {
    var data := PullupBeside(src, dst, len);
    r := AddAndDrain(src, dst, data);
  }

  method AddAndDrain(src: EvBuffer, dst: EvBuffer, data: seq<byte>) returns (r: int)
    requires src.Valid() && dst.Valid() && Separate(src, dst) && !src.freezeStart && data <= src.Contents() && |data| < INT_LIMIT
    modifies src, src.chains, dst, dst.chains, dst.Memory()
    ensures src.Valid() && dst.Valid() && Separate(src, dst) && dst.SameFlags()
    ensures r == if !dst.freezeEnd && |data| <= SIZE_MAX - |old(dst.Contents())| then |data| else -1
    ensures src.Contents() == old(src.Contents())[if r == -1 then 0 else |data|..]
    ensures dst.Contents() == old(dst.Contents()) + if r == -1 then [] else data
  {
    r := AddBeside(dst, src, data);
    if r == -1 {
      return;
    }
    DrainBeside(src, dst, |data|);
    r := |data|;
  }
}
