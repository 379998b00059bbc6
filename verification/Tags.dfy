// The tagged wire format: Stream = (Tag Length Data)*. Tags are written seven bits a byte and integers four bits
// a nibble, both with the least significant part first.
module Tags {
  import opened Bytes

  const UINT32: nat := 0x1_0000_0000
  const UINT64: nat := 0x1_0000_0000_0000_0000
  const INT_LIMIT: nat := 0x8000_0000

  // ----- integers -----

  // The number of nibbles of `n`, at least one.
  function Nibbles(n: nat): (k: nat)
    ensures k >= 1
  {
    if n < 16 then 1 else 1 + Nibbles(n / 16)
  }

  // Nibble number `i` of the encoding: how many follow, less one; then the nibbles of `n`; then padding.
  function Nibble(n: nat, i: nat): (v: nat)
    ensures v < 16
    decreases i
  {
    if i == 0 then (Nibbles(n) - 1) % 16 else if i == 1 then n % 16 else Digit(n / 16, i - 2)
  }

  // Hexadecimal digit number `i` of `n`, counted from the right.
  function Digit(n: nat, i: nat): (v: nat)
    ensures v < 16
  {
    if i == 0 then n % 16 else Digit(n / 16, i - 1)
  }

  function IntLength(n: nat): nat { Nibbles(n) / 2 + 1 }

  // encode_int_internal, encode_int64_internal
  function EncodeInt(n: nat): (s: seq<byte>)
    ensures |s| == IntLength(n)
  {
    seq(IntLength(n), (k: nat) => (Nibble(n, 2 * k) * 16 + Nibble(n, 2 * k + 1)) as byte)
  }

  // Nibble number `i` of a stretch of bytes.
  function NibbleOf(s: seq<byte>, i: nat): nat
    requires i < 2 * |s|
  {
    if i % 2 == 0 then s[i / 2] as nat / 16 else s[i / 2] as nat % 16
  }

  // The loop of DECODE_INT_INTERNAL: nibbles `k` down to 1, the last of them the least significant.
  function Value(s: seq<byte>, i: nat, k: nat): nat
    requires i <= k < 2 * |s|
    decreases k - i
  {
    if i == k then 0 else NibbleOf(s, i + 1) + 16 * Value(s, i + 1, k)
  }

  // decode_int_internal, decode_int64_internal: the number and its length in bytes.
  function DecodeInt(s: seq<byte>, offset: nat, maxNibbles: nat): (r: Option<(nat, nat)>)
    ensures r.Some? ==> 0 < r.value.1 && offset + r.value.1 <= |s|
  {
    if offset >= |s| then None
    else
      var k := s[offset] as nat / 16 + 1;
      if k > maxNibbles || offset + k / 2 + 1 > |s| then None
      else Some((Value(s[offset..], 0, k), k / 2 + 1))
  }

  lemma {:induction false} DigitOfNibble(n: nat, i: nat)
    requires i >= 1
    ensures Nibble(n, i) == Digit(n, i - 1)
  {
  }

  // The number that the digits of `n` from number `i` on make up, if there are `k`.
  function Shifted(n: nat, i: nat): nat
  {
    if i == 0 then n else Shifted(n / 16, i - 1)
  }

  lemma {:induction false} ShiftedDigit(n: nat, i: nat)
    ensures Shifted(n, i) == Digit(n, i) + 16 * Shifted(n, i + 1)
    decreases i
  {
    if i > 0 {
      ShiftedDigit(n / 16, i - 1);
    }
  }

  lemma {:induction false} ShiftedOut(n: nat)
    ensures Shifted(n, Nibbles(n)) == 0
    decreases n
  {
    if n >= 16 {
      ShiftedOut(n / 16);
    }
  }

  /** The nibbles of an encoded integer are what NibbleOf finds. */
  lemma {:induction false} EncodedNibble(n: nat, s: seq<byte>, i: nat)
    requires EncodeInt(n) <= s && i <= Nibbles(n)
    ensures i < 2 * |s| && NibbleOf(s, i) == Nibble(n, i)
  {
    var k := i / 2;
    assert s[k] == EncodeInt(n)[k];
  }

  lemma {:induction false} ValueOf(n: nat, s: seq<byte>, i: nat)
    requires EncodeInt(n) <= s && i <= Nibbles(n)
    ensures Nibbles(n) < 2 * |s| && Value(s, i, Nibbles(n)) == Shifted(n, i)
    decreases Nibbles(n) - i
  {
    EncodedNibble(n, s, Nibbles(n));
    if i == Nibbles(n) {
      ShiftedOut(n);
    } else {
      ValueOf(n, s, i + 1);
      EncodedNibble(n, s, i + 1);
      DigitOfNibble(n, i + 1);
      ShiftedDigit(n, i);
    }
  }

  lemma {:induction false} NibblesBound(n: nat, limit: nat, k: nat)
    requires k >= 1 && limit == Power16(k) && n < limit
    ensures Nibbles(n) <= k
    decreases k
  {
    if n >= 16 {
      NibblesBound(n / 16, Power16(k - 1), k - 1);
    }
  }

  function Power16(k: nat): (n: nat)
    ensures n > 0
  {
    if k == 0 then 1 else 16 * Power16(k - 1)
  }

  /** Integers of at most `maxNibbles` nibbles decode to themselves, whatever comes behind them. */
  lemma {:induction false} IntRoundTrip(before: seq<byte>, n: nat, after: seq<byte>, maxNibbles: nat)
    requires Nibbles(n) <= maxNibbles <= 16
    ensures DecodeInt(before + EncodeInt(n) + after, |before|, maxNibbles) == Some((n, |EncodeInt(n)|))
  {
    SkipPrefix(before, EncodeInt(n), after);
    IntAtFront(before + EncodeInt(n) + after, |before|, n, maxNibbles);
  }

  lemma {:induction false} IntAtFront(s: seq<byte>, offset: nat, n: nat, maxNibbles: nat)
    requires offset <= |s| && EncodeInt(n) <= s[offset..] && Nibbles(n) <= maxNibbles <= 16
    ensures DecodeInt(s, offset, maxNibbles) == Some((n, |EncodeInt(n)|))
  {
    EncodedNibble(n, s[offset..], 0);
    ValueOf(n, s[offset..], 0);
  }

  lemma {:induction false} SkipPrefix(a: seq<byte>, b: seq<byte>, c: seq<byte>)
    ensures (a + b + c)[|a|..] == b + c
  {
    assert a + b + c == a + (b + c);
  }

  lemma {:induction false} Widths(n: nat)
    ensures n < UINT32 ==> Nibbles(n) <= 8
    ensures n < UINT64 ==> Nibbles(n) <= 16
  {
    if n < UINT32 {
      assert Power16(8) == UINT32;
      NibblesBound(n, UINT32, 8);
    }
    if n < UINT64 {
      assert Power16(8) == UINT32;
      assert Power16(16) == UINT64;
      NibblesBound(n, UINT64, 16);
    }
  }

  // ----- tags -----

  // evtag_encode_tag
  function EncodeTag(tag: nat): (s: seq<byte>)
    ensures s != []
  {
    if tag < 128 then [tag as byte] else [(128 + tag % 128) as byte] + EncodeTag(tag / 128)
  }

  // The loop of decode_tag_internal from byte `i` on: what the bytes say and where the tag ends. The fifth byte
  // has room for four bits only.
  function DecodeTagFrom(s: seq<byte>, i: nat): (r: Option<(nat, nat)>)
    ensures r.Some? ==> i < r.value.1 <= |s|
    decreases 5 - i
  {
    if i >= |s| || i > 4 || (i == 4 && s[i] as nat % 128 > 15) then None
    else if s[i] < 128 then Some((s[i] as nat, i + 1))
    else
      match DecodeTagFrom(s, i + 1)
      case Some(r) => Some((s[i] as nat % 128 + 128 * r.0, r.1))
      case None => None
  }

  // decode_tag_internal: the tag and its length in bytes.
  function DecodeTag(s: seq<byte>): Option<(nat, nat)> {
    DecodeTagFrom(s, 0)
  }

  /** Byte `k` is the last one of a tag: the first one that says that none follows, among the first five. */
  ghost predicate TagEnds(s: seq<byte>, k: nat) {
    k < |s| && k <= 4 && s[k] < 128 && (k == 4 ==> s[k] <= 15) && forall i | 0 <= i < k :: s[i] >= 128
  }

  /** What the bytes from `i` up to `k` say together, seven bits each. */
  function TagValue(s: seq<byte>, i: nat, k: nat): nat
    requires i <= k < |s|
    decreases k - i
  {
    s[i] as nat % 128 + if i == k then 0 else 128 * TagValue(s, i + 1, k)
  }

  lemma {:induction false} DecodeTagFromExactly(s: seq<byte>, i: nat, k: nat)
    requires i <= 5 && forall j | 0 <= j < i && j < |s| :: s[j] >= 128
    ensures i <= k && TagEnds(s, k) ==> DecodeTagFrom(s, i) == Some((TagValue(s, i, k), k + 1))
    ensures DecodeTagFrom(s, i).Some? ==> TagEnds(s, DecodeTagFrom(s, i).value.1 - 1)
    decreases 5 - i
  {
    if i < |s| && i <= 4 && s[i] >= 128 {
      DecodeTagFromExactly(s, i + 1, k);
    }
  }

  /** On every sequence of bytes: whether it begins with a tag, and which. */
  lemma {:induction false} DecodeTagExactly(s: seq<byte>)
    ensures DecodeTag(s).Some? <==> exists k :: TagEnds(s, k)
    ensures forall k :: TagEnds(s, k) ==> DecodeTag(s) == Some((TagValue(s, 0, k), k + 1))
  {
    DecodeTagFromExactly(s, 0, 0);
    forall k | TagEnds(s, k)
      ensures DecodeTag(s) == Some((TagValue(s, 0, k), k + 1))
    {
      DecodeTagFromExactly(s, 0, k);
    }
  }

  // What a tag may be once `i` bytes of it have been read.
  function TagLimit(i: nat): nat
    requires i <= 4
    decreases 4 - i
  {
    if i == 4 then 16 else 128 * TagLimit(i + 1)
  }

  lemma {:induction false} TagFromRoundTrip(before: seq<byte>, tag: nat, after: seq<byte>)
    requires |before| <= 4 && tag < TagLimit(|before|)
    ensures DecodeTagFrom(before + EncodeTag(tag) + after, |before|) == Some((tag, |before| + |EncodeTag(tag)|))
    decreases tag
  {
    var s := before + EncodeTag(tag) + after;
    assert s[|before|] == EncodeTag(tag)[0];
    if tag >= 128 {
      var first := [(128 + tag % 128) as byte];
      TagFromRoundTrip(before + first, tag / 128, after);
      assert before + first + EncodeTag(tag / 128) == before + EncodeTag(tag);
    }
  }

  /** 32-bit tags decode to themselves, whatever comes behind them. */
  lemma {:induction false} TagRoundTrip(tag: nat, after: seq<byte>)
    requires tag < UINT32
    ensures DecodeTag(EncodeTag(tag) + after) == Some((tag, |EncodeTag(tag)|))
  {
    assert TagLimit(0) == UINT32;
    TagFromRoundTrip([], tag, after);
    assert [] + EncodeTag(tag) + after == EncodeTag(tag) + after;
  }

  function Pow128(i: nat): (n: nat)
    ensures n > 0
  {
    if i == 0 then 1 else 128 * Pow128(i - 1)
  }

  /** Byte number `i` of an encoded tag has its bits from 7 * `i` on, and says whether another byte follows. */
  lemma {:induction false} TagFormat(tag: nat, i: nat)
    requires i < |EncodeTag(tag)|
    ensures EncodeTag(tag)[i] as nat == (if i + 1 < |EncodeTag(tag)| then 128 else 0) + tag / Pow128(i) % 128
    ensures i + 1 == |EncodeTag(tag)| <==> tag / Pow128(i) < 128
    decreases tag
  {
    assert Pow128(0) == 1;
    if i > 0 {
      TagFormat(tag / 128, i - 1);
      DivideTwice(tag, 128, Pow128(i - 1));
    }
  }

  lemma {:induction false} DivideTwice(n: nat, a: nat, b: nat)
    requires a > 0 && b > 0
    ensures a * b > 0 && n / a / b == n / (a * b)
  {
    var q := n / a;
    var q', r' := q / b, q % b;
    Divided(n, a);
    Divided(q, b);
    Nested(n, a, b, q, n % a, q', r');
    QuotientIs(n, a * b, q', a * r' + n % a);
  }

  lemma {:induction false} Divided(n: nat, a: nat)
    requires a > 0
    ensures n == a * (n / a) + n % a && n % a < a
  {
  }

  lemma {:induction false} Nested(n: nat, a: nat, b: nat, q: nat, r: nat, q': nat, r': nat)
    requires n == a * q + r && q == b * q' + r' && r < a && r' < b
    ensures n == (a * b) * q' + (a * r' + r) && 0 <= a * r' + r < a * b
  {
    Distribute(a, b * q', r');
    Regroup(a, b, q');
    MulGrowth(a, r', b);
  }

  lemma {:induction false} Distribute(a: nat, x: nat, y: nat)
    ensures a * (x + y) == a * x + a * y
  {
  }

  lemma {:induction false} Regroup(a: nat, b: nat, c: nat)
    ensures a * (b * c) == (a * b) * c
  {
  }

  lemma {:induction false} MulGrowth(a: nat, x: nat, y: nat)
    requires x < y
    ensures a * x + a <= a * y
  {
    Distribute(a, x + 1, y - x - 1);
  }

  lemma {:induction false} QuotientIs(n: nat, d: nat, q: nat, r: nat)
    requires d > 0 && r < d && n == d * q + r
    ensures n / d == q
  {
    var k := n / d;
    if k < q {
      MulGrowth(d, k, q);
    } else if k > q {
      MulGrowth(d, q, k);
    }
  }

  /**
   * Nibble number `i` behind the first one has the bits of the integer from 4 * `i` on; the first nibble says how many
   * nibbles follow, less one, which are as many as are needed.
   */
  lemma {:induction false} IntFormat(n: nat, i: nat)
    requires i < Nibbles(n) <= 16
    ensures i + 1 < 2 * |EncodeInt(n)| && NibbleOf(EncodeInt(n), i + 1) == n / Power16(i) % 16
    ensures NibbleOf(EncodeInt(n), 0) == Nibbles(n) - 1
    ensures i + 1 == Nibbles(n) <==> n / Power16(i) < 16
  {
    EncodedNibble(n, EncodeInt(n), 0);
    EncodedNibble(n, EncodeInt(n), i + 1);
    DigitOfNibble(n, i + 1);
    DigitIs(n, i);
    NibblesExact(n, i);
  }

  lemma {:induction false} DigitIs(n: nat, i: nat)
    ensures Digit(n, i) == n / Power16(i) % 16
    decreases i
  {
    if i > 0 {
      DigitIs(n / 16, i - 1);
      DivideTwice(n, 16, Power16(i - 1));
    }
  }

  lemma {:induction false} NibblesExact(n: nat, i: nat)
    requires i < Nibbles(n)
    ensures i + 1 == Nibbles(n) <==> n / Power16(i) < 16
    decreases n
  {
    DigitIs(n, i);
    if i > 0 {
      NibblesExact(n / 16, i - 1);
      DivideTwice(n, 16, Power16(i - 1));
    }
  }

  // ----- records -----

  datatype Record = Record(tag: nat, data: seq<byte>)

  // evtag_marshal
  function Marshal(r: Record): seq<byte> {
    EncodeTag(r.tag) + EncodeInt(|r.data|) + r.data
  }

  // The value of a uint32_t as an int.
  function ToInt(n: nat): (i: int)
    ensures 0 - INT_LIMIT <= i < INT_LIMIT
  {
    var u := n % UINT32;
    if u < INT_LIMIT then u else u - UINT32
  }

  // What a function that reads from the front of a buffer returns, and what it leaves.
  datatype Read<T> = Read(result: Option<T>, rest: seq<byte>)

  // evtag_decode_int and evtag_decode_int64, which drain what they decode
  function TakeInt(s: seq<byte>, maxNibbles: nat): (r: Read<nat>)
    ensures r.result.None? ==> r.rest == s
  {
    match DecodeInt(s, 0, maxNibbles)
    case Some(d) => Read(Some(d.0), s[d.1..])
    case None => Read(None, s)
  }

  /** On every sequence of bytes: the integer decoded is made of the nibbles that the first one announces. */
  lemma {:induction false} DecodedInt(s: seq<byte>, offset: nat, maxNibbles: nat, i: nat)
    requires DecodeInt(s, offset, maxNibbles).Some? && i < NibbleOf(s[offset..], 0) + 1
    ensures var (n, len) := DecodeInt(s, offset, maxNibbles).value; var t := s[offset..];
      && n / Power16(i) % 16 == NibbleOf(t, i + 1) && n < Power16(NibbleOf(t, 0) + 1)
      && len == (NibbleOf(t, 0) + 1) / 2 + 1 && NibbleOf(t, 0) < maxNibbles
  {
    var t := s[offset..];
    var k := NibbleOf(t, 0) + 1;
    ValueDigits(t, 0, k, i);
    ValueBound(t, 0, k);
  }

  lemma {:induction false} ValueStep(s: seq<byte>, i: nat, k: nat)
    requires i < k < 2 * |s|
    ensures Value(s, i, k) % 16 == NibbleOf(s, i + 1) && Value(s, i, k) / 16 == Value(s, i + 1, k)
  {
  }

  lemma {:induction false} ValueDigits(s: seq<byte>, i: nat, k: nat, j: nat)
    requires i + j < k < 2 * |s|
    ensures Value(s, i, k) / Power16(j) % 16 == NibbleOf(s, i + j + 1)
    decreases j
  {
    ValueStep(s, i, k);
    if j > 0 {
      ValueDigits(s, i + 1, k, j - 1);
      DivideTwice(Value(s, i, k), 16, Power16(j - 1));
    }
  }

  lemma {:induction false} TakeIntRoundTrip(n: nat, after: seq<byte>, maxNibbles: nat)
    requires Nibbles(n) <= maxNibbles <= 16
    ensures var s := EncodeInt(n) + after;
      && DecodeInt(s, 0, maxNibbles) == Some((n, |EncodeInt(n)|))
      && TakeInt(s, maxNibbles) == Read(Some(n), after)
  {
    IntRoundTrip([], n, after, maxNibbles);
    assert [] + EncodeInt(n) + after == EncodeInt(n) + after;
    assert (EncodeInt(n) + after)[|EncodeInt(n)|..] == after;
  }

  // evtag_unmarshal_header
  function TakeHeader(s: seq<byte>): Read<(nat, nat)> {
    match DecodeTag(s)
    case None => Read(None, s)
    case Some(t) =>
      var len := TakeInt(s[t.1..], 8);
      if len.result.None? || |len.rest| < len.result.value then Read(None, len.rest)
      else Read(Some((t.0, len.result.value)), len.rest)
  }

  // evtag_unmarshal
  function Unmarshal(s: seq<byte>): Read<Record> {
    var header := TakeHeader(s);
    if header.result.None? then Read(None, header.rest)
    else
      var (tag, len) := header.result.value;
      if len >= INT_LIMIT || len > |header.rest| then Read(None, header.rest)
      else Read(Some(Record(tag, header.rest[..len])), header.rest[len..])
  }

  lemma {:induction false} ValueBound(s: seq<byte>, i: nat, k: nat)
    requires i <= k < 2 * |s|
    ensures Value(s, i, k) < Power16(k - i)
    decreases k - i
  {
    if i < k {
      ValueBound(s, i + 1, k);
    }
  }

  lemma {:induction false} Power16Grows(k: nat, n: nat)
    requires k <= n
    ensures Power16(k) <= Power16(n)
    decreases n
  {
    if k < n {
      Power16Grows(k, n - 1);
    }
  }

  /** What is read as a length fits into 32 bits, and there are that many bytes. */
  lemma {:induction false} HeaderBound(s: seq<byte>)
    ensures var h := TakeHeader(s); h.result.Some? ==> h.result.value.1 < UINT32 && h.result.value.1 <= |h.rest|
  {
    var t := DecodeTag(s);
    if t.Some? && DecodeInt(s[t.value.1..], 0, 8).Some? {
      var r := s[t.value.1..];
      var k := r[0] as nat / 16 + 1;
      assert r[0..] == r;
      ValueBound(r, 0, k);
      Power16Grows(k, 8);
      assert Power16(8) == UINT32;
    }
  }

  // An int as a size_t.
  function ToSize(len: int): (n: nat)
    requires 0 - INT_LIMIT <= len
  {
    if len < 0 then SIZE_MAX + 1 + len else len
  }

  // evbuffer_drain, given an int
  function Drained(s: seq<byte>, len: int): seq<byte>
    requires 0 - INT_LIMIT <= len
  {
    s[Min(ToSize(len), |s|)..]
  }

  // evtag_consume: whether it succeeds, and what it leaves. The length passes through an int.
  function ConsumeFirst(s: seq<byte>): (bool, seq<byte>) {
    var header := TakeHeader(s);
    if header.result.None? || ToInt(header.result.value.1) == -1 then (false, header.rest)
    else (true, Drained(header.rest, ToInt(header.result.value.1)))
  }

  /** Consuming takes exactly the first record if and only if its length fits into an int, or it is all there is. */
  lemma {:induction false} ConsumesRecord(s: seq<byte>)
    requires TakeHeader(s).result.Some?
    ensures var h := TakeHeader(s); var len := h.result.value.1;
      && len <= |h.rest|
      && (ConsumeFirst(s) == (true, h.rest[len..]) <==> len < INT_LIMIT || (len < UINT32 - 1 && len == |h.rest|))
      && (len == UINT32 - 1 ==> ConsumeFirst(s) == (false, h.rest))
      && (INT_LIMIT <= len < UINT32 - 1 && |h.rest| <= SIZE_MAX - INT_LIMIT ==> ConsumeFirst(s) == (true, []))
  {
    HeaderBound(s);
    var h := TakeHeader(s);
    var len := h.result.value.1;
    assert len % UINT32 == len;
    var k := Min(ToSize(ToInt(len)), |h.rest|);
    assert h.rest[k..] == h.rest[len..] <==> k == len by {
      assert |h.rest[k..]| == |h.rest| - k && |h.rest[len..]| == |h.rest| - len;
    }
  }

  lemma {:induction false} HeaderRoundTrip(tag: nat, len: nat, after: seq<byte>)
    requires tag < UINT32 && len < UINT32 && len <= |after|
    ensures TakeHeader(EncodeTag(tag) + EncodeInt(len) + after) == Read(Some((tag, len)), after)
  {
    var t, n := EncodeTag(tag), EncodeInt(len);
    var s := t + n + after;
    TagRoundTrip(tag, n + after);
    assert s == t + (n + after) && s[|t|..] == n + after;
    Widths(len);
    TakeIntRoundTrip(len, after, 8);
  }

  /** What has been marshalled is unmarshalled as it was, and what is behind it stays. */
  lemma {:induction false} RecordRoundTrip(r: Record, after: seq<byte>)
    requires r.tag < UINT32 && |r.data| < INT_LIMIT
    ensures Unmarshal(Marshal(r) + after) == Read(Some(r), after)
  {
    assert Marshal(r) + after == EncodeTag(r.tag) + EncodeInt(|r.data|) + (r.data + after);
    HeaderRoundTrip(r.tag, |r.data|, r.data + after);
    assert (r.data + after)[..|r.data|] == r.data && (r.data + after)[|r.data|..] == after;
  }

  /** No beginning of a record is taken for a record. */
  lemma {:induction false} CutShort(r: Record, k: nat)
    requires r.tag < UINT32 && |r.data| < UINT32 && k < |Marshal(r)|
    ensures Unmarshal(Marshal(r)[..k]).result == None
  {
    var t, n := EncodeTag(r.tag), EncodeInt(|r.data|);
    TakeOfThree(t, n, r.data, k);
    if k < |t| {
      TagCutShort(r.tag, k, 0);
    } else if k < |t| + |n| {
      CutInLength(r.tag, |r.data|, k - |t|);
    } else {
      CutInData(r.tag, |r.data|, r.data[..k - |t| - |n|]);
    }
  }

  lemma {:induction false} TakeOfThree(a: seq<byte>, b: seq<byte>, c: seq<byte>, k: nat)
    requires k < |a| + |b| + |c|
    ensures (a + b + c)[..k] ==
      if k < |a| then a[..k] else if k < |a| + |b| then a + b[..k - |a|] else a + (b + c[..k - |a| - |b|])
  {
  }

  lemma {:induction false} CutInLength(tag: nat, len: nat, k: nat)
    requires tag < UINT32 && len < UINT32 && k < |EncodeInt(len)|
    ensures Unmarshal(EncodeTag(tag) + EncodeInt(len)[..k]).result == None
  {
    BehindTag(tag, EncodeInt(len)[..k]);
    IntCutShort(len, k);
  }

  lemma {:induction false} CutInData(tag: nat, len: nat, d: seq<byte>)
    requires tag < UINT32 && len < UINT32 && |d| < len
    ensures Unmarshal(EncodeTag(tag) + (EncodeInt(len) + d)).result == None
  {
    BehindTag(tag, EncodeInt(len) + d);
    Widths(len);
    TakeIntRoundTrip(len, d, 8);
  }

  lemma {:induction false} BehindTag(tag: nat, s: seq<byte>)
    requires tag < UINT32
    ensures var len := TakeInt(s, 8);
      len.result.None? || |len.rest| < len.result.value ==> Unmarshal(EncodeTag(tag) + s).result == None
  {
    TagRoundTrip(tag, s);
    assert (EncodeTag(tag) + s)[|EncodeTag(tag)|..] == s;
  }

  lemma {:induction false} TagCutShort(tag: nat, k: nat, i: nat)
    requires k < |EncodeTag(tag)| && i <= k
    ensures DecodeTagFrom(EncodeTag(tag)[..k], i) == None
    decreases k - i
  {
    if i < k {
      TagFormat(tag, i);
      TagCutShort(tag, k, i + 1);
    }
  }

  lemma {:induction false} IntCutShort(n: nat, k: nat)
    requires n < UINT32 && k < |EncodeInt(n)|
    ensures TakeInt(EncodeInt(n)[..k], 8) == Read(None, EncodeInt(n)[..k])
  {
    Widths(n);
    if k > 0 {
      EncodedNibble(n, EncodeInt(n), 0);
    }
  }

  function MarshalAll(rs: seq<Record>): seq<byte> {
    if rs == [] then [] else Marshal(rs[0]) + MarshalAll(rs[1..])
  }

  // evtag_unmarshal, `n` times
  function UnmarshalAll(s: seq<byte>, n: nat): Read<seq<Record>> {
    if n == 0 then Read(Some([]), s)
    else
      var first := Unmarshal(s);
      if first.result.None? then Read(None, first.rest)
      else
        var more := UnmarshalAll(first.rest, n - 1);
        if more.result.None? then more else Read(Some([first.result.value] + more.result.value), more.rest)
  }

  lemma {:induction false} MarshalMore(r: Record, rs: seq<Record>)
    ensures MarshalAll([r] + rs) == Marshal(r) + MarshalAll(rs)
  {
    assert ([r] + rs)[1..] == rs;
  }

  lemma {:induction false} UnmarshalMore(s: seq<byte>, n: nat, r: Record, rs: seq<Record>, middle: seq<byte>, after: seq<byte>)
    requires Unmarshal(s) == Read(Some(r), middle) && UnmarshalAll(middle, n) == Read(Some(rs), after)
    ensures UnmarshalAll(s, n + 1) == Read(Some([r] + rs), after)
  {
  }

  lemma {:induction false} StreamStep(r: Record, rs: seq<Record>, after: seq<byte>)
    requires r.tag < UINT32 && |r.data| < INT_LIMIT
    requires UnmarshalAll(MarshalAll(rs) + after, |rs|) == Read(Some(rs), after)
    ensures UnmarshalAll(MarshalAll([r] + rs) + after, |rs| + 1) == Read(Some([r] + rs), after)
  {
    var s := MarshalAll(rs) + after;
    RecordRoundTrip(r, s);
    MarshalMore(r, rs);
    Regrouped(Marshal(r), MarshalAll(rs), after);
    UnmarshalMore(Marshal(r) + s, |rs|, r, rs, s, after);
  }

  lemma {:induction false} Regrouped(a: seq<byte>, b: seq<byte>, c: seq<byte>)
    ensures a + b + c == a + (b + c)
  {
    assert a + b + c == a + (b + c);
  }

  /** A stream of records gives back the records and ends where they end. */
  lemma {:induction false} StreamRoundTrip(rs: seq<Record>, after: seq<byte>)
    requires forall i | 0 <= i < |rs| :: rs[i].tag < UINT32 && |rs[i].data| < INT_LIMIT
    ensures UnmarshalAll(MarshalAll(rs) + after, |rs|) == Read(Some(rs), after)
  {
    if rs == [] {
      assert [] + after == after;
    } else {
      var r, more := rs[0], rs[1..];
      assert [r] + more == rs;
      StreamRoundTrip(more, after);
      StreamStep(r, more, after);
    }
  }

  // evtag_payload_length
  function PayloadLength(s: seq<byte>): Option<nat> {
    match DecodeTag(s)
    case None => None
    case Some(t) =>
      match DecodeInt(s, t.1, 8)
      case None => None
      case Some(n) => Some(n.0)
  }

  // evtag_peek_length, which adds up in 32 bits
  function PeekLength(s: seq<byte>): Option<nat> {
    match DecodeTag(s)
    case None => None
    case Some(t) =>
      match DecodeInt(s, t.1, 8)
      case None => None
      case Some(n) => Some((n.0 + n.1 + t.1) % UINT32)
  }

  /** Peeking at a stream tells the length of its first record and of the data in it. */
  lemma {:induction false} PeekRoundTrip(r: Record, after: seq<byte>)
    requires r.tag < UINT32 && |r.data| < UINT32
    ensures var s := Marshal(r) + after;
      && PayloadLength(s) == Some(|r.data|)
      && PeekLength(s) == Some(|Marshal(r)| % UINT32)
  {
    var t, n := EncodeTag(r.tag), EncodeInt(|r.data|);
    var s := Marshal(r) + after;
    assert s == t + (n + r.data + after) && s == t + n + (r.data + after);
    TagRoundTrip(r.tag, n + r.data + after);
    Widths(|r.data|);
    IntRoundTrip(t, |r.data|, r.data + after, 8);
  }

  // evtag_marshal_int, evtag_marshal_int64
  function MarshalInt(tag: nat, n: nat): seq<byte> {
    Marshal(Record(tag, EncodeInt(n)))
  }

  // evtag_unmarshal_int (at most 8 nibbles) and evtag_unmarshal_int64 (at most 16)
  function UnmarshalInt(s: seq<byte>, needTag: nat, maxNibbles: nat): Read<nat> {
    match DecodeTag(s)
    case None => Read(None, s)
    case Some(t) =>
      if t.0 != needTag then Read(None, s[t.1..]) else UnmarshalRest(s[t.1..], maxNibbles)
  }

  // The part of evtag_unmarshal_int behind the tag.
  function UnmarshalRest(s: seq<byte>, maxNibbles: nat): Read<nat> {
    var len := TakeInt(s, 8);
    if len.result.None? || |len.rest| < len.result.value then Read(None, len.rest)
    else
      var rest := len.rest[len.result.value..];
      match DecodeInt(len.rest, 0, maxNibbles)
      case Some(d) => if d.1 > len.result.value then Read(None, rest) else Read(Some(d.0), rest)
      case None => Read(None, rest)
  }

  /** Integers in records decode to themselves: 32-bit ones, and 64-bit ones with the 64-bit functions. */
  lemma {:induction false} NestedIntRoundTrip(tag: nat, n: nat, after: seq<byte>, maxNibbles: nat)
    requires tag < UINT32 && Nibbles(n) <= maxNibbles <= 16
    ensures UnmarshalInt(MarshalInt(tag, n) + after, tag, maxNibbles) == Read(Some(n), after)
  {
    var t, l, d := EncodeTag(tag), EncodeInt(|EncodeInt(n)|), EncodeInt(n);
    var s, s1 := MarshalInt(tag, n) + after, l + (d + after);
    assert s == t + s1 && s[|t|..] == s1;
    TagRoundTrip(tag, s1);
    NestedRest(n, after, maxNibbles);
    assert UnmarshalInt(s, tag, maxNibbles) == UnmarshalRest(s1, maxNibbles);
  }

  lemma {:induction false} NestedRest(n: nat, after: seq<byte>, maxNibbles: nat)
    requires Nibbles(n) <= maxNibbles <= 16
    ensures UnmarshalRest(EncodeInt(|EncodeInt(n)|) + (EncodeInt(n) + after), maxNibbles) == Read(Some(n), after)
  {
    var d := EncodeInt(n);
    assert |d| <= 9;
    TakeIntRoundTrip(|d|, d + after, 8);
    TakeIntRoundTrip(n, after, maxNibbles);
    assert (d + after)[|d|..] == after;
  }

  /** An integer under another tag is refused, with only the tag taken. */
  lemma {:induction false} WrongTagRefused(tag: nat, needTag: nat, after: seq<byte>, maxNibbles: nat)
    requires tag < UINT32 && tag != needTag
    ensures UnmarshalInt(EncodeTag(tag) + after, needTag, maxNibbles) == Read(None, after)
  {
    TagRoundTrip(tag, after);
    assert (EncodeTag(tag) + after)[|EncodeTag(tag)|..] == after;
  }

  /** An integer that is too wide is refused, but its record is taken. */
  lemma {:induction false} TooWideRefused(tag: nat, n: nat, after: seq<byte>, maxNibbles: nat)
    requires tag < UINT32 && maxNibbles < Nibbles(n) <= 16
    ensures UnmarshalInt(MarshalInt(tag, n) + after, tag, maxNibbles) == Read(None, after)
  {
    var t, l, d := EncodeTag(tag), EncodeInt(|EncodeInt(n)|), EncodeInt(n);
    var s, s1 := MarshalInt(tag, n) + after, l + (d + after);
    assert s == t + s1 && s[|t|..] == s1;
    TagRoundTrip(tag, s1);
    TooWideRest(n, after, maxNibbles);
    assert UnmarshalInt(s, tag, maxNibbles) == UnmarshalRest(s1, maxNibbles);
  }

  lemma {:induction false} TooWideRest(n: nat, after: seq<byte>, maxNibbles: nat)
    requires maxNibbles < Nibbles(n) <= 16
    ensures UnmarshalRest(EncodeInt(|EncodeInt(n)|) + (EncodeInt(n) + after), maxNibbles) == Read(None, after)
  {
    var d := EncodeInt(n);
    assert |d| <= 9;
    TakeIntRoundTrip(|d|, d + after, 8);
    EncodedNibble(n, d + after, 0);
    assert DecodeInt(d + after, 0, maxNibbles) == None;
    assert (d + after)[|d|..] == after;
  }

  /** 32-bit integers need 8 nibbles at most, 64-bit ones 16. */
  lemma {:induction false} NestedIntWidths(tag: nat, n: nat, after: seq<byte>)
    requires tag < UINT32
    ensures n < UINT32 ==> UnmarshalInt(MarshalInt(tag, n) + after, tag, 8) == Read(Some(n), after)
    ensures n < UINT64 ==> UnmarshalInt(MarshalInt(tag, n) + after, tag, 16) == Read(Some(n), after)
  {
    Widths(n);
    if n < UINT32 {
      NestedIntRoundTrip(tag, n, after, 8);
    }
    if n < UINT64 {
      NestedIntRoundTrip(tag, n, after, 16);
    }
  }

  // A value as an ev_uint32_t.
  function Low32(n: int): (r: nat)
    ensures r < UINT32 && (r == n <==> 0 <= n < UINT32)
  {
    n % UINT32
  }

  // evtag_marshal_timeval, which keeps 32 bits of each part
  function MarshalTimeval(tag: nat, sec: int, usec: int): seq<byte> {
    Marshal(Record(tag, EncodeInt(Low32(sec)) + EncodeInt(Low32(usec))))
  }

  // evtag_unmarshal_timeval, in which the length is an int too
  function UnmarshalTimeval(s: seq<byte>, needTag: nat): Read<(nat, nat)> {
    var header := TakeHeader(s);
    if header.result.None? || ToInt(header.result.value.1) == -1 then Read(None, header.rest)
    else
      var (tag, length) := header.result.value;
      var len := ToInt(length);
      Read(if tag != needTag then None else TwoInts(header.rest, len), Drained(header.rest, len))
  }

  // Two integers one after the other, of at most `len` bytes together.
  function TwoInts(s: seq<byte>, len: int): Option<(nat, nat)> {
    match DecodeInt(s, 0, 8)
    case None => None
    case Some(a) =>
      match DecodeInt(s, a.1, 8)
      case None => None
      case Some(b) => if a.1 + b.1 > len then None else Some((a.0, b.0))
  }

  lemma {:induction false} TwoIntsRoundTrip(m: nat, n: nat, after: seq<byte>)
    requires m < UINT32 && n < UINT32
    ensures TwoInts(EncodeInt(m) + EncodeInt(n) + after, |EncodeInt(m) + EncodeInt(n)|) == Some((m, n))
  {
    var a, b := EncodeInt(m), EncodeInt(n);
    Widths(m);
    Widths(n);
    assert a + b + after == a + (b + after);
    TakeIntRoundTrip(m, b + after, 8);
    IntRoundTrip(a, n, after, 8);
  }

  lemma {:induction false} TimevalOf(s: seq<byte>, tag: nat, len: nat, rest: seq<byte>)
    requires TakeHeader(s) == Read(Some((tag, len)), rest) && len < INT_LIMIT && len <= |rest|
    ensures UnmarshalTimeval(s, tag) == Read(TwoInts(rest, len), rest[len..])
  {
    assert len % UINT32 == len;
  }

  lemma {:induction false} TwoIntsRecord(tag: nat, m: nat, n: nat, after: seq<byte>)
    requires tag < UINT32 && m < UINT32 && n < UINT32
    ensures UnmarshalTimeval(Marshal(Record(tag, EncodeInt(m) + EncodeInt(n))) + after, tag) == Read(Some((m, n)), after)
  {
    var d := EncodeInt(m) + EncodeInt(n);
    Widths(m);
    Widths(n);
    assert |d| <= 10;
    assert Marshal(Record(tag, d)) + after == EncodeTag(tag) + EncodeInt(|d|) + (d + after);
    HeaderRoundTrip(tag, |d|, d + after);
    TimevalOf(Marshal(Record(tag, d)) + after, tag, |d|, d + after);
    TwoIntsRoundTrip(m, n, after);
    assert (d + after)[|d|..] == after;
  }

  lemma {:induction false} OtherTimeval(s: seq<byte>, tag: nat, needTag: nat, len: nat, rest: seq<byte>)
    requires TakeHeader(s) == Read(Some((tag, len)), rest) && len < INT_LIMIT && len <= |rest| && tag != needTag
    ensures UnmarshalTimeval(s, needTag) == Read(None, rest[len..])
  {
    assert len % UINT32 == len;
  }

  /** A timeval under another tag is refused, but its record is taken. */
  lemma {:induction false} WrongTimevalTaken(r: Record, needTag: nat, after: seq<byte>)
    requires r.tag < UINT32 && |r.data| < INT_LIMIT && r.tag != needTag
    ensures UnmarshalTimeval(Marshal(r) + after, needTag) == Read(None, after)
  {
    assert Marshal(r) + after == EncodeTag(r.tag) + EncodeInt(|r.data|) + (r.data + after);
    HeaderRoundTrip(r.tag, |r.data|, r.data + after);
    OtherTimeval(Marshal(r) + after, r.tag, needTag, |r.data|, r.data + after);
    assert (r.data + after)[|r.data|..] == after;
  }

  /** A timeval comes back modulo 2^32; so it survives exactly if both parts fit into 32 bits. */
  lemma {:induction false} TimevalRoundTrip(tag: nat, sec: int, usec: int, after: seq<byte>)
    requires tag < UINT32
    ensures UnmarshalTimeval(MarshalTimeval(tag, sec, usec) + after, tag) == Read(Some((Low32(sec), Low32(usec))), after)
  {
    TwoIntsRecord(tag, Low32(sec), Low32(usec), after);
  }
}
