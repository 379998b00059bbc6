// The encoder and the parser of domain names as they work on buffers.
module DnsPackets {
  import opened Bytes
  import opened DnsNames

  class LabelTable {
    var labels: seq<Entry>

    // dnslabel_table_init
    constructor ()
      ensures labels == []
    {
      labels := [];
    }

    // dnslabel_table_get_pos
    method GetPos(name: seq<byte>) returns (pos: int)
      ensures pos == match Find(labels, name) case Some(p) => p as int case None => -1
    {
      var i := 0;
      while i < |labels|
        invariant 0 <= i <= |labels| && Find(labels[i..], name) == Find(labels, name)
      {
        if labels[i].name == name {
          return labels[i].pos;
        }
        assert labels[i..][1..] == labels[i + 1..];
        i := i + 1;
      }
      return -1;
    }

    // dnslabel_table_add
    method Add(name: seq<byte>, pos: nat) returns (r: int)
      modifies this
      ensures labels == Remember(old(labels), MAX_LABELS, name, pos)
      ensures r == if |old(labels)| < MAX_LABELS then 0 else -1
    {
      if |labels| >= MAX_LABELS {
        return -1;
      }
      labels := labels + [Entry(name, pos)];
      return 0;
    }
  }

  // The entries of a table that may be missing, and how many it can hold.
  ghost function Entries(table: LabelTable?): seq<Entry>
    reads table
  {
    if table == null then [] else table.labels
  }

  function Capacity(table: LabelTable?): nat {
    if table == null then 0 else MAX_LABELS
  }

  // dnslabel_table_get_pos, if there is a table
  method Lookup(table: LabelTable?, name: seq<byte>) returns (pos: Option<nat>)
    ensures pos == Find(Entries(table), name)
  {
    if table == null {
      return None;
    }
    var p := table.GetPos(name);
    return if p >= 0 then Some(p) else None;
  }

  // dnslabel_table_add, if there is a table
  method Note(table: LabelTable?, name: seq<byte>, pos: nat)
    modifies table
    ensures Entries(table) == Remember(old(Entries(table)), Capacity(table), name, pos)
  {
    if table != null {
      var _ := table.Add(name, pos);
    }
  }

  method Append16(buf: array<byte>, j: nat, pos: nat)
    requires j + 2 <= buf.Length
    modifies buf
    ensures buf[..j] == old(buf[..j])
    ensures buf[..j + 2] == old(buf[..j]) + Pointer(pos)
    ensures buf[j + 2..] == old(buf[j + 2..])
  {
    buf[j], buf[j + 1] := (192 + pos / 256 % 64) as byte, (pos % 256) as byte;
  }

  method AppendLabel(buf: array<byte>, j: nat, text: seq<byte>)
    requires |text| <= MAX_LABEL && j + 1 + |text| <= buf.Length
    modifies buf
    ensures buf[..j] == old(buf[..j])
    ensures buf[..j + 1 + |text|] == WithLabel(old(buf[..j]), text)
    ensures buf[j + 1 + |text|..] == old(buf[j + 1 + |text|..])
  {
    buf[j] := |text| as byte;
    forall i | 0 <= i < |text| {
      buf[j + 1 + i] := text[i];
    }
  }

  /** The encoder has returned `r`, having made `result` of the first bytes of the buffer and of the table. */
  ghost predicate Returned(buf: array<byte>, table: LabelTable?, r: int, result: Encoded)
    reads buf, table
  {
    match result
    case Written(p, t) => r == |p| <= buf.Length && buf[..|p|] == p && Entries(table) == t
    case Failed(code) => r == code
  }

  // The last label of a name, and a zero byte behind it unless the label is empty.
  method AppendLast(buf: array<byte>, k: nat, text: seq<byte>) returns (r: nat)
    requires |text| <= MAX_LABEL && k + 1 + |text| <= buf.Length && (text != [] ==> k + 1 + |text| < buf.Length)
    modifies buf
    ensures buf[..k] == old(buf[..k])
    ensures k < r <= buf.Length && buf[..r] == Terminated(WithLabel(old(buf[..k]), text)) && buf[r..] == old(buf[r..])
  {
    AppendLabel(buf, k, text);
    r := k + 1 + |text|;
    assert buf[..r][r - 1] == buf[r - 1];
    if buf[r - 1] != 0 {
      buf[r] := 0;
      r := r + 1;
    }
  }

  /** The buffer is as large as the encoder is told, and larger by one byte if the name will fill it. */
  ghost predicate HasRoom(buf: array<byte>, used: nat, name: seq<byte>, table: LabelTable?, bufLen: nat)
    reads table
  {
    bufLen <= buf.Length && (FillsBuffer(used, name, Entries(table), bufLen) ==> bufLen < buf.Length)
  }

  // A label with others behind it.
  method PutLabel(buf: array<byte>, bufLen: nat, k: nat, rest: seq<byte>, table: LabelTable?) returns (r: nat)
    requires Find(Entries(table), rest).None? && Dot(rest) < |rest| && Dot(rest) <= MAX_LABEL && k + Dot(rest) + 1 <= bufLen
    requires HasRoom(buf, k, rest, table, bufLen)
    modifies buf, table
    ensures r == k + 1 + Dot(rest) && buf[..k] == old(buf[..k]) && buf[r..] == old(buf[r..])
    ensures buf[..r] == WithLabel(old(buf[..k]), rest[..Dot(rest)])
    ensures Entries(table) == Remember(old(Entries(table)), Capacity(table), rest, k)
    ensures HasRoom(buf, r, rest[Dot(rest) + 1..], table, bufLen)
  {
    FillsStep(k, rest, Entries(table), Capacity(table), bufLen, k);
    Note(table, rest, k);
    AppendLabel(buf, k, rest[..Dot(rest)]);
    r := k + 1 + Dot(rest);
  }

  // The last label.
  method PutLast(buf: array<byte>, bufLen: nat, k: nat, rest: seq<byte>, table: LabelTable?) returns (r: nat)
    requires Find(Entries(table), rest).None? && Dot(rest) == |rest| <= MAX_LABEL && k + |rest| + 1 <= bufLen
    requires HasRoom(buf, k, rest, table, bufLen)
    modifies buf, table
    ensures k < r <= buf.Length && buf[..k] == old(buf[..k]) && buf[r..] == old(buf[r..])
    ensures buf[..r] == Terminated(WithLabel(old(buf[..k]), rest))
    ensures Entries(table) == Remember(old(Entries(table)), Capacity(table), rest, k)
  {
    Note(table, rest, k);
    r := AppendLast(buf, k, rest);
  }

  // One round of the loop in dnsname_to_labels; `more` says whether there is another label.
  method EncodeLabel(buf: array<byte>, bufLen: nat, k: nat, rest: seq<byte>, table: LabelTable?) returns (more: bool, r: int)
    requires k <= bufLen && HasRoom(buf, k, rest, table, bufLen)
    modifies buf, table
    ensures buf[..k] == old(buf[..k]) && (r >= 0 ==> k < r <= buf.Length && buf[r..] == old(buf[r..]))
    ensures var whole := EncodeRest(old(buf[..k]), rest, old(Entries(table)), Capacity(table), bufLen);
      if more then
        && k < r <= bufLen && Dot(rest) < |rest| && HasRoom(buf, r, rest[Dot(rest) + 1..], table, bufLen)
        && EncodeRest(buf[..r], rest[Dot(rest) + 1..], Entries(table), Capacity(table), bufLen) == whole
      else Returned(buf, table, r, whole)
  {
    ghost var p, t := buf[..k], Entries(table);
    var ref := Lookup(table, rest);
    if ref.Some? {
      if k + 2 > bufLen {
        return false, -2;
      }
      Append16(buf, k, ref.value);
      return false, k + 2;
    }
    var dot := Dot(rest);
    if dot > MAX_LABEL {
      return false, -1;
    }
    if k + dot + 1 > bufLen {
      return false, -2;
    }
    if dot < |rest| {
      r := PutLabel(buf, bufLen, k, rest, table);
      assert EncodeRest(buf[..r], rest[dot + 1..], Entries(table), Capacity(table), bufLen) == EncodeRest(p, rest, t, Capacity(table), bufLen);
      return true, r;
    }
    assert rest[..dot] == rest;
    r := PutLast(buf, bufLen, k, rest, table);
    return false, r;
  }

  /** A round changes nothing before `k` or from `r` on, the rounds before it nothing before `j` or from `k` on. */
  lemma {:induction false} Outside(first: seq<byte>, before: seq<byte>, now: seq<byte>, j: nat, k: nat, r: int)
    requires j <= k <= |first| == |before| == |now| && first[..j] == before[..j] && first[k..] == before[k..]
    requires before[..k] == now[..k] && (r >= 0 ==> k <= r <= |now| && before[r..] == now[r..])
    ensures first[..j] == now[..j] && (r >= 0 ==> first[r..] == now[r..])
  {
    assert before[..k][..j] == now[..k][..j];
    if r >= 0 {
      assert first[k..][r - k..] == before[k..][r - k..];
    }
  }

  // dnsname_to_labels. Callers pass the size of the buffer, which the zero byte at the end may exceed.
  method DnsnameToLabels(buf: array<byte>, bufLen: nat, j: nat, name: seq<byte>, table: LabelTable?) returns (r: int)
    requires j <= bufLen <= buf.Length && (|name| <= MAX_NAME ==> HasRoom(buf, j, name, table, bufLen))
    modifies buf, table
    ensures buf[..j] == old(buf[..j]) && (r >= 0 ==> r <= buf.Length && buf[r..] == old(buf[r..]))
    ensures Returned(buf, table, r, Encode(old(buf[..j]), name, old(Entries(table)), Capacity(table), bufLen))
    ensures IsString(name) ==> r == if |name| > MAX_NAME then -2 else Answer(PlanOf(name, old(Entries(table))), j, name, bufLen)
    ensures Encodable(name) && j + |name| + 2 <= bufLen ==> j < r <= j + |name| + 2
  {
    EncodeReturns(buf[..j], name, Entries(table), Capacity(table), bufLen);
    if |name| > MAX_NAME {
      return -2;
    }
    var k: nat, rest, more := j, name, true;
    ghost var whole := EncodeRest(buf[..j], name, Entries(table), Capacity(table), bufLen);
    r := j;
    while more
      invariant HasRoom(buf, k, rest, table, bufLen)
      invariant j <= k <= bufLen && r == k && buf[..j] == old(buf[..j]) && buf[k..] == old(buf[k..])
      invariant EncodeRest(buf[..k], rest, Entries(table), Capacity(table), bufLen) == whole
      decreases more, |rest|
    {
      ghost var before := buf[..];
      more, r := EncodeLabel(buf, bufLen, k, rest, table);
      Outside(old(buf[..]), before, buf[..], j, k, r);
      if !more {
        return;
      }
      k, rest := r, rest[Dot(rest) + 1..];
    }
  }

  // name_parse, which writes the name into `nameOut` as a C string. Returns 0 and the end of the name, or -1.
  method NameParse(packet: array<byte>, idx: nat, nameOut: array<byte>) returns (r: int, end: nat)
    requires nameOut != packet
    modifies nameOut
    ensures match Parse(packet[..], idx, nameOut.Length)
      case Name(text, e) => r == 0 && end == e && |text| < nameOut.Length && nameOut[..|text| + 1] == text + [0]
      case Malformed => r == -1 && end == idx
  {
    var j: nat, cp: nat, jumps: nat, nameEnd: Option<nat> := idx, 0, 0, None;
    ghost var p := packet[..];
    while true
      invariant cp <= nameOut.Length && jumps <= packet.Length && packet[..] == p
      invariant ParseLoop(p, j, nameOut[..cp], nameEnd, jumps, nameOut.Length) == Parse(p, idx, nameOut.Length)
      decreases packet.Length - jumps, packet.Length - j
    {
      if j >= packet.Length {
        return -1, idx;
      }
      var n := packet[j] as nat;
      if n == 0 {
        j := j + 1;
        break;
      }
      if n >= 64 {
        if j + 1 >= packet.Length {
          return -1, idx;
        }
        nameEnd := if nameEnd.Some? then nameEnd else Some(j + 2);
        j := n % 64 * 256 + packet[j + 1] as nat;
        jumps := jumps + 1;
        if j >= packet.Length || jumps > packet.Length {
          return -1, idx;
        }
      } else {
        var ok;
        ok, cp := CopyLabel(packet, j, n, nameOut, cp);
        if !ok {
          return -1, idx;
        }
        j := j + 1 + n;
      }
    }
    if cp >= nameOut.Length {
      return -1, idx;
    }
    nameOut[cp] := 0;
    return 0, if nameEnd.Some? then nameEnd.value else j;
  }

  // Copies the label at `j` behind the text in `nameOut`, with a dot before it if there is text already.
  method CopyLabel(packet: array<byte>, j: nat, n: nat, nameOut: array<byte>, at: nat) returns (ok: bool, cp: nat)
    requires nameOut != packet && at <= nameOut.Length && j < packet.Length && 0 < n < 64
    modifies nameOut
    ensures ok <==> (at == 0 || at + 1 < nameOut.Length) && (if at == 0 then 0 else at + 1) + n < nameOut.Length && j + 1 + n <= packet.Length
    ensures cp <= nameOut.Length
    ensures ok ==> nameOut[..cp] == Next(old(nameOut[..at]), packet[j + 1..j + 1 + n])
  {
    cp := at;
    if cp != 0 {
      if cp + 1 >= nameOut.Length {
        return false, cp;
      }
      nameOut[cp] := DOT;
      cp := cp + 1;
    }
    if cp + n >= nameOut.Length || j + 1 + n > packet.Length {
      return false, cp;
    }
    CopyText(nameOut, cp, packet[j + 1..j + 1 + n]);
    return true, cp + n;
  }

  // memcpy
  method CopyText(nameOut: array<byte>, cp: nat, text: seq<byte>)
    requires cp + |text| <= nameOut.Length
    modifies nameOut
    ensures nameOut[..cp + |text|] == old(nameOut[..cp]) + text
  {
    forall i | 0 <= i < |text| {
      nameOut[cp + i] := text[i];
    }
    assert nameOut[..cp] == old(nameOut[..cp]);
    assert nameOut[cp..cp + |text|] == text;
  }
}
