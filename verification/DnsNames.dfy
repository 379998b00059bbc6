// Domain names in DNS messages: sections 3.1 and 4.1.4 of RFC 1035. A name is a list of labels; a message
// holds it as length-prefixed labels that end in a zero byte or in a pointer to the rest of the name.
module DnsNames {
  import opened Bytes

  const DOT: byte := 46
  const MAX_LABEL: nat := 63
  const MAX_NAME: nat := 255
  const MAX_LABELS: nat := 128
  const OFFSET_LIMIT: nat := 0x4000

  // ----- text -----

  // strchr(name, '.'), or the length of `name`
  function Dot(name: seq<byte>): (k: nat)
    ensures k <= |name| && (k < |name| ==> name[k] == DOT)
    ensures forall i | 0 <= i < k :: name[i] != DOT
  {
    DotFrom(name, 0)
  }

  function DotFrom(name: seq<byte>, i: nat): (k: nat)
    requires i <= |name|
    ensures i <= k <= |name| && (k < |name| ==> name[k] == DOT)
    ensures forall j | i <= j < k :: name[j] != DOT
    decreases |name| - i
  {
    if i == |name| || name[i] == DOT then i else DotFrom(name, i + 1)
  }

  /** The labels of a name up to the first empty one. */
  function Labels(name: seq<byte>): (ls: seq<seq<byte>>)
    ensures forall i | 0 <= i < |ls| :: ls[i] != []
    decreases |name|
  {
    var k := Dot(name);
    if k == 0 then []
    else if k == |name| then [name]
    else [name[..k]] + Labels(name[k + 1..])
  }

  /** Labels written out with dots between them. */
  function Join(ls: seq<seq<byte>>): seq<byte> {
    if ls == [] then [] else if |ls| == 1 then ls[0] else ls[0] + [DOT] + Join(ls[1..])
  }

  /** No label is empty; one dot at the end is no label. */
  predicate WellFormed(name: seq<byte>)
    decreases |name|
  {
    var k := Dot(name);
    name == [] || (k > 0 && (k == |name| || WellFormed(name[k + 1..])))
  }

  // `name` without a dot at its end
  function TrimDot(name: seq<byte>): seq<byte> {
    if name != [] && name[|name| - 1] == DOT then name[..|name| - 1] else name
  }

  /** The labels of a name spell the name, up to one dot at the end, exactly if none of them is empty. */
  lemma {:induction false} JoinLabels(name: seq<byte>)
    ensures Join(Labels(name)) == TrimDot(name) <==> WellFormed(name) || name == [DOT]
    ensures |Join(Labels(name))| <= |name|
    decreases |name|
  {
    var k := Dot(name);
    if 0 < k < |name| {
      var head, rest := name[..k], name[k + 1..];
      assert name == head + [DOT] + rest;
      JoinLabels(rest);
      JoinMore(head, Labels(rest));
      if rest == [] {
        assert TrimDot(name) == head;
      } else {
        assert TrimDot(name) == head + [DOT] + TrimDot(rest);
        if Labels(rest) != [] {
          SamePrefix(head + [DOT], Join(Labels(rest)), TrimDot(rest));
        }
      }
    }
  }

  lemma {:induction false} JoinMore(l: seq<byte>, ls: seq<seq<byte>>)
    ensures Join([l] + ls) == if ls == [] then l else l + [DOT] + Join(ls)
  {
    assert ([l] + ls)[1..] == ls;
  }

  lemma {:induction false} SamePrefix(a: seq<byte>, b: seq<byte>, c: seq<byte>)
    ensures a + b == a + c <==> b == c
  {
    assert (a + b)[|a|..] == b && (a + c)[|a|..] == c;
  }

  // ----- what a message says -----

  // The target of the pointer at `j`.
  function Target(p: seq<byte>, j: nat): nat
    requires j + 1 < |p|
  {
    (p[j] as nat % 64) * 256 + p[j + 1] as nat
  }

  /**
   * The bytes at `j`, read below `lim`, stand for the labels `ls`. What a pointer points to is read below the
   * pointer itself, so pointers only ever lead backwards.
   */
  ghost predicate At(p: seq<byte>, lim: nat, j: nat, ls: seq<seq<byte>>)
    decreases lim, |ls|
  {
    && j < lim <= |p|
    && var b := p[j] as nat;
       if b == 0 then ls == []
       else if b >= 64 then j + 2 <= lim && At(p, j, Target(p, j), ls)
       else
         && ls != [] && j + 1 + b <= lim && ls[0] == p[j + 1..j + 1 + b]
         && At(p, lim, j + 1 + b, ls[1..])
  }

  // Where the name at `j` ends.
  function End(p: seq<byte>, j: nat): nat
    decreases |p| - j
  {
    if j >= |p| || p[j] == 0 then j + 1
    else if p[j] >= 64 then j + 2
    else End(p, j + 1 + p[j] as nat)
  }

  /** What has been written stays readable, whatever is written behind it. */
  lemma {:induction false} AtExtends(p: seq<byte>, q: seq<byte>, lim: nat, lim': nat, j: nat, ls: seq<seq<byte>>)
    requires At(p, lim, j, ls) && lim <= lim' <= |q| && forall i | 0 <= i < lim :: q[i] == p[i]
    ensures At(q, lim', j, ls)
    decreases lim, |ls|
  {
    var b := p[j] as nat;
    if b >= 64 {
      AtExtends(p, q, j, j, Target(p, j), ls);
    } else if b > 0 {
      assert p[j + 1..j + 1 + b] == q[j + 1..j + 1 + b];
      AtExtends(p, q, lim, lim', j + 1 + b, ls[1..]);
    }
  }

  // ----- dnsname_to_labels -----

  datatype Entry = Entry(name: seq<byte>, pos: nat)

  datatype Encoded = Written(packet: seq<byte>, table: seq<Entry>) | Failed(code: int)

  // dnslabel_table_get_pos
  function Find(table: seq<Entry>, name: seq<byte>): Option<nat> {
    if table == [] then None else if table[0].name == name then Some(table[0].pos) else Find(table[1..], name)
  }

  /** What is found is an entry for the name; nothing is found exactly if there is none. */
  lemma {:induction false} FindFacts(table: seq<Entry>, name: seq<byte>)
    ensures var r := Find(table, name);
      && (r.Some? ==> exists i :: 0 <= i < |table| && table[i] == Entry(name, r.value))
      && (r.None? ==> forall i | 0 <= i < |table| :: table[i].name != name)
  {
    if table != [] {
      if table[0].name == name {
        assert table[0] == Entry(name, table[0].pos);
      } else {
        FindFacts(table[1..], name);
        assert forall i | 1 <= i < |table| :: table[i] == table[1..][i - 1];
      }
    }
  }

  // dnslabel_table_add, which does nothing when the table is full
  function Remember(table: seq<Entry>, cap: nat, name: seq<byte>, pos: nat): seq<Entry> {
    if |table| >= cap then table else table + [Entry(name, pos)]
  }

  // APPEND16(ref | 0xc000)
  function Pointer(pos: nat): seq<byte> {
    [(192 + pos / 256 % 64) as byte, (pos % 256) as byte]
  }

  // A label behind its length.
  function WithLabel(p: seq<byte>, text: seq<byte>): (q: seq<byte>)
    requires |text| <= MAX_LABEL
    ensures |q| == |p| + 1 + |text|
  {
    p + [|text| as byte] + text
  }

  // The zero byte at the end of a name, unless it is there already.
  function Terminated(q: seq<byte>): seq<byte>
    requires q != []
  {
    if q[|q| - 1] != 0 then q + [0] else q
  }

  // The loop of dnsname_to_labels on what is left of a name.
  function EncodeRest(p: seq<byte>, name: seq<byte>, table: seq<Entry>, cap: nat, bufLen: nat): (r: Encoded)
    ensures r.Written? ==> table <= r.table && forall i | |table| <= i < |r.table| :: |r.table[i].name| <= |name|
    decreases |name|
  {
    var ref := Find(table, name);
    if ref.Some? then
      if |p| + 2 > bufLen then Failed(-2) else Written(p + Pointer(ref.value), table)
    else
      var k := Dot(name);
      if k > MAX_LABEL then Failed(-1)
      else if |p| + k + 1 > bufLen then Failed(-2)
      else
        var t := Remember(table, cap, name, |p|);
        var q := WithLabel(p, name[..k]);
        if k < |name| then EncodeRest(q, name[k + 1..], t, cap, bufLen) else Written(Terminated(q), t)
  }

  // dnsname_to_labels; without a table the capacity is 0.
  function Encode(p: seq<byte>, name: seq<byte>, table: seq<Entry>, cap: nat, bufLen: nat): Encoded {
    if |name| > MAX_NAME then Failed(-2) else EncodeRest(p, name, table, cap, bufLen)
  }

  /** A C string. */
  predicate IsString(name: seq<byte>) { 0 !in name }

  /** The entries of the table for names of at most `n` characters lead to those names. */
  ghost predicate TableOk(p: seq<byte>, table: seq<Entry>, n: nat) {
    forall i | 0 <= i < |table| ::
      table[i].pos < OFFSET_LIMIT && (|table[i].name| <= n ==> At(p, |p|, table[i].pos, Labels(table[i].name)))
  }

  /** A pointer to where labels are stands for these labels, as long as the position fits into 14 bits. */
  lemma {:induction false} PointerAt(p: seq<byte>, pos: nat, ls: seq<seq<byte>>)
    requires pos < OFFSET_LIMIT && At(p, |p|, pos, ls)
    ensures var q := p + Pointer(pos); p <= q && At(q, |q|, |p|, ls)
  {
    var q := p + Pointer(pos);
    AtExtends(p, q, |p|, |p|, pos, ls);
    assert Target(q, |p|) == pos;
  }

  /** A pointer leads to the position it was made for exactly if the position fits into 14 bits. */
  lemma {:induction false} PointerExact(p: seq<byte>, pos: nat)
    ensures Target(p + Pointer(pos), |p|) == pos <==> pos < OFFSET_LIMIT
  {
    assert Target(p + Pointer(pos), |p|) == pos % OFFSET_LIMIT;
  }

  lemma {:induction false} TableExtends(p: seq<byte>, q: seq<byte>, table: seq<Entry>, n: nat)
    requires TableOk(p, table, n) && p <= q
    ensures TableOk(q, table, n)
  {
    forall i | 0 <= i < |table| && |table[i].name| <= n
      ensures At(q, |q|, table[i].pos, Labels(table[i].name))
    {
      AtExtends(p, q, |p|, |q|, table[i].pos, Labels(table[i].name));
    }
  }

  /** What a label is written as stands for the label, and for what the bytes behind it stand for. */
  lemma {:induction false} LabelAt(p: seq<byte>, text: seq<byte>, q: seq<byte>, ls: seq<seq<byte>>)
    requires 0 < |text| <= MAX_LABEL && WithLabel(p, text) <= q && At(q, |q|, |p| + 1 + |text|, ls)
    ensures p <= q && At(q, |q|, |p|, [text] + ls)
  {
    Window(p, |text| as byte, text, q);
    FirstLabelAt(q, |p|, text, ls);
  }

  lemma {:induction false} Window(p: seq<byte>, x: byte, text: seq<byte>, q: seq<byte>)
    requires p + [x] + text <= q
    ensures p <= q && |p| < |q| && q[|p|] == x && q[|p| + 1..|p| + 1 + |text|] == text
  {
    var r := p + [x] + text;
    forall i | 0 <= i < |r|
      ensures q[i] == r[i]
    {
    }
  }

  lemma {:induction false} FirstLabelAt(q: seq<byte>, j: nat, text: seq<byte>, ls: seq<seq<byte>>)
    requires 0 < |text| <= MAX_LABEL && j + 1 + |text| <= |q| && q[j] == |text| as byte && q[j + 1..j + 1 + |text|] == text
    requires At(q, |q|, j + 1 + |text|, ls)
    ensures At(q, |q|, j, [text] + ls)
  {
    assert ([text] + ls)[1..] == ls;
  }

  /** The end of a name: its last label and the zero byte behind it, or only the zero byte. */
  lemma {:induction false} LastAt(p: seq<byte>, name: seq<byte>, q: seq<byte>)
    requires |name| <= MAX_LABEL && IsString(name) && DOT !in name
    requires q == Terminated(WithLabel(p, name))
    ensures |q| > |p| && p <= q && At(q, |q|, |p|, Labels(name))
  {
    if name != [] {
      var r := WithLabel(p, name);
      assert r[|r| - 1] == name[|name| - 1] && name[|name| - 1] in name;
      assert At(q, |q|, |r|, []);
      LabelAt(p, name, q, []);
      assert [name] + [] == [name];
    }
  }

  /** A name with a dot in it: what is written for its first label, and behind it for the rest. */
  lemma {:induction false} MoreAt(p: seq<byte>, head: seq<byte>, ls: seq<seq<byte>>, q: seq<byte>)
    requires |head| <= MAX_LABEL && WithLabel(p, head) <= q && At(q, |q|, |p| + 1 + |head|, ls)
    ensures p <= q && |p| < |q| && At(q, |q|, |p|, if head == [] then [] else [head] + ls)
  {
    Window(p, |head| as byte, head, q);
    if head != [] {
      LabelAt(p, head, q, ls);
    }
  }

  lemma {:induction false} TableMore(p: seq<byte>, name: seq<byte>, table: seq<Entry>, t: seq<Entry>, rest: seq<byte>, r: Encoded)
    requires r.Written? && p <= r.packet && TableOk(p, table, |name|)
    requires t == table || t == table + [Entry(name, |p|)]
    requires t <= r.table && forall i | |t| <= i < |r.table| :: |r.table[i].name| <= |rest|
    requires At(r.packet, |r.packet|, |p|, Labels(name)) && TableOk(r.packet, r.table, |rest|)
    ensures TableOk(r.packet, r.table, |name|)
  {
    TableExtends(p, r.packet, table, |name|);
    forall i | 0 <= i < |r.table| && |r.table[i].name| <= |name|
      ensures At(r.packet, |r.packet|, r.table[i].pos, Labels(r.table[i].name))
    {
      if i < |table| {
        assert r.table[i] == table[i];
      } else if i < |t| {
        assert r.table[i] == Entry(name, |p|);
      }
    }
  }

  /** What it means that `r` is what has been written for `name` behind `p`. */
  ghost predicate IsEncoding(p: seq<byte>, name: seq<byte>, r: Encoded) {
    && r.Written? && |p| < |r.packet| && p <= r.packet
    && At(r.packet, |r.packet|, |p|, Labels(name))
    && TableOk(r.packet, r.table, |name|)
  }

  lemma {:induction false} EncodePointer(p: seq<byte>, name: seq<byte>, table: seq<Entry>, pos: nat, r: Encoded)
    requires TableOk(p, table, |name|) && Find(table, name) == Some(pos) && r == Written(p + Pointer(pos), table)
    ensures IsEncoding(p, name, r)
  {
    FindFacts(table, name);
    var i :| 0 <= i < |table| && table[i] == Entry(name, pos);
    PointerAt(p, pos, Labels(name));
    TableExtends(p, r.packet, table, |name|);
  }

  lemma {:induction false} EncodeLast(p: seq<byte>, name: seq<byte>, table: seq<Entry>, t: seq<Entry>, r: Encoded)
    requires TableOk(p, table, |name|) && IsString(name) && DOT !in name && |name| <= MAX_LABEL && |p| < OFFSET_LIMIT
    requires t == table || t == table + [Entry(name, |p|)]
    requires r == Written(Terminated(WithLabel(p, name)), t)
    ensures IsEncoding(p, name, r)
  {
    LastAt(p, name, r.packet);
    TableExtends(p, r.packet, table, |name|);
  }

  lemma {:induction false} LabelsMore(name: seq<byte>, head: seq<byte>, rest: seq<byte>)
    requires Dot(name) < |name| && head == name[..Dot(name)] && rest == name[Dot(name) + 1..]
    ensures Labels(name) == if head == [] then [] else [head] + Labels(rest)
  {
  }

  lemma {:induction false} EncodeMore(p: seq<byte>, name: seq<byte>, head: seq<byte>, rest: seq<byte>,
                   table: seq<Entry>, t: seq<Entry>, r: Encoded)
    requires TableOk(p, table, |name|) && |head| <= MAX_LABEL
    requires Labels(name) == if head == [] then [] else [head] + Labels(rest)
    requires t == table || t == table + [Entry(name, |p|)]
    requires IsEncoding(WithLabel(p, head), rest, r)
    requires t <= r.table && forall i | |t| <= i < |r.table| :: |r.table[i].name| <= |rest|
    ensures IsEncoding(p, name, r)
  {
    MoreAt(p, head, Labels(rest), r.packet);
    TableMore(p, name, table, t, rest, r);
  }

  /** What is written for a name stands for its labels up to an empty one, and the table stays right. */
  lemma {:induction false} EncodeAt(p: seq<byte>, name: seq<byte>, table: seq<Entry>, cap: nat, bufLen: nat)
    requires IsString(name) && bufLen <= OFFSET_LIMIT && TableOk(p, table, |name|)
    requires EncodeRest(p, name, table, cap, bufLen).Written?
    ensures IsEncoding(p, name, EncodeRest(p, name, table, cap, bufLen))
    decreases |name|
  {
    var ref := Find(table, name);
    var r := EncodeRest(p, name, table, cap, bufLen);
    if ref.Some? {
      EncodePointer(p, name, table, ref.value, r);
    } else {
      var k := Dot(name);
      var t := Remember(table, cap, name, |p|);
      if k < |name| {
        var head, rest := name[..k], name[k + 1..];
        var q := WithLabel(p, head);
        TableExtends(p, q, table, |name|);
        NewEntryOk(q, table, t, Entry(name, |p|), |rest|);
        EncodeAt(q, rest, t, cap, bufLen);
        LabelsMore(name, head, rest);
        EncodeMore(p, name, head, rest, table, t, r);
      } else {
        assert name[..k] == name;
        EncodeLast(p, name, table, t, r);
      }
    }
  }

  lemma {:induction false} NewEntryOk(p: seq<byte>, table: seq<Entry>, t: seq<Entry>, e: Entry, n: nat)
    requires TableOk(p, table, |e.name|) && n < |e.name| && e.pos < OFFSET_LIMIT && (t == table || t == table + [e])
    ensures TableOk(p, t, n)
  {
    assert forall i | 0 <= i < |table| :: t[i] == table[i];
  }

  /** Every label of the name is short enough. */
  predicate LabelsFit(name: seq<byte>)
    decreases |name|
  {
    var k := Dot(name);
    k <= MAX_LABEL && (k < |name| ==> LabelsFit(name[k + 1..]))
  }

  /** The name, or what is behind one of its dots, is in the table. */
  predicate Known(name: seq<byte>, table: seq<Entry>)
    decreases |name|
  {
    Find(table, name).Some? || (Dot(name) < |name| && Known(name[Dot(name) + 1..], table))
  }

  /** The last label of the name is not empty. */
  predicate EndsInLabel(name: seq<byte>) { name != [] && name[|name| - 1] != DOT }

  /**
   * The name, not compressed, fills the buffer up to its end: there are as many bytes as its labels take, and
   * its last label is not empty, so that a zero byte follows.
   */
  predicate FillsBuffer(used: nat, name: seq<byte>, table: seq<Entry>, bufLen: nat) {
    && LabelsFit(name) && EndsInLabel(name)
    && used + |name| + 1 == bufLen && !Known(name, table)
  }

  lemma {:induction false} FindAppended(table: seq<Entry>, e: Entry, name: seq<byte>)
    requires e.name != name
    ensures Find(table + [e], name) == Find(table, name)
  {
    if table != [] {
      assert (table + [e])[1..] == table[1..] + [e];
      FindAppended(table[1..], e, name);
    }
  }

  /** An entry for a longer name makes no difference. */
  lemma {:induction false} KnownRemembered(name: seq<byte>, table: seq<Entry>, cap: nat, longer: seq<byte>, pos: nat)
    requires |name| < |longer|
    ensures Known(name, Remember(table, cap, longer, pos)) == Known(name, table)
    decreases |name|
  {
    FindAppended(table, Entry(longer, pos), name);
    if Dot(name) < |name| {
      KnownRemembered(name[Dot(name) + 1..], table, cap, longer, pos);
    }
  }

  lemma {:induction false} EndsInLabelStep(name: seq<byte>)
    requires Dot(name) < |name|
    ensures EndsInLabel(name) <==> EndsInLabel(name[Dot(name) + 1..])
  {
  }

  /** Whether a name fills the buffer is for its labels behind the first to say. */
  lemma {:induction false} FillsStep(used: nat, name: seq<byte>, table: seq<Entry>, cap: nat, bufLen: nat, pos: nat)
    requires Find(table, name).None? && Dot(name) < |name| && Dot(name) <= MAX_LABEL
    requires used + Dot(name) + 1 <= bufLen
    ensures var k := Dot(name); var rest := name[k + 1..];
      FillsBuffer(used, name, table, bufLen) <==>
      FillsBuffer(used + k + 1, rest, Remember(table, cap, name, pos), bufLen)
  {
    EndsInLabelStep(name);
    FitsBehind(name, table);
    KnownRemembered(name[Dot(name) + 1..], table, cap, name, pos);
  }

  lemma {:induction false} FitsBehind(name: seq<byte>, table: seq<Entry>)
    requires Find(table, name).None? && Dot(name) < |name| && Dot(name) <= MAX_LABEL
    ensures var rest := name[Dot(name) + 1..];
      (LabelsFit(name) <==> LabelsFit(rest)) && (Known(name, table) <==> Known(rest, table)) && |rest| == |name| - Dot(name) - 1
  {
  }

  /** A label that is not the last one, and what follows. */
  lemma {:induction false} EncodeStep(p: seq<byte>, name: seq<byte>, table: seq<Entry>, cap: nat, bufLen: nat)
    requires Find(table, name).None? && Dot(name) <= MAX_LABEL && Dot(name) < |name| && |p| + Dot(name) + 1 <= bufLen
    ensures var n := Dot(name);
      EncodeRest(p, name, table, cap, bufLen) ==
      EncodeRest(WithLabel(p, name[..n]), name[n + 1..], Remember(table, cap, name, |p|), cap, bufLen)
  {
  }

  /** The result takes one byte more than the buffer has, a zero byte, exactly if `fills`; otherwise it fits. */
  ghost predicate FitsUnless(r: Encoded, bufLen: nat, fills: bool) {
    && (r.Written? && |r.packet| > bufLen <==> fills)
    && (r.Written? && |r.packet| > bufLen ==> |r.packet| == bufLen + 1 && r.packet[bufLen] == 0)
  }

  /**
   * The encoder stays within the buffer, but for one zero byte, and that if and only if the name fills the buffer,
   * whatever is in the table and whether or not there is one.
   */
  lemma {:induction false} EncodeFits(p: seq<byte>, name: seq<byte>, table: seq<Entry>, cap: nat, bufLen: nat)
    requires IsString(name)
    ensures FitsUnless(EncodeRest(p, name, table, cap, bufLen), bufLen, FillsBuffer(|p|, name, table, bufLen))
    decreases |name|
  {
    var k := Dot(name);
    if Find(table, name).None? && k <= MAX_LABEL && |p| + k + 1 <= bufLen {
      if k < |name| {
        EncodeStep(p, name, table, cap, bufLen);
        EncodeFits(WithLabel(p, name[..k]), name[k + 1..], Remember(table, cap, name, |p|), cap, bufLen);
        FillsStep(|p|, name, table, cap, bufLen, |p|);
      } else {
        assert name[..k] == name;
        LastFits(p, name, bufLen);
      }
    } else {
      FailsToFill(p, name, table, cap, bufLen);
    }
  }

  lemma {:induction false} FailsToFill(p: seq<byte>, name: seq<byte>, table: seq<Entry>, cap: nat, bufLen: nat)
    requires Find(table, name).Some? || Dot(name) > MAX_LABEL || |p| + Dot(name) + 1 > bufLen
    ensures !FillsBuffer(|p|, name, table, bufLen)
    ensures EncodeRest(p, name, table, cap, bufLen).Written? ==> |EncodeRest(p, name, table, cap, bufLen).packet| <= bufLen
  {
  }

  lemma {:induction false} LastFits(p: seq<byte>, name: seq<byte>, bufLen: nat)
    requires IsString(name) && |name| <= MAX_LABEL && |p| + |name| + 1 <= bufLen
    ensures var q := Terminated(WithLabel(p, name));
      && (|q| > bufLen <==> name != [] && |p| + |name| + 1 == bufLen)
      && (|q| > bufLen ==> |q| == bufLen + 1 && q[bufLen] == 0)
  {
    var r := WithLabel(p, name);
    if name != [] {
      assert r[|r| - 1] == name[|name| - 1] && name[|name| - 1] in name;
    }
  }

  /** A name of one letter and a buffer of two bytes: three bytes are written. */
  lemma {:induction false} OneByteMore(table: seq<Entry>)
    requires Find(table, [97]).None?
    ensures Encode([], [97], table, 0, 2) == Written([1, 97, 0], table)
  {
    assert Dot([97]) == 1;
    assert WithLabel([], [97]) == [1, 97];
  }

  // ----- when the encoder succeeds -----

  /** A label of the name begins at `k`. */
  predicate BeginsAt(name: seq<byte>, k: nat) { k <= |name| && (k == 0 || name[k - 1] == DOT) }

  // How far the labels of a name are written out: up to a rest that is in the table, to a label that is too long, or to the end.
  datatype Plan = ToPointer(at: nat) | TooLong(at: nat) | ToEnd

  function Further(plan: Plan, n: nat): Plan {
    match plan
    case ToPointer(k) => ToPointer(k + n)
    case TooLong(k) => TooLong(k + n)
    case ToEnd => ToEnd
  }

  function PlanOf(name: seq<byte>, table: seq<Entry>): Plan
    decreases |name|
  {
    if Find(table, name).Some? then ToPointer(0)
    else if Dot(name) > MAX_LABEL then TooLong(0)
    else if Dot(name) == |name| then ToEnd
    else Further(PlanOf(name[Dot(name) + 1..], table), Dot(name) + 1)
  }

  /** Before `k`, every rest of the name is new, and every label is short enough. */
  ghost predicate Plain(name: seq<byte>, table: seq<Entry>, k: nat) {
    forall j: nat :: j < k && BeginsAt(name, j) ==> Find(table, name[j..]).None? && Dot(name[j..]) <= MAX_LABEL
  }

  /** The plan says what comes first in the name, if anything does. */
  ghost predicate IsFirst(plan: Plan, name: seq<byte>, table: seq<Entry>) {
    match plan
    case ToPointer(k) => BeginsAt(name, k) && Find(table, name[k..]).Some? && Plain(name, table, k)
    case TooLong(k) => BeginsAt(name, k) && Find(table, name[k..]).None? && Dot(name[k..]) > MAX_LABEL && Plain(name, table, k)
    case ToEnd => Plain(name, table, |name| + 1)
  }

  /** The labels behind the first one are those of the rest. */
  lemma {:induction false} BeginsBehind(name: seq<byte>, j: nat)
    requires 0 < j && BeginsAt(name, j)
    ensures var n := Dot(name); n < j && BeginsAt(name[n + 1..], j - n - 1) && name[j..] == name[n + 1..][j - n - 1..]
  {
  }

  lemma {:induction false} BeginsFurther(name: seq<byte>, k: nat)
    requires Dot(name) < |name| && BeginsAt(name[Dot(name) + 1..], k)
    ensures var n := Dot(name); BeginsAt(name, k + n + 1) && name[k + n + 1..] == name[n + 1..][k..]
  {
  }

  lemma {:induction false} PlainFurther(name: seq<byte>, table: seq<Entry>, k: nat)
    requires Find(table, name).None? && Dot(name) <= MAX_LABEL && Dot(name) < |name| && Plain(name[Dot(name) + 1..], table, k)
    ensures Plain(name, table, k + Dot(name) + 1)
  {
    var n := Dot(name);
    forall j: nat | j < k + n + 1 && BeginsAt(name, j)
      ensures Find(table, name[j..]).None? && Dot(name[j..]) <= MAX_LABEL
    {
      if j == 0 {
        assert name[0..] == name;
      } else {
        BeginsBehind(name, j);
        assert BeginsAt(name[n + 1..], j - n - 1);
      }
    }
  }

  lemma {:induction false} PlainUpToFirst(name: seq<byte>, table: seq<Entry>, k: nat)
    requires k == 0 || (Find(table, name).None? && Dot(name) == |name| <= MAX_LABEL)
    ensures Plain(name, table, k)
  {
    forall j: nat | j < k && BeginsAt(name, j)
      ensures j == 0 && name[j..] == name
    {
      if j > 0 {
        BeginsBehind(name, j);
      }
    }
  }

  lemma {:induction false} PlanIsFirst(name: seq<byte>, table: seq<Entry>)
    ensures IsFirst(PlanOf(name, table), name, table)
    decreases |name|
  {
    var n := Dot(name);
    if Find(table, name).Some? || n > MAX_LABEL || n == |name| {
      PlanAtOnce(name, table);
    } else {
      PlanIsFirst(name[n + 1..], table);
      PlanStep(name, table);
      FirstFurther(name, table, PlanOf(name[n + 1..], table));
    }
  }

  lemma {:induction false} PlanAtOnce(name: seq<byte>, table: seq<Entry>)
    requires Find(table, name).Some? || Dot(name) > MAX_LABEL || Dot(name) == |name|
    ensures IsFirst(PlanOf(name, table), name, table)
  {
    assert name[0..] == name;
    PlainUpToFirst(name, table, if Find(table, name).None? && Dot(name) <= MAX_LABEL then |name| + 1 else 0);
  }

  lemma {:induction false} FirstFurther(name: seq<byte>, table: seq<Entry>, plan: Plan)
    requires Find(table, name).None? && Dot(name) <= MAX_LABEL && Dot(name) < |name|
    requires IsFirst(plan, name[Dot(name) + 1..], table)
    ensures IsFirst(Further(plan, Dot(name) + 1), name, table)
  {
    if plan.ToEnd? {
      PlainFurther(name, table, |name[Dot(name) + 1..]| + 1);
    } else {
      PlainFurther(name, table, plan.at);
      BeginsFurther(name, plan.at);
    }
  }

  lemma {:induction false} PlanRemembered(name: seq<byte>, table: seq<Entry>, cap: nat, longer: seq<byte>, pos: nat)
    requires |name| < |longer|
    ensures PlanOf(name, Remember(table, cap, longer, pos)) == PlanOf(name, table)
    decreases |name|
  {
    FindAppended(table, Entry(longer, pos), name);
    if Dot(name) < |name| {
      PlanRemembered(name[Dot(name) + 1..], table, cap, longer, pos);
    }
  }

  /**
   * What dnsname_to_labels answers for a name of at most 255 bytes, behind `used` bytes: where the name ends; -2 if
   * there is no room for what is written out, with the pointer or the length of the last label; -1 for a label that is
   * too long, if there is room for the labels before it.
   */
  function Answer(plan: Plan, used: nat, name: seq<byte>, bufLen: nat): int {
    match plan
    case ToPointer(k) => if used + k + 2 <= bufLen then used + k + 2 else -2
    case TooLong(k) => if k == 0 || used + k <= bufLen then -1 else -2
    case ToEnd => if used + |name| + 1 > bufLen then -2 else used + |name| + if EndsInLabel(name) then 2 else 1
  }

  // What dnsname_to_labels returns.
  function Code(r: Encoded): int {
    match r
    case Written(packet, _) => |packet|
    case Failed(code) => code
  }

  ghost predicate Answers(r: Encoded, answer: int) {
    Code(r) == answer && (r.Written? <==> answer >= 0)
  }

  lemma {:induction false} AnswerMore(plan: Plan, used: nat, name: seq<byte>, bufLen: nat)
    requires Dot(name) < |name|
    ensures var n := Dot(name) + 1; var rest := name[n..];
      Answer(Further(plan, n), used, name, bufLen) == if used + n <= bufLen then Answer(plan, used + n, rest, bufLen) else -2
  {
    EndsInLabelStep(name);
  }

  lemma {:induction false} EncodeRestAnswers(p: seq<byte>, name: seq<byte>, table: seq<Entry>, cap: nat, bufLen: nat)
    requires IsString(name)
    ensures Answers(EncodeRest(p, name, table, cap, bufLen), Answer(PlanOf(name, table), |p|, name, bufLen))
    decreases |name|
  {
    var n := Dot(name);
    if Find(table, name).Some? || n > MAX_LABEL || n == |name| || |p| + n + 1 > bufLen {
      EncodeLastAnswers(p, name, table, cap, bufLen);
    } else {
      var q, rest, t := WithLabel(p, name[..n]), name[n + 1..], Remember(table, cap, name, |p|);
      EncodeRestAnswers(q, rest, t, cap, bufLen);
      PlanRemembered(rest, table, cap, name, |p|);
      EncodeMoreAnswers(p, name, table, cap, bufLen, EncodeRest(q, rest, t, cap, bufLen), PlanOf(rest, table));
    }
  }

  lemma {:induction false} EncodeMoreAnswers(p: seq<byte>, name: seq<byte>, table: seq<Entry>, cap: nat, bufLen: nat, r: Encoded, plan: Plan)
    requires Find(table, name).None? && Dot(name) <= MAX_LABEL && Dot(name) < |name| && |p| + Dot(name) + 1 <= bufLen
    requires var n := Dot(name); var rest := name[n + 1..];
      && r == EncodeRest(WithLabel(p, name[..n]), rest, Remember(table, cap, name, |p|), cap, bufLen)
      && plan == PlanOf(rest, table) && Answers(r, Answer(plan, |p| + n + 1, rest, bufLen))
    ensures Answers(EncodeRest(p, name, table, cap, bufLen), Answer(PlanOf(name, table), |p|, name, bufLen))
  {
    EncodeStep(p, name, table, cap, bufLen);
    PlanStep(name, table);
    AnswerMore(plan, |p|, name, bufLen);
  }

  lemma {:induction false} PlanStep(name: seq<byte>, table: seq<Entry>)
    requires Find(table, name).None? && Dot(name) <= MAX_LABEL && Dot(name) < |name|
    ensures PlanOf(name, table) == Further(PlanOf(name[Dot(name) + 1..], table), Dot(name) + 1)
  {
  }

  lemma {:induction false} EncodeLastAnswers(p: seq<byte>, name: seq<byte>, table: seq<Entry>, cap: nat, bufLen: nat)
    requires IsString(name)
    requires Find(table, name).Some? || Dot(name) > MAX_LABEL || Dot(name) == |name| || |p| + Dot(name) + 1 > bufLen
    ensures Answers(EncodeRest(p, name, table, cap, bufLen), Answer(PlanOf(name, table), |p|, name, bufLen))
  {
    if Find(table, name).None? && Dot(name) <= MAX_LABEL && Dot(name) < |name| {
      PlanStep(name, table);
      AnswerMore(PlanOf(name[Dot(name) + 1..], table), |p|, name, bufLen);
    } else if Find(table, name).None? && Dot(name) <= MAX_LABEL {
      assert name[..Dot(name)] == name;
      LastLength(p, name);
    }
  }

  lemma {:induction false} LastLength(p: seq<byte>, name: seq<byte>)
    requires IsString(name) && Dot(name) == |name| <= MAX_LABEL
    ensures |Terminated(WithLabel(p, name))| == |p| + |name| + if EndsInLabel(name) then 2 else 1
  {
    var r := WithLabel(p, name);
    if name != [] {
      assert r[|r| - 1] == name[|name| - 1] && name[|name| - 1] in name;
    }
  }

  /** Exactly when encoding succeeds, how long the result is, and how it fails otherwise. */
  lemma {:induction false} EncodeAnswers(p: seq<byte>, name: seq<byte>, table: seq<Entry>, cap: nat, bufLen: nat)
    requires IsString(name)
    ensures Answers(Encode(p, name, table, cap, bufLen), if |name| > MAX_NAME then -2 else Answer(PlanOf(name, table), |p|, name, bufLen))
    ensures IsFirst(PlanOf(name, table), name, table)
  {
    EncodeRestAnswers(p, name, table, cap, bufLen);
    PlanIsFirst(name, table);
  }

  lemma {:induction false} FittingPlan(name: seq<byte>, table: seq<Entry>)
    requires LabelsFit(name)
    ensures var plan := PlanOf(name, table); !plan.TooLong? && (plan.ToPointer? ==> plan.at <= |name|)
    decreases |name|
  {
    if Dot(name) < |name| {
      FittingPlan(name[Dot(name) + 1..], table);
    }
  }

  /** A name that can be written if there is room: a C string of at most 255 bytes, with labels of at most 63. */
  predicate Encodable(name: seq<byte>) { IsString(name) && |name| <= MAX_NAME && LabelsFit(name) }

  /** A name of at most 255 bytes with labels of at most 63 is encoded wherever there are two bytes more than it has. */
  lemma {:induction false} EncodeSucceeds(p: seq<byte>, name: seq<byte>, table: seq<Entry>, cap: nat, bufLen: nat)
    requires Encodable(name) && |p| + |name| + 2 <= bufLen
    ensures var r := Encode(p, name, table, cap, bufLen); r.Written? && |r.packet| <= |p| + |name| + 2
  {
    EncodeAnswers(p, name, table, cap, bufLen);
    FittingPlan(name, table);
  }

  lemma {:induction false} EncodeReturns(p: seq<byte>, name: seq<byte>, table: seq<Entry>, cap: nat, bufLen: nat)
    ensures var r := Code(Encode(p, name, table, cap, bufLen));
      && (IsString(name) ==> r == if |name| > MAX_NAME then -2 else Answer(PlanOf(name, table), |p|, name, bufLen))
      && (Encodable(name) && |p| + |name| + 2 <= bufLen ==> |p| < r <= |p| + |name| + 2)
  {
    if IsString(name) {
      EncodeAnswers(p, name, table, cap, bufLen);
    }
    if Encodable(name) {
      FittingPlan(name, table);
    }
  }

  lemma {:induction false} FindExtended(table: seq<Entry>, t: seq<Entry>, name: seq<byte>)
    requires table <= t && Find(table, name).Some?
    ensures Find(t, name) == Find(table, name)
  {
    if table[0].name != name {
      FindExtended(table[1..], t[1..], name);
    }
  }

  lemma {:induction false} FindLast(table: seq<Entry>, e: Entry)
    requires Find(table, e.name).None?
    ensures Find(table + [e], e.name) == Some(e.pos)
  {
    if table != [] {
      assert (table + [e])[1..] == table[1..] + [e];
      FindLast(table[1..], e);
    }
  }

  /** A name that has been written out while the table had room takes two bytes from then on: a pointer to where it is. */
  lemma {:induction false} WrittenOnce(p: seq<byte>, name: seq<byte>, table: seq<Entry>, cap: nat, bufLen: nat, q: seq<byte>)
    requires Find(table, name).None? && |table| < cap && |name| <= MAX_NAME && |q| + 2 <= bufLen
    requires Encode(p, name, table, cap, bufLen).Written?
    ensures var t := Encode(p, name, table, cap, bufLen).table;
      Encode(q, name, t, cap, bufLen) == Written(q + Pointer(|p|), t)
  {
    var t, r := Remember(table, cap, name, |p|), EncodeRest(p, name, table, cap, bufLen);
    FindLast(table, Entry(name, |p|));
    var n := Dot(name);
    if n < |name| {
      assert r == EncodeRest(WithLabel(p, name[..n]), name[n + 1..], t, cap, bufLen);
    }
    FindExtended(t, r.table, name);
  }

  // Where the name at `j` ends does not depend on what is behind it.
  lemma {:induction false} EndExtends(p: seq<byte>, q: seq<byte>, j: nat)
    requires p <= q && End(p, j) <= |p|
    ensures End(q, j) == End(p, j)
    decreases |p| - j
  {
    if j < |p| && 0 < p[j] < 64 {
      EndExtends(p, q, j + 1 + p[j] as nat);
    }
  }

  /** What can be read ends within the bytes it is read from. */
  lemma {:induction false} AtEnds(p: seq<byte>, lim: nat, j: nat, ls: seq<seq<byte>>)
    requires At(p, lim, j, ls)
    ensures End(p, j) <= lim
    decreases |p| - j
  {
    if 0 < p[j] < 64 {
      AtEnds(p, lim, j + 1 + p[j] as nat, ls[1..]);
    }
  }

  lemma {:induction false} EndLabel(p: seq<byte>, text: seq<byte>, q: seq<byte>)
    requires 0 < |text| <= MAX_LABEL && WithLabel(p, text) <= q
    ensures p <= q && End(q, |p|) == End(q, |p| + 1 + |text|)
  {
    Window(p, |text| as byte, text, q);
    EndStep(q, |p|, |text|);
  }

  lemma {:induction false} EndStep(q: seq<byte>, j: nat, n: nat)
    requires 0 < n < 64 && j < |q| && q[j] as nat == n
    ensures End(q, j) == End(q, j + 1 + n)
  {
  }

  lemma {:induction false} EndLast(p: seq<byte>, name: seq<byte>, q: seq<byte>)
    requires |name| <= MAX_LABEL && IsString(name)
    requires q == Terminated(WithLabel(p, name))
    ensures End(q, |p|) == |q|
  {
    if name != [] {
      var r := WithLabel(p, name);
      assert r[|r| - 1] == name[|name| - 1] && name[|name| - 1] in name;
      EndLabel(p, name, q);
      assert q[|r|] == 0;
    }
  }

  /** No empty label is written out before the end of the name, or before a pointer to the rest of it. */
  predicate NoEmptyWritten(name: seq<byte>, table: seq<Entry>)
    decreases |name|
  {
    var k := Dot(name);
    Find(table, name).Some? || name == [] || (k > 0 && (k == |name| || NoEmptyWritten(name[k + 1..], table)))
  }

  lemma {:induction false} NoEmptyRemembered(name: seq<byte>, table: seq<Entry>, cap: nat, longer: seq<byte>, pos: nat)
    requires |name| < |longer|
    ensures NoEmptyWritten(name, Remember(table, cap, longer, pos)) == NoEmptyWritten(name, table)
    decreases |name|
  {
    FindAppended(table, Entry(longer, pos), name);
    if Dot(name) < |name| {
      NoEmptyRemembered(name[Dot(name) + 1..], table, cap, longer, pos);
    }
  }

  /** With names that have no empty label in the table, only a name of this kind is written without one. */
  lemma {:induction false} NoEmptyIsWellFormed(name: seq<byte>, table: seq<Entry>)
    requires forall i | 0 <= i < |table| :: WellFormed(table[i].name)
    ensures NoEmptyWritten(name, table) <==> WellFormed(name)
    decreases |name|
  {
    FindFacts(table, name);
    if Dot(name) < |name| {
      NoEmptyIsWellFormed(name[Dot(name) + 1..], table);
    }
  }

  lemma {:induction false} WellFormedWritesNone(name: seq<byte>, table: seq<Entry>)
    requires WellFormed(name)
    ensures NoEmptyWritten(name, table)
    decreases |name|
  {
    if Dot(name) < |name| {
      WellFormedWritesNone(name[Dot(name) + 1..], table);
    }
  }

  /** What has been written for a name behind `p` ends where the packet ends exactly if `exact`. */
  ghost predicate EndsWith(p: seq<byte>, r: Encoded, exact: bool) {
    r.Written? && p <= r.packet && |p| < |r.packet| && (End(r.packet, |p|) == |r.packet| <==> exact)
  }

  lemma {:induction false} EndMore(p: seq<byte>, text: seq<byte>, r: Encoded, exact: bool)
    requires |text| <= MAX_LABEL && EndsWith(WithLabel(p, text), r, exact)
    ensures EndsWith(p, r, text != [] && exact)
  {
    if text != [] {
      EndLabel(p, text, r.packet);
    } else {
      assert WithLabel(p, text) == p + [0];
      assert r.packet[|p|] == 0;
    }
  }

  /** A name ends where the encoder says it does if and only if no empty label has been written out. */
  lemma {:induction false} EncodeEnd(p: seq<byte>, name: seq<byte>, table: seq<Entry>, cap: nat, bufLen: nat)
    requires IsString(name) && EncodeRest(p, name, table, cap, bufLen).Written?
    ensures EndsWith(p, EncodeRest(p, name, table, cap, bufLen), NoEmptyWritten(name, table))
    decreases |name|
  {
    if Find(table, name).None? {
      var k := Dot(name);
      if k < |name| {
        var t, q := Remember(table, cap, name, |p|), WithLabel(p, name[..k]);
        EncodeEnd(q, name[k + 1..], t, cap, bufLen);
        EndMore(p, name[..k], EncodeRest(q, name[k + 1..], t, cap, bufLen), NoEmptyWritten(name[k + 1..], t));
        NoEmptyRemembered(name[k + 1..], table, cap, name, |p|);
      } else {
        assert name[..k] == name;
        EndLast(p, name, Terminated(WithLabel(p, name)));
      }
    }
  }

  // ----- name_parse -----

  datatype Parsed = Name(text: seq<byte>, end: nat) | Malformed

  // The loop of name_parse: `text` is what has been read, `end` where the name ends if that is known,
  // `jumps` how many pointers have been followed.
  function ParseLoop(p: seq<byte>, j: nat, text: seq<byte>, end: Option<nat>, jumps: nat, outLen: nat): Parsed
    requires jumps <= |p|
    decreases |p| - jumps, |p| - j
  {
    if j >= |p| then Malformed
    else if p[j] == 0 then
      if |text| >= outLen then Malformed else Name(text, if end.Some? then end.value else j + 1)
    else if p[j] >= 64 then
      if j + 1 >= |p| || Target(p, j) >= |p| || jumps + 1 > |p| then Malformed
      else ParseLoop(p, Target(p, j), text, if end.Some? then end else Some(j + 2), jumps + 1, outLen)
    else
      var n := p[j] as nat;
      var start := if text == [] then text else text + [DOT];
      if (text != [] && |text| + 1 >= outLen) || |start| + n >= outLen || j + 1 + n > |p| then Malformed
      else ParseLoop(p, j + 1 + n, start + p[j + 1..j + 1 + n], end, jumps, outLen)
  }

  // name_parse
  function Parse(p: seq<byte>, j: nat, outLen: nat): Parsed {
    ParseLoop(p, j, [], None, 0, outLen)
  }

  // What a label makes of the text before it.
  function Next(text: seq<byte>, l: seq<byte>): seq<byte> {
    (if text == [] then text else text + [DOT]) + l
  }

  function Append(text: seq<byte>, ls: seq<seq<byte>>): seq<byte> {
    if ls == [] then text else Next(text, Join(ls))
  }

  lemma {:induction false} AppendMore(text: seq<byte>, ls: seq<seq<byte>>)
    requires ls != [] && ls[0] != []
    ensures Append(text, ls) == Append(Next(text, ls[0]), ls[1..]) && |Next(text, ls[0])| <= |Append(text, ls)|
  {
    if |ls| > 1 {
      assert text + [DOT] + (ls[0] + [DOT] + Join(ls[1..])) == text + [DOT] + ls[0] + [DOT] + Join(ls[1..]);
      assert text + (ls[0] + [DOT] + Join(ls[1..])) == text + ls[0] + [DOT] + Join(ls[1..]);
    }
  }

  /** What the parser makes of a name that spells `full`: the text, if the output buffer has room for it. */
  function Outcome(full: seq<byte>, end: Option<nat>, last: nat, outLen: nat): Parsed {
    if |full| < outLen then Name(full, if end.Some? then end.value else last) else Malformed
  }

  /** The parser is at `j` about to make `full` of what it has read. */
  ghost predicate Parses(p: seq<byte>, j: nat, text: seq<byte>, full: seq<byte>, end: Option<nat>, jumps: nat, outLen: nat) {
    jumps <= |p| && ParseLoop(p, j, text, end, jumps, outLen) == Outcome(full, end, End(p, j), outLen)
  }

  lemma {:induction false} ParseLabel(p: seq<byte>, j: nat, l: seq<byte>, text: seq<byte>, full: seq<byte>,
                                      end: Option<nat>, jumps: nat, outLen: nat)
    requires 0 < |l| < 64 && j + 1 + |l| <= |p| && p[j] as nat == |l| && p[j + 1..j + 1 + |l|] == l
    requires |Next(text, l)| <= |full| && Parses(p, j + 1 + |l|, Next(text, l), full, end, jumps, outLen)
    ensures Parses(p, j, text, full, end, jumps, outLen)
  {
    EndStep(p, j, |l|);
  }

  lemma {:induction false} ParsePointer(p: seq<byte>, j: nat, text: seq<byte>, full: seq<byte>,
                                        end: Option<nat>, jumps: nat, outLen: nat)
    requires j + 1 < |p| && p[j] >= 64 && Target(p, j) < |p|
    requires Parses(p, Target(p, j), text, full, if end.Some? then end else Some(j + 2), jumps + 1, outLen)
    ensures Parses(p, j, text, full, end, jumps, outLen)
  {
  }

  lemma {:induction false} ParseEnd(p: seq<byte>, j: nat, text: seq<byte>, end: Option<nat>, jumps: nat, outLen: nat)
    requires j < |p| && p[j] == 0 && jumps <= |p|
    ensures Parses(p, j, text, text, end, jumps, outLen)
  {
  }

  /** The bytes at `j` stand for the labels `ls`, if `n` pointers are followed, wherever they lead. */
  ghost predicate Reads(p: seq<byte>, j: nat, ls: seq<seq<byte>>, n: nat)
    decreases n, |ls|
  {
    && j < |p|
    && var b := p[j] as nat;
       if b == 0 then ls == [] && n == 0
       else if b >= 64 then n > 0 && j + 1 < |p| && Reads(p, Target(p, j), ls, n - 1)
       else
         && ls != [] && j + 1 + b <= |p| && ls[0] == p[j + 1..j + 1 + b]
         && Reads(p, j + 1 + b, ls[1..], n)
  }

  lemma {:induction false} ParseReads(p: seq<byte>, j: nat, ls: seq<seq<byte>>, n: nat, text: seq<byte>,
                                      end: Option<nat>, jumps: nat, outLen: nat)
    requires Reads(p, j, ls, n) && jumps + n <= |p|
    ensures Parses(p, j, text, Append(text, ls), end, jumps, outLen)
    decreases n, |ls|
  {
    var full := Append(text, ls);
    if p[j] == 0 {
      ParseEnd(p, j, text, end, jumps, outLen);
    } else if p[j] >= 64 {
      ParseReads(p, Target(p, j), ls, n - 1, text, if end.Some? then end else Some(j + 2), jumps + 1, outLen);
      ParsePointer(p, j, text, full, end, jumps, outLen);
    } else {
      var l := ls[0];
      AppendMore(text, ls);
      ParseReads(p, j + 1 + |l|, ls[1..], n, Next(text, l), end, jumps, outLen);
      ParseLabel(p, j, l, text, full, end, jumps, outLen);
    }
  }

  /** Pointers that lead backwards are followed fewer times than there are bytes. */
  lemma {:induction false} AtReads(p: seq<byte>, lim: nat, j: nat, ls: seq<seq<byte>>) returns (n: nat)
    requires At(p, lim, j, ls)
    ensures n <= lim && Reads(p, j, ls, n)
    decreases lim, |ls|
  {
    if p[j] == 0 {
      n := 0;
    } else if p[j] >= 64 {
      n := AtReads(p, j, Target(p, j), ls);
      n := n + 1;
    } else {
      n := AtReads(p, lim, j + 1 + |ls[0]|, ls[1..]);
    }
  }

  /** The parser reads the labels that the bytes stand for, if the output buffer has room for them, and fails otherwise. */
  lemma {:induction false} ParseAt(p: seq<byte>, lim: nat, j: nat, ls: seq<seq<byte>>, text: seq<byte>,
                                   end: Option<nat>, jumps: nat, outLen: nat)
    requires At(p, lim, j, ls) && jumps + lim <= |p|
    ensures Parses(p, j, text, Append(text, ls), end, jumps, outLen)
  {
    var n := AtReads(p, lim, j, ls);
    ParseReads(p, j, ls, n, text, end, jumps, outLen);
  }

  /** What has been parsed stands there. */
  lemma {:induction false} ParsedReads(p: seq<byte>, j: nat, text: seq<byte>, end: Option<nat>, jumps: nat, outLen: nat)
    returns (ls: seq<seq<byte>>, n: nat)
    requires jumps <= |p| && ParseLoop(p, j, text, end, jumps, outLen).Name?
    ensures Reads(p, j, ls, n) && jumps + n <= |p|
    decreases |p| - jumps, |p| - j
  {
    if p[j] == 0 {
      ls, n := [], 0;
    } else if p[j] >= 64 {
      ls, n := ParsedReads(p, Target(p, j), text, if end.Some? then end else Some(j + 2), jumps + 1, outLen);
      n := n + 1;
    } else {
      var l := p[j + 1..j + 1 + p[j] as nat];
      var more;
      more, n := ParsedReads(p, j + 1 + |l|, Next(text, l), end, jumps, outLen);
      ls := [l] + more;
      assert ls[1..] == more;
    }
  }

  /** The bytes at `j` spell a name for which there is room, and no more pointers are followed than there are bytes. */
  ghost predicate Spells(p: seq<byte>, j: nat, ls: seq<seq<byte>>, n: nat, outLen: nat) {
    n <= |p| && Reads(p, j, ls, n) && |Join(ls)| < outLen
  }

  /** On every packet, exactly when the parser succeeds, and with what. */
  lemma {:induction false} ParseExactly(p: seq<byte>, j: nat, outLen: nat)
    ensures Parse(p, j, outLen).Name? <==> exists ls, n :: Spells(p, j, ls, n, outLen)
    ensures forall ls, n :: Spells(p, j, ls, n, outLen) ==> Parse(p, j, outLen) == Name(Join(ls), End(p, j))
  {
    forall ls, n | Spells(p, j, ls, n, outLen)
      ensures Parse(p, j, outLen) == Name(Join(ls), End(p, j))
    {
      ParseReads(p, j, ls, n, [], None, 0, outLen);
    }
    if Parse(p, j, outLen).Name? {
      var ls, n := ParsedReads(p, j, [], None, 0, outLen);
      ParseReads(p, j, ls, n, [], None, 0, outLen);
      assert Spells(p, j, ls, n, outLen);
    }
  }

  /** Whatever the packet holds, pointers in circles included, the parser stays within it and within its output. */
  lemma {:induction false} ParseLoopBounds(p: seq<byte>, j: nat, text: seq<byte>, end: Option<nat>, jumps: nat, outLen: nat)
    requires jumps <= |p| && (end.Some? ==> end.value <= |p|)
    ensures var r := ParseLoop(p, j, text, end, jumps, outLen);
      r.Name? ==> |text| <= |r.text| < outLen && r.end <= |p|
    decreases |p| - jumps, |p| - j
  {
    if j < |p| && p[j] != 0 {
      if p[j] >= 64 {
        if j + 1 < |p| && Target(p, j) < |p| && jumps + 1 <= |p| {
          ParseLoopBounds(p, Target(p, j), text, if end.Some? then end else Some(j + 2), jumps + 1, outLen);
        }
      } else {
        var n := p[j] as nat;
        if j + 1 + n <= |p| {
          ParseLoopBounds(p, j + 1 + n, Next(text, p[j + 1..j + 1 + n]), end, jumps, outLen);
        }
      }
    }
  }

  // ----- the two together -----

  /**
   * What is written for a name reads back, however much is written behind it: as its labels up to an empty one,
   * which is the name itself, up to one dot at its end, if and only if no label is empty; and as ending where the
   * encoder stopped if and only if no empty label has been written out.
   */
  lemma {:induction false} RoundTrip(p: seq<byte>, name: seq<byte>, table: seq<Entry>, cap: nat, bufLen: nat,
                                     q: seq<byte>, outLen: nat)
    requires IsString(name) && bufLen <= OFFSET_LIMIT && TableOk(p, table, MAX_NAME) && |name| < outLen
    requires var r := Encode(p, name, table, cap, bufLen); r.Written? && r.packet <= q
    ensures var r := Encode(p, name, table, cap, bufLen); var parsed := Parse(q, |p|, outLen);
      && parsed.Name? && parsed.text == Join(Labels(name))
      && (parsed.text == TrimDot(name) <==> WellFormed(name) || name == [DOT])
      && (parsed.end == |r.packet| <==> NoEmptyWritten(name, table))
      && (WellFormed(name) ==> parsed.end == |r.packet|)
  {
    var r := Encode(p, name, table, cap, bufLen);
    EncodeAt(p, name, table, cap, bufLen);
    AtExtends(r.packet, q, |r.packet|, |q|, |p|, Labels(name));
    ParseAt(q, |q|, |p|, Labels(name), [], None, 0, outLen);
    JoinLabels(name);
    EncodeEnd(p, name, table, cap, bufLen);
    AtEnds(r.packet, |r.packet|, |p|, Labels(name));
    EndExtends(r.packet, q, |p|);
    if WellFormed(name) {
      WellFormedWritesNone(name, table);
    }
  }

  /**
   * Behind the first 2^14 bytes this fails: a name that stands there is found in the table, but the pointer
   * written for it leads elsewhere, here to an empty name.
   */
  lemma {:induction false} FarPointerMisleads() returns (p: seq<byte>, name: seq<byte>, table: seq<Entry>)
    ensures table == [Entry(name, OFFSET_LIMIT)] && At(p, |p|, OFFSET_LIMIT, Labels(name)) && IsString(name) && WellFormed(name)
    ensures var r := Encode(p, name, table, MAX_LABELS, 0x10000);
      r.Written? && Parse(r.packet, |p|, MAX_NAME + 1) == Name([], |r.packet|) && name != []
  {
    var zeros := seq(OFFSET_LIMIT, i => 0 as byte);
    name := [97];
    p := zeros + [1, 97, 0];
    table := [Entry(name, OFFSET_LIMIT)];
    assert Dot(name) == 1;
    assert At(p, |p|, OFFSET_LIMIT + 2, []);
    assert p[OFFSET_LIMIT + 1..OFFSET_LIMIT + 2] == name;
    assert name[1..] == [];
    var q := p + Pointer(OFFSET_LIMIT);
    assert Encode(p, name, table, MAX_LABELS, 0x10000) == Written(q, table);
    assert q[|p|] == 192 && q[|p| + 1] == 0 && Target(q, |p|) == 0 && q[0] == 0;
    assert ParseLoop(q, 0, [], Some(|p| + 2), 1, MAX_NAME + 1) == Name([], |p| + 2);
  }

  // A message: names, with other bytes between them.
  datatype Item = NameItem(name: seq<byte>) | RawItem(bytes: seq<byte>)

  datatype Message = Message(packet: seq<byte>, table: seq<Entry>, starts: seq<nat>) | Unwritable

  // Writes the items one after the other; all names share one table.
  function WriteAll(items: seq<Item>, cap: nat, bufLen: nat): Message {
    if items == [] then Message([], [], [])
    else
      var last := items[|items| - 1];
      var m := WriteAll(items[..|items| - 1], cap, bufLen);
      if m.Unwritable? then Unwritable
      else
        var starts := m.starts + [|m.packet|];
        match last
        case RawItem(bytes) => Message(m.packet + bytes, m.table, starts)
        case NameItem(name) =>
          var r := Encode(m.packet, name, m.table, cap, bufLen);
          if r.Failed? then Unwritable else Message(r.packet, r.table, starts)
  }

  // How many bytes an item takes at most.
  function Size(item: Item): nat {
    match item
    case NameItem(name) => |name| + 2
    case RawItem(bytes) => |bytes|
  }

  function TotalSize(items: seq<Item>): nat {
    if items == [] then 0 else TotalSize(items[..|items| - 1]) + Size(items[|items| - 1])
  }

  /** A message that has room for all of its names without any compression can be written. */
  lemma {:induction false} WriteAllSucceeds(items: seq<Item>, cap: nat, bufLen: nat)
    requires TotalSize(items) <= bufLen && forall i | 0 <= i < |items| && items[i].NameItem? :: Encodable(items[i].name)
    ensures var m := WriteAll(items, cap, bufLen); m.Message? && |m.packet| <= TotalSize(items)
  {
    if items != [] {
      var n := |items| - 1;
      WriteAllSucceeds(items[..n], cap, bufLen);
      var m := WriteAll(items[..n], cap, bufLen);
      if items[n].NameItem? {
        EncodeSucceeds(m.packet, items[n].name, m.table, cap, bufLen);
      }
    }
  }

  // Where item number `i` ends.
  function EndOf(m: Message, i: nat): nat
    requires m.Message? && i < |m.starts|
  {
    if i + 1 < |m.starts| then m.starts[i + 1] else |m.packet|
  }

  /** Each name of the message can be read where it starts, and ends where the next item starts. */
  ghost predicate AllAt(items: seq<Item>, m: Message)
    requires m.Message?
  {
    && |m.starts| == |items|
    && forall i | 0 <= i < |items| && items[i].NameItem? ::
         IsString(items[i].name) && |items[i].name| <= MAX_NAME
         && At(m.packet, |m.packet|, m.starts[i], Labels(items[i].name))
         && EndOf(m, i) <= |m.packet|
         && (WellFormed(items[i].name) ==> End(m.packet, m.starts[i]) == EndOf(m, i))
  }

  lemma {:induction false} TableBelow(p: seq<byte>, table: seq<Entry>, name: seq<byte>, r: Encoded)
    requires TableOk(p, table, MAX_NAME) && IsEncoding(p, name, r) && |name| <= MAX_NAME
    requires table <= r.table && forall i | |table| <= i < |r.table| :: |r.table[i].name| <= |name|
    ensures TableOk(r.packet, r.table, MAX_NAME)
  {
    TableExtends(p, r.packet, table, MAX_NAME);
    assert forall i | 0 <= i < |table| :: r.table[i] == table[i];
  }

  lemma {:induction false} AllAtExtends(items: seq<Item>, m: Message, q: seq<byte>, more: Item, table: seq<Entry>)
    requires m.Message? && AllAt(items, m) && m.packet <= q
    requires more.NameItem? ==>
      && IsString(more.name) && |more.name| <= MAX_NAME && At(q, |q|, |m.packet|, Labels(more.name))
      && (WellFormed(more.name) ==> End(q, |m.packet|) == |q|)
    ensures AllAt(items + [more], Message(q, table, m.starts + [|m.packet|]))
  {
    var m' := Message(q, table, m.starts + [|m.packet|]);
    forall i | 0 <= i < |items| && items[i].NameItem?
      ensures At(q, |q|, m'.starts[i], Labels(items[i].name)) && EndOf(m', i) == EndOf(m, i)
      ensures WellFormed(items[i].name) ==> End(q, m'.starts[i]) == EndOf(m', i)
    {
      AtExtends(m.packet, q, |m.packet|, |q|, m.starts[i], Labels(items[i].name));
      if WellFormed(items[i].name) {
        EndExtends(m.packet, q, m.starts[i]);
      }
    }
  }

  /** However names and other bytes follow each other, all names of a message stay readable. */
  lemma {:induction false} WriteAllAt(items: seq<Item>, cap: nat, bufLen: nat)
    requires bufLen <= OFFSET_LIMIT && forall i | 0 <= i < |items| && items[i].NameItem? :: IsString(items[i].name)
    ensures var m := WriteAll(items, cap, bufLen);
      m.Message? ==> AllAt(items, m) && TableOk(m.packet, m.table, MAX_NAME)
  {
    if items != [] {
      var n := |items| - 1;
      var before, last := items[..n], items[n];
      assert items == before + [last];
      WriteAllAt(before, cap, bufLen);
      var m := WriteAll(before, cap, bufLen);
      if WriteAll(items, cap, bufLen).Message? {
        if last.NameItem? {
          var r := EncodeRest(m.packet, last.name, m.table, cap, bufLen);
          EncodeAt(m.packet, last.name, m.table, cap, bufLen);
          if WellFormed(last.name) {
            EncodeEnd(m.packet, last.name, m.table, cap, bufLen);
            WellFormedWritesNone(last.name, m.table);
          }
          TableBelow(m.packet, m.table, last.name, r);
          AllAtExtends(before, m, r.packet, last, r.table);
        } else {
          TableExtends(m.packet, m.packet + last.bytes, m.table, MAX_NAME);
          AllAtExtends(before, m, m.packet + last.bytes, last, m.table);
        }
      }
    }
  }

  /** Parsing a message at the start of each of its names gives back the name and where it ends. */
  lemma {:induction false} AllNamesParse(items: seq<Item>, cap: nat, bufLen: nat, i: nat)
    requires bufLen <= OFFSET_LIMIT && forall k | 0 <= k < |items| && items[k].NameItem? :: IsString(items[k].name)
    requires WriteAll(items, cap, bufLen).Message? && i < |items| && items[i].NameItem? && WellFormed(items[i].name)
    ensures var m := WriteAll(items, cap, bufLen);
      i < |m.starts| && var parsed := Parse(m.packet, m.starts[i], MAX_NAME + 1);
        parsed == Name(TrimDot(items[i].name), EndOf(m, i))
  {
    WriteAllAt(items, cap, bufLen);
    var m := WriteAll(items, cap, bufLen);
    ParseAt(m.packet, |m.packet|, m.starts[i], Labels(items[i].name), [], None, 0, MAX_NAME + 1);
    JoinLabels(items[i].name);
  }

  /** So whatever names and bytes there are, if they fit they are written, and each name reads back where it starts. */
  lemma {:induction false} MessageRoundTrip(items: seq<Item>, cap: nat, bufLen: nat, i: nat)
    requires TotalSize(items) <= bufLen <= OFFSET_LIMIT
    requires forall k | 0 <= k < |items| && items[k].NameItem? :: Encodable(items[k].name)
    requires i < |items| && items[i].NameItem? && WellFormed(items[i].name)
    ensures var m := WriteAll(items, cap, bufLen);
      && m.Message? && |m.packet| <= bufLen && i < |m.starts|
      && Parse(m.packet, m.starts[i], MAX_NAME + 1) == Name(TrimDot(items[i].name), EndOf(m, i))
  {
    WriteAllSucceeds(items, cap, bufLen);
    AllNamesParse(items, cap, bufLen, i);
  }
}
