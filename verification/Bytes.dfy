// Vocabulary shared by every component: bytes, C integer limits and flattening.
module Bytes {

  newtype byte = x: int | 0 <= x < 256

  // The limits of size_t and ssize_t on a 64-bit platform.
  const SIZE_MAX: nat := 0xffff_ffff_ffff_ffff
  const SSIZE_MAX: nat := 0x7fff_ffff_ffff_ffff

  datatype Option<+T> = None | Some(value: T)

  function Min(a: int, b: int): int { if a <= b then a else b }

  function Max(a: int, b: int): int { if a <= b then b else a }

  /** The bytes of a list of fragments, in order. */
  ghost function Concat(parts: seq<seq<byte>>): seq<byte> {
    if parts == [] then [] else parts[0] + Concat(parts[1..])
  }

  lemma {:induction false} ConcatAppend(a: seq<seq<byte>>, b: seq<seq<byte>>)
    ensures Concat(a + b) == Concat(a) + Concat(b)
  {
    if a == [] {
      assert a + b == b;
    } else {
      assert (a + b)[1..] == a[1..] + b;
      ConcatAppend(a[1..], b);
    }
  }

  lemma {:induction false} ConcatSingle(p: seq<byte>)
    ensures Concat([p]) == p
  {
    assert [p][1..] == [];
  }

  lemma {:induction false} ConcatSnoc(a: seq<seq<byte>>, p: seq<byte>)
    ensures Concat(a + [p]) == Concat(a) + p
  {
    ConcatAppend(a, [p]);
    ConcatSingle(p);
  }

  /** Isolates fragment `k`. */
  lemma {:induction false} ConcatAt(parts: seq<seq<byte>>, k: nat)
    requires k < |parts|
    ensures Concat(parts) == Concat(parts[..k]) + parts[k] + Concat(parts[k + 1..])
  {
    assert parts == parts[..k] + parts[k..];
    ConcatAppend(parts[..k], parts[k..]);
  }

  lemma {:induction false} ConcatSplit(parts: seq<seq<byte>>, k: nat)
    requires k <= |parts|
    ensures Concat(parts) == Concat(parts[..k]) + Concat(parts[k..])
  {
    assert parts == parts[..k] + parts[k..];
    ConcatAppend(parts[..k], parts[k..]);
  }

  lemma {:induction false} ConcatTakeNext(parts: seq<seq<byte>>, k: nat)
    requires k < |parts|
    ensures Concat(parts[..k + 1]) == Concat(parts[..k]) + parts[k]
  {
    assert parts[..k + 1] == parts[..k] + [parts[k]];
    ConcatSnoc(parts[..k], parts[k]);
  }

  lemma {:induction false} ConcatEmpty(parts: seq<seq<byte>>)
    requires forall i | 0 <= i < |parts| :: parts[i] == []
    ensures Concat(parts) == []
  {
    if parts != [] {
      ConcatEmpty(parts[1..]);
    }
  }

  /** Replacing fragment `k`. */
  lemma {:induction false} ConcatUpdate(parts: seq<seq<byte>>, k: nat, p: seq<byte>)
    requires k < |parts|
    ensures Concat(parts[k := p]) == Concat(parts[..k]) + p + Concat(parts[k + 1..])
  {
    var q := parts[k := p];
    assert q[..k] == parts[..k] && q[k + 1..] == parts[k + 1..];
    ConcatAt(q, k);
  }
}
