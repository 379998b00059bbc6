// The generator of arc4random.c: its state, and numbers below a bound without bias.
module Arc4Random {
  import opened Bytes

  const WORDS: nat := 0x1_0000_0000

  // ----- the state -----

  /** `s` is a permutation of 0 to 255. */
  ghost predicate IsPermutation(s: seq<byte>) {
    && |s| == 256
    && (forall i, j | 0 <= i < j < 256 :: s[i] != s[j])
    && (forall v: byte :: v in s)
  }

  function Swap(s: seq<byte>, i: nat, j: nat): seq<byte>
    requires i < |s| && j < |s|
  {
    s[i := s[j]][j := s[i]]
  }

  lemma {:induction false} SwapKeeps(s: seq<byte>, i: nat, j: nat)
    requires IsPermutation(s) && i < 256 && j < 256
    ensures IsPermutation(Swap(s, i, j))
  {
    var t := Swap(s, i, j);
    forall v: byte
      ensures v in t
    {
      assert v in s;
      var k :| 0 <= k < 256 && s[k] == v;
      assert t[if k == i then j else if k == j then i else k] == v;
    }
  }

  // An unsigned char sum.
  function Add(a: byte, b: byte): byte { ((a as nat + b as nat) % 256) as byte }

  datatype State = State(i: byte, j: byte, s: seq<byte>)

  // One round of arc4_addrandom with the byte `d`.
  function Stir(t: State, d: byte): State
    requires |t.s| == 256
  {
    var i := Add(t.i, 1);
    var j := Add(Add(t.j, t.s[i as int]), d);
    State(i, j, Swap(t.s, i as nat, j as nat))
  }

  // arc4_getbyte: the next state, and the byte
  function Next(t: State): (State, byte)
    requires |t.s| == 256
  {
    var i := Add(t.i, 1);
    var si := t.s[i as int];
    var j := Add(t.j, si);
    var sj := t.s[j as int];
    var s := Swap(t.s, i as nat, j as nat);
    (State(i, j, s), s[Add(si, sj) as int])
  }

  // The rounds of arc4_addrandom from number `n` on.
  function StirFrom(t: State, dat: seq<byte>, n: nat): (r: State)
    requires |t.s| == 256 && dat != [] && n <= 256
    ensures |r.s| == 256
    decreases 256 - n
  {
    if n == 256 then t else StirFrom(Stir(t, dat[n % |dat|]), dat, n + 1)
  }

  lemma {:induction false} StirKeeps(t: State, d: byte)
    requires IsPermutation(t.s)
    ensures IsPermutation(Stir(t, d).s) && IsPermutation(Next(t).0.s)
  {
    var i := Add(t.i, 1);
    SwapKeeps(t.s, i as nat, Add(Add(t.j, t.s[i as int]), d) as nat);
    SwapKeeps(t.s, i as nat, Add(t.j, t.s[i as int]) as nat);
  }

  /** One round, on the cells: the two counters move on, by one and by what they have found, and their cells change places. */
  ghost predicate Rounds(t: State, u: State, d: byte)
    requires |t.s| == |u.s| == 256
  {
    && u.i as nat == (t.i as nat + 1) % 256
    && u.j as nat == (t.j as nat + t.s[u.i as int] as nat + d as nat) % 256
    && u.s[u.i as int] == t.s[u.j as int] && u.s[u.j as int] == t.s[u.i as int]
    && forall k | 0 <= k < 256 && k != u.i as int && k != u.j as int :: u.s[k] == t.s[k]
  }

  lemma {:induction false} StirRounds(t: State, d: byte)
    requires |t.s| == 256
    ensures Rounds(t, Stir(t, d), d)
  {
  }

  // An unsigned char difference.
  function Sub(a: byte, b: byte): byte { ((a as nat + 256 - b as nat) % 256) as byte }

  // The state before a round in which `d` was mixed in.
  function Unstir(u: State, d: byte): State
    requires |u.s| == 256
  {
    var s := Swap(u.s, u.i as nat, u.j as nat);
    State(Sub(u.i, 1), Sub(Sub(u.j, d), s[u.i as int]), s)
  }

  /** No round loses anything: from the new state and the byte mixed in the old state can be told. */
  lemma {:induction false} StirUndone(t: State, d: byte)
    requires |t.s| == 256
    ensures Unstir(Stir(t, d), d) == t
  {
    var i := Add(t.i, 1);
    var si := t.s[i as int];
    SwapTwice(t.s, i as nat, Add(Add(t.j, si), d) as nat);
    SubAdd(t.i, 1);
    SubAdd(Add(t.j, si), d);
    SubAdd(t.j, si);
  }

  lemma {:induction false} SwapTwice(s: seq<byte>, i: nat, j: nat)
    requires i < |s| && j < |s|
    ensures Swap(Swap(s, i, j), i, j) == s
  {
  }

  lemma {:induction false} SubAdd(a: byte, b: byte)
    ensures Sub(Add(a, b), b) == a
  {
  }

  /** Every byte that is mixed in makes a difference. */
  lemma {:induction false} StirMixes(t: State, d: byte, e: byte)
    requires |t.s| == 256
    ensures Stir(t, d) == Stir(t, e) <==> d == e
  {
    var j := Add(t.j, t.s[Add(t.i, 1) as int]);
    assert Add(j, d) == Add(j, e) <==> d == e;
  }

  /** Drawing a byte is a round in which nothing is mixed in; the byte is the cell that the two cells together name. */
  lemma {:induction false} NextDraws(t: State)
    requires |t.s| == 256
    ensures var (u, b) := Next(t);
      u == Stir(t, 0) && b == u.s[(u.s[u.i as int] as nat + u.s[u.j as int] as nat) % 256]
  {
  }

  // The byte of `dat` that round `n` mixes in.
  function InRound(dat: seq<byte>, n: nat): byte
    requires dat != []
  {
    dat[n % |dat|]
  }

  /** In the rounds of a pass the bytes of `dat` are mixed in one after the other, over and over. */
  lemma {:induction false} StirFromRounds(t: State, dat: seq<byte>, n: nat) returns (states: seq<State>)
    requires |t.s| == 256 && dat != [] && n <= 256
    ensures |states| == 257 - n && states[0] == t && states[256 - n] == StirFrom(t, dat, n)
    ensures forall k | 0 <= k < 257 - n :: |states[k].s| == 256
    ensures forall k | 0 <= k < 256 - n :: states[k + 1] == Stir(states[k], InRound(dat, n + k))
    decreases 256 - n
  {
    if n == 256 {
      states := [t];
    } else {
      var u := Stir(t, InRound(dat, n));
      var more := StirFromRounds(u, dat, n + 1);
      states := [t] + more;
      forall k | 0 <= k < 256 - n
        ensures states[k + 1] == Stir(states[k], InRound(dat, n + k))
      {
        if k > 0 {
          assert more[k - 1 + 1] == Stir(more[k - 1], InRound(dat, n + 1 + (k - 1)));
          assert n + 1 + (k - 1) == n + k && states[k + 1] == more[k] && states[k] == more[k - 1];
        }
      }
    }
  }

  // How far a pass over the state has come.
  lemma {:induction false} OneFurther(i: byte, n: nat)
    requires n < 256
    ensures (Add(i, 1) as nat + 256 - (n + 1)) % 256 == (i as nat + 256 - n) % 256
  {
  }

  /** Whatever is mixed in, the state stays a permutation, and a whole pass ends where it began. */
  lemma {:induction false} StirFromKeeps(t: State, dat: seq<byte>, n: nat)
    requires IsPermutation(t.s) && dat != [] && n <= 256
    ensures IsPermutation(StirFrom(t, dat, n).s) && StirFrom(t, dat, n).i as nat == (t.i as nat + 256 - n) % 256
    decreases 256 - n
  {
    if n < 256 {
      var u := Stir(t, dat[n % |dat|]);
      OneFurther(t.i, n);
      StirKeeps(t, dat[n % |dat|]);
      StirFromKeeps(u, dat, n + 1);
    }
  }

  lemma {:induction false} OnceAround(i: byte)
    ensures (i as nat + 256 - 0) % 256 == i as nat
  {
  }

  class Arc4 {
    var i: byte
    var j: byte
    const s: array<byte>

    ghost predicate Valid()
      reads this, s
    {
      IsPermutation(s[..])
    }

    function View(): State
      reads this, s
    {
      State(i, j, s[..])
    }

    // arc4_init
    constructor ()
      ensures Valid() && View() == State(0, 0, seq(256, (k: nat) => (k % 256) as byte))
    {
      i, j := 0, 0;
      s := new byte[256](k => (k % 256) as byte);
      new;
      forall v: byte
        ensures v in s[..]
      {
        assert s[..][v as int] == v;
      }
    }

    // One round of arc4_addrandom.
    method StirOnce(d: byte)
      requires s.Length == 256
      modifies this, s
      ensures View() == Stir(old(View()), d)
    {
      i := Add(i, 1);
      var si := s[i as int];
      j := Add(Add(j, si), d);
      s[i as int] := s[j as int];
      s[j as int] := si;
    }

    // arc4_addrandom
    method AddRandom(dat: seq<byte>)
      requires Valid() && dat != []
      modifies this, s
      ensures Valid()
      ensures View() == var r := StirFrom(State(Add(old(i), 255), old(j), old(s[..])), dat, 0); r.(j := r.i)
      ensures i == j == Add(old(i), 255)
    {
      i := Add(i, 255);
      StirFromKeeps(View(), dat, 0);
      OnceAround(i);
      assert View() == State(Add(old(i), 255), old(j), old(s[..]));
      ghost var all := StirFrom(View(), dat, 0);
      for n := 0 to 256
        invariant s.Length == 256 && StirFrom(View(), dat, n) == all
      {
        StirOnce(dat[n % |dat|]);
      }
      j := i;
    }

    // arc4_getbyte
    method GetByte() returns (b: byte)
      requires Valid()
      modifies this, s
      ensures Valid() && (View(), b) == Next(old(View()))
    {
      StirKeeps(View(), 0);
      i := Add(i, 1);
      var si := s[i as int];
      j := Add(j, si);
      var sj := s[j as int];
      s[i as int] := sj;
      s[j as int] := si;
      return s[Add(si, sj) as int];
    }
  }

  // ----- arc4random_uniform -----

  // The smallest number accepted, in 32-bit arithmetic.
  function Smallest(bound: nat): nat
    requires 2 <= bound < WORDS
  {
    if bound > 0x8000_0000 then (1 + (WORDS - 1 - bound)) % WORDS
    else (((0xffff_ffff - bound * 2) % WORDS + 1) % WORDS) % bound
  }

  lemma {:induction false} ModSub(a: nat, b: nat)
    requires b > 0 && a >= b
    ensures (a - b) % b == a % b
  {
    var q, r := a / b, a % b;
    assert a - b == b * (q - 1) + r;
    ModUnique(a - b, b, q - 1, r);
  }

  lemma {:induction false} ModUnique(a: nat, b: nat, q: nat, r: nat)
    requires b > 0 && a == b * q + r && r < b
    ensures a / b == q && a % b == r
  {
    var p := a / b;
    assert a == b * p + a % b;
    assert p < q ==> b * (p + 1) <= b * q;
    assert q < p ==> b * (q + 1) <= b * p;
  }

  lemma {:induction false} SmallBound(bound: nat)
    requires 2 <= bound <= 0x8000_0000
    ensures Smallest(bound) == (WORDS - bound - bound) % bound
  {
    assert ((0xffff_ffff - bound * 2) % WORDS + 1) % WORDS == WORDS - bound - bound;
  }

  /** The 32-bit arithmetic finds 2^32 modulo the bound. */
  lemma {:induction false} SmallestIsRemainder(bound: nat)
    requires 2 <= bound < WORDS
    ensures Smallest(bound) == WORDS % bound
  {
    if bound > 0x8000_0000 {
      ModUnique(WORDS, bound, 1, WORDS - bound);
    } else {
      ModSub(WORDS, bound);
      ModSub(WORDS - bound, bound);
      SmallBound(bound);
    }
  }

  // How many numbers from `lo` to below `hi` leave the remainder `k`.
  function Count(lo: nat, hi: nat, bound: nat, k: nat): nat
    requires bound > 0 && lo <= hi
    decreases hi - lo
  {
    if lo == hi then 0 else (if lo % bound == k then 1 else 0) + Count(lo + 1, hi, bound, k)
  }

  lemma {:induction false} CountSplit(lo: nat, mid: nat, hi: nat, bound: nat, k: nat)
    requires bound > 0 && lo <= mid <= hi
    ensures Count(lo, hi, bound, k) == Count(lo, mid, bound, k) + Count(mid, hi, bound, k)
    decreases mid - lo
  {
    if lo < mid {
      CountSplit(lo + 1, mid, hi, bound, k);
    }
  }

  /** Of as many consecutive numbers as the bound, one leaves each remainder. */
  lemma {:induction false} CountWindow(lo: nat, bound: nat, k: nat)
    requires k < bound
    ensures Count(lo, lo + bound, bound, k) == 1
  {
    if lo == 0 {
      CountFirst(0, bound, k);
    } else {
      CountWindow(lo - 1, bound, k);
      CountSplit(lo - 1, lo, lo - 1 + bound, bound, k);
      CountSplit(lo, lo - 1 + bound, lo + bound, bound, k);
      ModUnique(lo - 1 + bound, bound, (lo - 1) / bound + 1, (lo - 1) % bound);
    }
  }

  lemma {:induction false} CountFirst(from: nat, bound: nat, k: nat)
    requires k < bound && from <= bound
    ensures Count(from, bound, bound, k) == if from <= k then 1 else 0
    decreases bound - from
  {
    if from < bound {
      ModUnique(from, bound, 0, from);
      CountFirst(from + 1, bound, k);
    }
  }

  lemma {:induction false} CountBlocks(lo: nat, blocks: nat, bound: nat, k: nat)
    requires k < bound
    ensures Count(lo, lo + blocks * bound, bound, k) == blocks
    decreases blocks
  {
    if blocks > 0 {
      assert blocks * bound == bound + (blocks - 1) * bound;
      CountWindow(lo, bound, k);
      CountSplit(lo, lo + bound, lo + blocks * bound, bound, k);
      CountBlocks(lo + bound, blocks - 1, bound, k);
    }
  }

  /** No bias: of the 32-bit numbers that are accepted, equally many are reduced to each number below the bound. */
  lemma {:induction false} Unbiased(bound: nat, k: nat)
    requires 2 <= bound < WORDS && k < bound
    ensures Smallest(bound) < bound && Count(Smallest(bound), WORDS, bound, k) == WORDS / bound
  {
    SmallestIsRemainder(bound);
    var q := WORDS / bound;
    assert WORDS == bound * q + WORDS % bound;
    CountBlocks(WORDS % bound, q, bound, k);
  }

  ghost predicate IsFirstAccepted(words: seq<nat>, i: nat, min: nat)
    requires i < |words|
  {
    words[i] >= min && forall j | 0 <= j < i :: words[j] < min
  }

  // arc4random_uniform on a supply of random words; None if they run out before one is accepted.
  method Uniform(bound: nat, words: seq<nat>) returns (r: Option<nat>)
    requires bound < WORDS && forall w | w in words :: w < WORDS
    ensures bound < 2 ==> r == Some(0)
    ensures bound >= 2 ==> match r
      case Some(v) => v < bound && exists i :: 0 <= i < |words| && IsFirstAccepted(words, i, WORDS % bound) && v == words[i] % bound
      case None => forall w | w in words :: w < WORDS % bound
  {
    if bound < 2 {
      return Some(0);
    }
    SmallestIsRemainder(bound);
    var min := Smallest(bound);
    for i := 0 to |words|
      invariant forall j | 0 <= j < i :: words[j] < min
    {
      if words[i] >= min {
        assert IsFirstAccepted(words, i, WORDS % bound);
        return Some(words[i] % bound);
      }
    }
    return None;
  }
}
