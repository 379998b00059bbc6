// struct timeval, and the tag that marks a common timeout in the unused bits of tv_usec.
module EventTime {

  datatype Timeval = Timeval(sec: int, usec: nat)

  const MICROSECONDS: nat := 0x10_0000        // one more than MICROSECONDS_MASK
  const COMMON_TIMEOUT_UNIT: nat := 0x1000_0000
  const COMMON_TIMEOUT_MAGIC: nat := 5
  const MAX_COMMON_TIMEOUTS: nat := 256
  const MILLION: nat := 1_000_000

  // tv_usec & MICROSECONDS_MASK
  function Strip(tv: Timeval): Timeval { tv.(usec := tv.usec % MICROSECONDS) }

  // tv_usec & ~MICROSECONDS_MASK
  function Tag(tv: Timeval): nat { tv.usec - tv.usec % MICROSECONDS }

  // COMMON_TIMEOUT_IDX
  function CommonIdx(tv: Timeval): nat { tv.usec / MICROSECONDS % MAX_COMMON_TIMEOUTS }

  // is_common_timeout, in a base with `n` common timeouts
  predicate IsCommonTimeout(tv: Timeval, n: nat) {
    tv.usec / COMMON_TIMEOUT_UNIT == COMMON_TIMEOUT_MAGIC && CommonIdx(tv) < n
  }

  // evutil_timercmp(a, b, <)
  predicate TimerLess(a: Timeval, b: Timeval) {
    a.sec < b.sec || (a.sec == b.sec && a.usec < b.usec)
  }

  // evutil_timeradd
  function TimerAdd(a: Timeval, b: Timeval): Timeval {
    if a.usec + b.usec >= MILLION then Timeval(a.sec + b.sec + 1, a.usec + b.usec - MILLION)
    else Timeval(a.sec + b.sec, a.usec + b.usec)
  }

  /** A time without a tag, in microseconds. */
  function Micros(tv: Timeval): int { tv.sec * MILLION + tv.usec }

  /** Sums of times are sums of microseconds, and normalized. */
  lemma {:induction false} TimerAddMicros(a: Timeval, b: Timeval)
    requires a.usec < MILLION && b.usec <= MILLION
    ensures Micros(TimerAdd(a, b)) == Micros(a) + Micros(b) && TimerAdd(a, b).usec < MILLION
  {
  }

  /** Normalized times are compared as microseconds, which determine them. */
  lemma {:induction false} MicrosCompare(a: Timeval, b: Timeval)
    requires a.usec < MILLION && b.usec < MILLION
    ensures TimerLess(a, b) <==> Micros(a) < Micros(b)
    ensures a == b <==> Micros(a) == Micros(b)
  {
  }

  // A time as the kernel reports it.
  predicate Plain(tv: Timeval) { tv.usec < MILLION }

  /** The moment a timeval stands for, tag or no tag. */
  function Due(tv: Timeval): int { tv.sec * MICROSECONDS + tv.usec % MICROSECONDS }

  /** Times with the same tag are compared as moments. */
  lemma {:induction false} SameTagCompare(a: Timeval, b: Timeval)
    requires Tag(a) == Tag(b)
    ensures TimerLess(a, b) <==> Due(a) < Due(b)
    ensures TimerLess(a, b) <==> TimerLess(Strip(a), Strip(b))
  {
  }

  /** The tag is determined by being a common timeout with a given index. */
  lemma {:induction false} CommonTag(tv: Timeval, n: nat)
    requires IsCommonTimeout(tv, n)
    ensures Tag(tv) == COMMON_TIMEOUT_MAGIC * COMMON_TIMEOUT_UNIT + CommonIdx(tv) * MICROSECONDS
  {
    var high := tv.usec / MICROSECONDS;
    assert tv.usec == high * MICROSECONDS + tv.usec % MICROSECONDS;
    assert high / MAX_COMMON_TIMEOUTS == tv.usec / COMMON_TIMEOUT_UNIT;
  }

  /** Putting a tag on a plain time makes it a common timeout of that queue and changes nothing else. */
  lemma {:induction false} Retag(tv: Timeval, tag: Timeval, n: nat)
    requires tv.usec < MICROSECONDS && IsCommonTimeout(tag, n)
    ensures var r := tv.(usec := tv.usec + Tag(tag));
      IsCommonTimeout(r, n) && CommonIdx(r) == CommonIdx(tag) && Due(r) == Due(tv)
  {
    CommonTag(tag, n);
    var i := CommonIdx(tag);
    var r := tv.usec + COMMON_TIMEOUT_MAGIC * COMMON_TIMEOUT_UNIT + i * MICROSECONDS;
    assert r / MICROSECONDS == COMMON_TIMEOUT_MAGIC * MAX_COMMON_TIMEOUTS + i;
    assert r / COMMON_TIMEOUT_UNIT == COMMON_TIMEOUT_MAGIC;
  }

  /** A time without a tag is no common timeout. */
  lemma {:induction false} PlainNotCommon(tv: Timeval, n: nat)
    requires tv.usec < MICROSECONDS
    ensures !IsCommonTimeout(tv, n) && Tag(tv) == 0 && Strip(tv) == tv
  {
  }
}
