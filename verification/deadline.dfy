/** The absolute deadline of the consumer's timed wait: the wall-clock
    reading (seconds and microseconds) plus 40 ms, as seconds and
    nanoseconds. */
module Deadline {

  const WaitNs: int := 40 * 1000 * 1000
  const NsPerSecond: int := 1000 * 1000 * 1000
  const UsPerSecond: int := 1000 * 1000

  /** Largest value of a 32-bit `long`. */
  const LongMax: int := 0x7FFF_FFFF

  /** A `gettimeofday` reading. */
  datatype TimeVal = TimeVal(sec: int, usec: int)

  /** An absolute deadline for `pthread_cond_timedwait`. */
  datatype TimeSpec = TimeSpec(sec: int, nsec: int)

  /** What `gettimeofday` guarantees of its reading. */
  predicate ValidTimeVal(tv: TimeVal) {
    0 <= tv.usec < UsPerSecond
  }

  /** What `pthread_cond_timedwait` demands of its deadline. */
  predicate ValidTimeSpec(ts: TimeSpec) {
    0 <= ts.nsec < NsPerSecond
  }

  function Micros(tv: TimeVal): int {
    tv.sec * UsPerSecond + tv.usec
  }

  function Nanos(ts: TimeSpec): int {
    ts.sec * NsPerSecond + ts.nsec
  }

  /** The deadline 40 ms after `tp`, with at most one carry from the
      nanoseconds into the seconds. */
  function DeadlineAfter(tp: TimeVal): (ts: TimeSpec)
    ensures Nanos(ts) == Micros(tp) * 1000 + WaitNs
    ensures ValidTimeVal(tp) ==> ValidTimeSpec(ts)
    ensures ts.sec == tp.sec || ts.sec == tp.sec + 1
  {
    var nsec := tp.usec * 1000 + WaitNs;
    if nsec >= NsPerSecond then TimeSpec(tp.sec + 1, nsec - NsPerSecond)
    else TimeSpec(tp.sec, nsec)
  }

  /** For a valid reading, the unnormalised nanosecond sum fits a 32-bit
      `long`, so the addition before the carry cannot overflow. */
  lemma NanosecondSumFitsLong(tp: TimeVal)
    requires ValidTimeVal(tp)
    ensures 0 <= tp.usec * 1000 + WaitNs <= LongMax
  {
  }
}
