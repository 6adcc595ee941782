/** `millis()` and `micros()`: the wall clock read by `gettimeofday` turned
    into milliseconds and microseconds since the epoch. The clock reading is
    an input; the results are unbounded naturals. */
module Clock {

  /** A `struct timeval`: whole seconds and the microseconds within the second. */
  datatype TimeVal = TimeVal(sec: nat, usec: nat) {

    /** What `gettimeofday` guarantees of `tv_usec`. */
    predicate Valid() {
      usec < 1_000_000
    }

    /** Lexicographic `(sec, usec)` order: `this` is not later than `other`. */
    predicate NotAfter(other: TimeVal) {
      sec < other.sec || (sec == other.sec && usec <= other.usec)
    }
  }

  /** The reading in whole milliseconds: its thousands are the seconds and
      its remainder the milliseconds within the second. */
  function Millis(tv: TimeVal): (ms: nat)
    ensures tv.Valid() ==> ms / 1000 == tv.sec && ms % 1000 == tv.usec / 1000
  {
    tv.sec * 1000 + tv.usec / 1000
  }

  /** The reading in microseconds, from which the reading itself can be
      recovered. */
  function Micros(tv: TimeVal): (us: nat)
    ensures tv.Valid() ==> us / 1_000_000 == tv.sec && us % 1_000_000 == tv.usec
  {
    tv.sec * 1_000_000 + tv.usec
  }

  /** The two clocks read on the same instant agree: the millisecond count is
      the microsecond count rounded down to whole milliseconds. */
  lemma MicrosToMillis(tv: TimeVal)
    ensures Micros(tv) / 1000 == Millis(tv)
  {
  }

  /** `micros` is an order embedding of valid clock readings: it never
      decreases as the reading advances, and a larger count always means a
      later reading. */
  lemma MicrosMonotone(a: TimeVal, b: TimeVal)
    requires a.Valid() && b.Valid()
    ensures a.NotAfter(b) <==> Micros(a) <= Micros(b)
  {
  }

  /** `millis` never decreases as the reading advances either (it may stand
      still within a millisecond). */
  lemma MillisMonotone(a: TimeVal, b: TimeVal)
    requires a.Valid() && b.Valid() && a.NotAfter(b)
    ensures Millis(a) <= Millis(b)
  {
  }
}
