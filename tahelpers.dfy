/** The small numeric helpers of the sleeping-TA program: the clamping of the
    command-line options, `rand_range`, and the deadline arithmetic of
    `sem_wait_ms`. */
module TaHelpers {

  const INT32_MIN: int := -0x8000_0000
  const INT32_MAX: int := 0x7fff_ffff

  predicate IsInt32(x: int)
  {
    INT32_MIN <= x <= INT32_MAX
  }

  /** Nanoseconds per second, the bound of `tv_nsec`. */
  const NSEC_PER_SEC: int := 1_000_000_000
  /** Nanoseconds per millisecond. */
  const NSEC_PER_MSEC: int := 1_000_000
  /** Milliseconds per second. */
  const MSEC_PER_SEC: int := 1000

  /** The clamping at the end of `parse_args`: at least one student, no
      negative number of chairs, at least one request per student. A value
      already in range is kept as it is. */
  method ClampOptions(students: int, chairs: int, requests: int)
    returns (students': int, chairs': int, requests': int)
    ensures students' >= 1 && chairs' >= 0 && requests' >= 1
    ensures students >= 1 ==> students' == students
    ensures chairs >= 0 ==> chairs' == chairs
    ensures requests >= 1 ==> requests' == requests
    ensures students < 1 ==> students' == 1
    ensures chairs < 0 ==> chairs' == 0
    ensures requests < 1 ==> requests' == 1
  {
    students', chairs', requests' := students, chairs, requests;
    if students' < 1 {
      students' := 1;
    }
    if chairs' < 0 {
      chairs' := 0;
    }
    if requests' < 1 {
      requests' := 1;
    }
  }

  /** `rand_range(rng, lo, hi)`, where `draw` is the value `rand_r` returned:
      `lo` when the range is empty or a single value, otherwise a value of
      `[lo, hi]`. The width `hi - lo + 1` is computed in `int`, so it must
      not overflow. */
  function RandRange(draw: nat, lo: int, hi: int): (r: int)
    requires IsInt32(lo) && IsInt32(hi)
    requires lo < hi ==> hi - lo + 1 <= INT32_MAX
    ensures hi <= lo ==> r == lo
    ensures lo < hi ==> lo <= r <= hi
    ensures IsInt32(r)
  {
    if hi <= lo then lo else lo + draw % (hi - lo + 1)
  }

  /** Every value of `[lo, hi]` is drawn for some value of `rand_r`, so
      `rand_range` can return any of them. */
  lemma RandRangeCovers(lo: int, hi: int, v: int)
    requires IsInt32(lo) && IsInt32(hi) && lo < hi && hi - lo + 1 <= INT32_MAX
    requires lo <= v <= hi
    ensures RandRange(v - lo, lo, hi) == v
  {
    assert (v - lo) % (hi - lo + 1) == v - lo;
  }

  /** The absolute deadline `sem_wait_ms` passes to `sem_timedwait`: the
      current time `sec, nsec` (as `clock_gettime` returns it, `nsec` below
      one second) moved on by `timeoutMs` milliseconds, with the
      nanoseconds carried into the seconds. Only a non-negative timeout gets
      here; a negative one waits without a deadline. */
  method Deadline(sec: int, nsec: int, timeoutMs: int) returns (sec': int, nsec': int)
    requires timeoutMs >= 0 && 0 <= nsec < NSEC_PER_SEC
    ensures 0 <= nsec' < NSEC_PER_SEC
    ensures sec' * NSEC_PER_SEC + nsec' == sec * NSEC_PER_SEC + nsec + timeoutMs * NSEC_PER_MSEC
  {
    sec' := sec + timeoutMs / MSEC_PER_SEC;
    nsec' := nsec + (timeoutMs % MSEC_PER_SEC) * NSEC_PER_MSEC;
    if nsec' >= NSEC_PER_SEC {
      sec' := sec' + 1;
      nsec' := nsec' - NSEC_PER_SEC;
    }
  }

  /** A time has one normalised form: seconds with nanoseconds below one
      second. With `Deadline`'s contract this fixes its result. */
  lemma NormalisedUnique(s1: int, n1: int, s2: int, n2: int)
    requires 0 <= n1 < NSEC_PER_SEC && 0 <= n2 < NSEC_PER_SEC
    requires s1 * NSEC_PER_SEC + n1 == s2 * NSEC_PER_SEC + n2
    ensures s1 == s2 && n1 == n2
  {
  }
}
