/**
 * Two places where `cbProf::prof` as written differs from what it evidently
 * intends. Each is modelled as written, with a lemma that exhibits the
 * difference; the rest of the model uses the intended behaviour
 * (`Profiler.BucketIndex` on non-negative durations, `Profiler.Create`).
 */
module ProfilerFindings {
  import opened IntRanges
  import opened Profiler

  /**
   * The bucket index of `end` as written: `delta` is a signed nanosecond
   * count, C++ division truncates toward zero, and the result is stored in a
   * `u32`. The clock is `high_resolution_clock`, which need not be monotonic,
   * so `delta` can be negative.
   */
  function BucketIndexAsWritten(delta: int): (i: int)
    requires delta < OneMs
    ensures IsU32(i)
    ensures delta >= 0 ==> i < SlowBucket
  {
    if delta < 1_000 then ToU32(TruncDiv(delta, 100))
    else if delta < 10_000 then ToU32(9 + TruncDiv(delta, 1_000))
    else if delta < 100_000 then ToU32(18 + TruncDiv(delta, 10_000))
    else ToU32(27 + TruncDiv(delta, 100_000))
  }

  /** For the durations a monotonic clock yields, the code as written computes the intended bucket. */
  lemma AsWrittenAgreesOnDurations(delta: int)
    requires 0 <= delta < OneMs
    ensures BucketIndexAsWritten(delta) == BucketIndex(delta)
  {
  }

  /**
   * A clock step back of 100 ns or more (up to 1 ms) gives an index far
   * beyond `hist[37]`: `++hist[i]` writes outside the array.
   */
  lemma ClockStepBackIndexOutOfRange(delta: int)
    requires 0 < delta + OneMs && delta <= -100
    ensures BucketIndexAsWritten(delta) >= HistSize
  {
  }

  /** The concrete case: 100 ns backwards selects `hist[4294967295]`. */
  lemma ClockStepBackExample()
    ensures BucketIndexAsWritten(-100) == U32_LIMIT - 1
  {
  }

  /**
   * The constructor `prof(bool r)` as written: its body constructs and
   * discards a temporary `prof`, so the object itself is never initialised
   * and keeps whatever its memory held (`garbage`); only `start`, a
   * `time_point`, is default-constructed to the epoch.
   */
  function CreateFromFlagAsWritten(garbage: Prof, r: bool): (p: Prof)
    ensures p.(start := garbage.start) == garbage
    ensures p.start == 0
  {
    garbage.(start := 0)
  }

  /**
   * With leftover memory that says "not running" and holds a call count of 7
   * over 38 empty buckets, `prof(true)` as written is not running and breaks
   * the counting invariant, while the delegating constructor it was meant to
   * be (`Create(true)`) runs with empty counters.
   */
  lemma FlagConstructorIgnoresFlag()
    ensures var p := CreateFromFlagAsWritten(Prof(7, false, 5, 0, 0, 0, seq(HistSize, _ => 0)), true);
            |p.hist| == HistSize && !p.running && !Valid(p)
    ensures Create(true).running && Valid(Create(true))
  {
    HistSumZero(seq(HistSize, _ => 0), 0, SlowBucket);
  }
}
