/**
 * `cbProf::prof`: a stopwatch that sorts each measured duration into a
 * 38-bucket histogram and keeps the call count, the total, the minimum and
 * the maximum.
 *
 * Durations are integer nanoseconds. The clock is not modelled: `Begin` and
 * `End` take the clock reading `now` as a parameter. The `u32` counters wrap
 * modulo 2^32 as in the source.
 */
module Profiler {
  import opened IntRanges

  /** Number of histogram buckets. */
  const HistSize: nat := 38
  /** The last bucket of the sub-millisecond layout. */
  const LastTimedBucket: nat := 36
  /** The bucket that only counts durations of one millisecond or more. */
  const SlowBucket: nat := 37
  /** One millisecond in nanoseconds. */
  const OneMs: nat := 1_000_000

  /** The fields of a `prof` object, without the banner and report strings. */
  datatype Prof = Prof(nCalls: int, running: bool, start: int, min: int, max: int, sum: int, hist: seq<int>)

  /** `++` on a `u32`. */
  function Inc32(x: int): (r: int)
    ensures IsU32(r)
    ensures 0 <= x < U32_LIMIT - 1 ==> r == x + 1
    ensures x == U32_LIMIT - 1 ==> r == 0
  {
    (x + 1) % U32_LIMIT
  }

  // ---------------------------------------------------------------------
  // Bucket layout
  // ---------------------------------------------------------------------

  /** The width of bucket `i` in nanoseconds, as the histogram layout documents it. */
  function BucketWidth(i: nat): nat
  {
    if i < 10 then 100 else if i < 19 then 1_000 else if i < 28 then 10_000 else 100_000
  }

  /** The lowest duration of bucket `i`, as the histogram layout documents it. */
  function BucketLow(i: nat): nat
  {
    if i < 10 then 100 * i
    else if i < 19 then 1_000 * (i - 9)
    else if i < 28 then 10_000 * (i - 18)
    else 100_000 * (i - 27)
  }

  /** The bucket index `end` computes for a sub-millisecond duration. */
  function BucketIndex(delta: nat): (i: nat)
    requires delta < OneMs
    ensures i <= LastTimedBucket
    ensures BucketLow(i) <= delta < BucketLow(i) + BucketWidth(i)
  {
    if delta < 1_000 then delta / 100
    else if delta < 10_000 then 9 + delta / 1_000
    else if delta < 100_000 then 18 + delta / 10_000
    else 27 + delta / 100_000
  }

  /** The bucket `end` increments for a duration: its timed bucket, or `hist[37]` from one millisecond on. */
  function BucketOf(delta: nat): (i: nat)
    ensures i < HistSize
    ensures delta >= OneMs <==> i == SlowBucket
  {
    if delta >= OneMs then SlowBucket else BucketIndex(delta)
  }

  /** Consecutive buckets tile `[0, 1 ms)` without gaps or overlap. */
  lemma BucketsTile()
    ensures BucketLow(0) == 0
    ensures forall i: nat :: i < LastTimedBucket ==> BucketLow(i) + BucketWidth(i) == BucketLow(i + 1)
    ensures BucketLow(LastTimedBucket) + BucketWidth(LastTimedBucket) == OneMs
  {
  }

  /** A duration lies in exactly one bucket: the one `BucketIndex` picks. */
  lemma BucketIndexUnique(delta: nat, i: nat)
    requires i <= LastTimedBucket
    requires BucketLow(i) <= delta < BucketLow(i) + BucketWidth(i)
    ensures delta < OneMs
    ensures BucketIndex(delta) == i
  {
  }

  // ---------------------------------------------------------------------
  // Histogram sums
  // ---------------------------------------------------------------------

  /** The mathematical sum of `h[b..e)`; zero when the range is empty. */
  function HistSum(h: seq<int>, b: int, e: int): (s: int)
    requires 0 <= b && e <= |h|
    decreases e - b
  {
    if e <= b then 0 else HistSum(h, b, e - 1) + h[e - 1]
  }

  /** A sum of counters is never negative. */
  lemma {:induction false} HistSumNonNeg(h: seq<int>, b: int, e: int)
    requires 0 <= b && e <= |h|
    requires forall j :: b <= j < e ==> h[j] >= 0
    ensures HistSum(h, b, e) >= 0
    decreases e - b
  {
    if e > b {
      HistSumNonNeg(h, b, e - 1);
    }
  }

  /** Summing `h[b..e)` is summing `h[b..m)` and `h[m..e)`. */
  lemma {:induction false} HistSumSplit(h: seq<int>, b: int, m: int, e: int)
    requires 0 <= b <= m <= e <= |h|
    ensures HistSum(h, b, e) == HistSum(h, b, m) + HistSum(h, m, e)
    decreases e - m
  {
    if e > m {
      HistSumSplit(h, b, m, e - 1);
    }
  }

  /** Changing one entry changes the sum of a range by the difference, if the entry is in the range. */
  lemma {:induction false} HistSumUpdate(h: seq<int>, b: int, e: int, i: int, v: int)
    requires 0 <= b && e <= |h| && 0 <= i < |h|
    ensures HistSum(h[i := v], b, e) == HistSum(h, b, e) + (if b <= i < e then v - h[i] else 0)
    decreases e - b
  {
    if e > b {
      HistSumUpdate(h, b, e - 1, i, v);
    }
  }

  lemma {:induction false} HistSumZero(h: seq<int>, b: int, e: int)
    requires 0 <= b && e <= |h|
    requires forall j :: 0 <= j < |h| ==> h[j] == 0
    ensures HistSum(h, b, e) == 0
    decreases e - b
  {
    if e > b {
      HistSumZero(h, b, e - 1);
    }
  }

  // ---------------------------------------------------------------------
  // State
  // ---------------------------------------------------------------------

  /** The C++ field types: 38 buckets, all counters `u32`. */
  predicate CountersFit(p: Prof)
  {
    && |p.hist| == HistSize
    && IsU32(p.nCalls)
    && forall j :: 0 <= j < |p.hist| ==> IsU32(p.hist[j])
  }

  /**
   * The counting invariant: `nCalls` is the sum of the timed buckets
   * `hist[0..36]`, both taken modulo 2^32.
   */
  predicate Valid(p: Prof)
  {
    CountersFit(p) && p.nCalls == HistSum(p.hist, 0, SlowBucket) % U32_LIMIT
  }

  /**
   * `prof::init`: every bucket, `nCalls` and `sum` zero, `min` the largest
   * and `max` the smallest `s64` nanosecond count, not running; `start` is
   * left as it was.
   */
  function Init(p: Prof): (r: Prof)
    ensures Valid(r)
    ensures |r.hist| == HistSize && forall j :: 0 <= j < HistSize ==> r.hist[j] == 0
    ensures r.nCalls == 0 && r.sum == 0
    ensures r.min == S64_MAX && r.max == S64_MIN
    ensures !r.running && r.start == p.start
  {
    var h := seq(HistSize, _ => 0);
    HistSumZero(h, 0, SlowBucket);
    Prof(0, false, p.start, S64_MAX, S64_MIN, 0, h)
  }

  /**
   * The constructor `prof(s = "", r = true)`: `init`, then `running := r`;
   * `start` is the clock's epoch.
   */
  function Create(r: bool): (p: Prof)
    ensures Valid(p)
    ensures p.running == r && p.start == 0
    ensures p.nCalls == 0 && p.sum == 0 && forall j :: 0 <= j < HistSize ==> p.hist[j] == 0
    ensures p.min == S64_MAX && p.max == S64_MIN
  {
    Init(Prof(0, false, 0, 0, 0, 0, [])).(running := r)
  }

  /** `prof::run`: only `running` changes. */
  function Run(p: Prof): (r: Prof)
    ensures r.running && r.(running := p.running) == p
    ensures Valid(p) ==> Valid(r)
  {
    p.(running := true)
  }

  /** `prof::stop`: only `running` changes. */
  function Stop(p: Prof): (r: Prof)
    ensures !r.running && r.(running := p.running) == p
    ensures Valid(p) ==> Valid(r)
  {
    p.(running := false)
  }

  /** `prof::begin`: while running, remember the clock reading; otherwise nothing changes. */
  function Begin(p: Prof, now: int): (r: Prof)
    ensures !p.running ==> r == p
    ensures p.running ==> r.start == now && r.(start := p.start) == p
    ensures Valid(p) ==> Valid(r)
  {
    if p.running then p.(start := now) else p
  }

  /**
   * The statistics update of `prof::end` for a measured duration `delta`.
   * One millisecond or more only counts in `hist[37]`; a shorter duration
   * counts in its bucket and in `nCalls`, adds to `sum` and moves `min` and
   * `max`.
   */
  function Record(p: Prof, delta: nat): (r: Prof)
    requires |p.hist| == HistSize
    ensures |r.hist| == HistSize
    ensures r.running == p.running && r.start == p.start
    ensures delta >= OneMs ==>
              && r.nCalls == p.nCalls && r.sum == p.sum && r.min == p.min && r.max == p.max
              && r.hist[SlowBucket] == Inc32(p.hist[SlowBucket])
              && forall j :: 0 <= j < HistSize && j != SlowBucket ==> r.hist[j] == p.hist[j]
    ensures delta < OneMs ==>
              && r.nCalls == Inc32(p.nCalls) && r.sum == p.sum + delta
              && r.hist[BucketIndex(delta)] == Inc32(p.hist[BucketIndex(delta)])
              && (forall j :: 0 <= j < HistSize && j != BucketIndex(delta) ==> r.hist[j] == p.hist[j])
              && r.min <= delta <= r.max
              && r.min <= p.min && (r.min == p.min || r.min == delta)
              && p.max <= r.max && (r.max == p.max || r.max == delta)
    ensures forall j :: 0 <= j < HistSize ==>
              r.hist[j] == if j == BucketOf(delta) then Inc32(p.hist[j]) else p.hist[j]
    ensures CountersFit(p) ==> CountersFit(r)
  {
    if delta >= OneMs then
      p.(hist := p.hist[SlowBucket := Inc32(p.hist[SlowBucket])])
    else
      var i := BucketIndex(delta);
      p.(nCalls := Inc32(p.nCalls),
         sum := p.sum + delta,
         hist := p.hist[i := Inc32(p.hist[i])],
         max := if delta > p.max then delta else p.max,
         min := if delta < p.min then delta else p.min)
  }

  /**
   * `prof::end`: while running, record the time since `begin`. The clock is
   * taken to be monotonic, so `now` is not before `start`.
   */
  function End(p: Prof, now: int): (r: Prof)
    requires |p.hist| == HistSize
    requires p.running ==> p.start <= now
    ensures |r.hist| == HistSize
    ensures !p.running ==> r == p
    ensures p.running ==> r.running && r.start == p.start
    ensures p.running ==> r == Record(p, now - p.start)
    ensures p.running && now - p.start >= OneMs ==>
              && r.nCalls == p.nCalls && r.sum == p.sum && r.min == p.min && r.max == p.max
              && r.hist[SlowBucket] == Inc32(p.hist[SlowBucket])
              && forall j :: 0 <= j < HistSize && j != SlowBucket ==> r.hist[j] == p.hist[j]
    ensures p.running && now - p.start < OneMs ==>
              && r.nCalls == Inc32(p.nCalls) && r.sum == p.sum + (now - p.start)
              && r.hist[BucketIndex(now - p.start)] == Inc32(p.hist[BucketIndex(now - p.start)])
              && (forall j :: 0 <= j < HistSize && j != BucketIndex(now - p.start) ==> r.hist[j] == p.hist[j])
              && r.min <= now - p.start <= r.max
              && r.min <= p.min && (r.min == p.min || r.min == now - p.start)
              && p.max <= r.max && (r.max == p.max || r.max == now - p.start)
    ensures Valid(p) ==> Valid(r)
  {
    if !p.running then p
    else
      RecordPreservesValid(p, now - p.start);
      Record(p, now - p.start)
  }

  /**
   * One more in a `u32` bucket adds one to the bucket sum modulo 2^32,
   * whether or not the bucket wraps.
   */
  lemma CountStep(s: int, h: int)
    requires IsU32(h)
    ensures (s + Inc32(h) - h) % U32_LIMIT == Inc32(s % U32_LIMIT)
  {
  }

  /** Bumping bucket `i` adds one to the timed-bucket sum modulo 2^32 if `i` is timed, and nothing otherwise. */
  lemma BumpCount(h: seq<int>, i: int)
    requires |h| == HistSize && 0 <= i < HistSize && IsU32(h[i])
    ensures HistSum(h[i := Inc32(h[i])], 0, SlowBucket) % U32_LIMIT
            == if i < SlowBucket then Inc32(HistSum(h, 0, SlowBucket) % U32_LIMIT)
               else HistSum(h, 0, SlowBucket) % U32_LIMIT
  {
    var v := Inc32(h[i]);
    var s, s' := HistSum(h, 0, SlowBucket), HistSum(h[i := v], 0, SlowBucket);
    HistSumUpdate(h, 0, SlowBucket, i, v);
    if i < SlowBucket {
      assert s' == s + v - h[i];
      CountStep(s, h[i]);
      assert s' % U32_LIMIT == Inc32(s % U32_LIMIT);
    } else {
      assert s' == s;
    }
  }

  /** Each recorded duration keeps `nCalls` equal to the timed-bucket sum, modulo 2^32. */
  lemma RecordPreservesValid(p: Prof, delta: nat)
    requires |p.hist| == HistSize
    ensures Valid(p) ==> Valid(Record(p, delta))
  {
    if Valid(p) {
      var r := Record(p, delta);
      var i := BucketOf(delta);
      assert r.hist == p.hist[i := Inc32(p.hist[i])];
      BumpCount(p.hist, i);
    }
  }

  // ---------------------------------------------------------------------
  // Traces of measurements
  // ---------------------------------------------------------------------

  /** The state after recording the durations `ds` in order. */
  function RecordAll(p: Prof, ds: seq<nat>): (r: Prof)
    requires |p.hist| == HistSize
    ensures |r.hist| == HistSize
    ensures CountersFit(p) ==> CountersFit(r)
    decreases |ds|
  {
    if |ds| == 0 then p
    else Record(RecordAll(p, ds[..|ds| - 1]), ds[|ds| - 1])
  }

  /** A whole trace keeps `nCalls` equal to the timed-bucket sum, modulo 2^32. */
  lemma {:induction false} RecordAllValid(p: Prof, ds: seq<nat>)
    requires |p.hist| == HistSize
    ensures Valid(p) ==> Valid(RecordAll(p, ds))
    decreases |ds|
  {
    if |ds| > 0 {
      RecordAllValid(p, ds[..|ds| - 1]);
      RecordPreservesValid(RecordAll(p, ds[..|ds| - 1]), ds[|ds| - 1]);
    }
  }

  /** How many of `ds` land in bucket `i`. */
  function CountBucket(ds: seq<nat>, i: int): nat
    decreases |ds|
  {
    if |ds| == 0 then 0
    else CountBucket(ds[..|ds| - 1], i) + (if BucketOf(ds[|ds| - 1]) == i then 1 else 0)
  }

  /** How many of `ds` are below one millisecond. */
  function CountFast(ds: seq<nat>): nat
    decreases |ds|
  {
    if |ds| == 0 then 0 else CountFast(ds[..|ds| - 1]) + (if ds[|ds| - 1] < OneMs then 1 else 0)
  }

  /** The total of the sub-millisecond durations of `ds`. */
  function SumFast(ds: seq<nat>): nat
    decreases |ds|
  {
    if |ds| == 0 then 0 else SumFast(ds[..|ds| - 1]) + (if ds[|ds| - 1] < OneMs then ds[|ds| - 1] else 0)
  }

  /** Modular form of `Inc32` on a counter that already holds `x` modulo 2^32. */
  lemma IncMod(x: int)
    ensures Inc32(x % U32_LIMIT) == (x + 1) % U32_LIMIT
  {
  }

  /** One step of a trace: what `Record` does to bucket `i`, `nCalls` and `sum`. */
  lemma RecordStep(q: Prof, d: nat, i: int)
    requires |q.hist| == HistSize && 0 <= i < HistSize
    ensures Record(q, d).hist[i] == if BucketOf(d) == i then Inc32(q.hist[i]) else q.hist[i]
    ensures Record(q, d).nCalls == if d < OneMs then Inc32(q.nCalls) else q.nCalls
    ensures Record(q, d).sum == if d < OneMs then q.sum + d else q.sum
  {
  }

  /** A `u32` counter holding `x` modulo 2^32, bumped or not, holds the new count modulo 2^32. */
  lemma CounterStep(c: int, x: int, hit: bool)
    requires c == x % U32_LIMIT
    ensures (if hit then Inc32(c) else c) == (x + (if hit then 1 else 0)) % U32_LIMIT
  {
    if hit {
      IncMod(x);
    }
  }

  /** After a trace, each bucket has counted exactly the durations that land in it, modulo 2^32. */
  lemma {:induction false} TraceHist(p: Prof, ds: seq<nat>, i: int)
    requires CountersFit(p) && 0 <= i < HistSize
    ensures RecordAll(p, ds).hist[i] == (p.hist[i] + CountBucket(ds, i)) % U32_LIMIT
    decreases |ds|
  {
    if |ds| == 0 {
      assert ToU32(p.hist[i]) == p.hist[i];
    } else {
      var init, d := ds[..|ds| - 1], ds[|ds| - 1];
      var q := RecordAll(p, init);
      var x := p.hist[i] + CountBucket(init, i);
      var hit := BucketOf(d) == i;
      TraceHist(p, init, i);
      RecordStep(q, d, i);
      CounterStep(q.hist[i], x, hit);
      assert p.hist[i] + CountBucket(ds, i) == x + (if hit then 1 else 0);
    }
  }

  /** After a trace, `nCalls` has counted the sub-millisecond durations (modulo 2^32) and `sum` added them up. */
  lemma TraceCalls(p: Prof, ds: seq<nat>)
    requires CountersFit(p)
    ensures RecordAll(p, ds).nCalls == (p.nCalls + CountFast(ds)) % U32_LIMIT
    ensures RecordAll(p, ds).sum == p.sum + SumFast(ds)
  {
    TraceCount(p, ds);
    TraceSum(p, ds);
  }

  lemma {:induction false} TraceCount(p: Prof, ds: seq<nat>)
    requires CountersFit(p)
    ensures RecordAll(p, ds).nCalls == (p.nCalls + CountFast(ds)) % U32_LIMIT
    decreases |ds|
  {
    if |ds| == 0 {
      assert ToU32(p.nCalls) == p.nCalls;
    } else {
      var init, d := ds[..|ds| - 1], ds[|ds| - 1];
      var q := RecordAll(p, init);
      var x := p.nCalls + CountFast(init);
      TraceCount(p, init);
      RecordStep(q, d, 0);
      CounterStep(q.nCalls, x, d < OneMs);
      assert p.nCalls + CountFast(ds) == x + (if d < OneMs then 1 else 0);
    }
  }

  lemma {:induction false} TraceSum(p: Prof, ds: seq<nat>)
    requires |p.hist| == HistSize
    ensures RecordAll(p, ds).sum == p.sum + SumFast(ds)
    decreases |ds|
  {
    if |ds| > 0 {
      var init, d := ds[..|ds| - 1], ds[|ds| - 1];
      TraceSum(p, init);
      RecordStep(RecordAll(p, init), d, 0);
    }
  }

  /** From `init`, `nCalls` counts a trace's sub-millisecond durations (modulo 2^32) and `sum` adds them up. */
  lemma TraceFromInit(p: Prof, ds: seq<nat>)
    ensures Valid(RecordAll(Init(p), ds))
    ensures RecordAll(Init(p), ds).nCalls == CountFast(ds) % U32_LIMIT
    ensures RecordAll(Init(p), ds).sum == SumFast(ds)
  {
    TraceCalls(Init(p), ds);
    RecordAllValid(Init(p), ds);
  }

  /** From `init`, bucket `i` counts exactly the trace's durations that land in it (modulo 2^32). */
  lemma BucketFromInit(p: Prof, ds: seq<nat>, i: int)
    requires 0 <= i < HistSize
    ensures RecordAll(Init(p), ds).hist[i] == CountBucket(ds, i) % U32_LIMIT
  {
    TraceHist(Init(p), ds, i);
  }

  /** Every sub-millisecond duration of a trace lies between the final `min` and `max`. */
  lemma {:induction false} TraceBounds(p: Prof, ds: seq<nat>)
    requires |p.hist| == HistSize
    ensures var r := RecordAll(p, ds);
            && r.min <= p.min && p.max <= r.max
            && forall k :: 0 <= k < |ds| && ds[k] < OneMs ==> r.min <= ds[k] <= r.max
    decreases |ds|
  {
    if |ds| > 0 {
      var init := ds[..|ds| - 1];
      TraceBounds(p, init);
      var q := RecordAll(p, init);
      assert forall k :: 0 <= k < |init| ==> ds[k] == init[k];
    }
  }

  // ---------------------------------------------------------------------
  // Report bands
  // ---------------------------------------------------------------------

  /**
   * One `makeHistEnt` call of `makeHist`: buckets `begin..end-1`, the first
   * one labelled `tm`, each one `d` wide, in units of `unitNs` nanoseconds.
   */
  datatype Band = Band(begin: nat, end: nat, tm: nat, d: nat, unitNs: nat)

  /** The four bands `makeHist` prints: 100 ns, 1 us, 10 us and 100 us steps. */
  const Bands: seq<Band> := [
    Band(0, 10, 0, 100, 1),
    Band(10, 19, 1, 1, 1_000),
    Band(19, 28, 10, 10, 1_000),
    Band(28, 37, 100, 100, 1_000)
  ]

  /** Band `k` prints bucket `i`. */
  predicate InBand(k: int, i: int)
    requires 0 <= k < |Bands|
  {
    Bands[k].begin <= i < Bands[k].end
  }

  /** The band that prints timed bucket `i`. */
  function BandOf(i: nat): (k: nat)
    requires i <= LastTimedBucket
    ensures k < |Bands| && InBand(k, i)
  {
    if i < 10 then 0 else if i < 19 then 1 else if i < 28 then 2 else 3
  }

  /** The bands cover `hist[0..36]` in order, without gaps or overlap, and leave out `hist[37]`. */
  lemma BandsPartition()
    ensures Bands[0].begin == 0 && Bands[|Bands| - 1].end == SlowBucket
    ensures forall k :: 0 <= k < |Bands| - 1 ==> Bands[k].end == Bands[k + 1].begin
    ensures forall k, i :: 0 <= k < |Bands| && InBand(k, i) ==> 0 <= i <= LastTimedBucket && k == BandOf(i)
  {
  }

  /** The label `tm + (i - begin) d` .. `+ d` printed for bucket `i` is that bucket's documented interval. */
  lemma BandLabels(k: nat, i: nat)
    requires k < |Bands|
    requires Bands[k].begin <= i < Bands[k].end
    ensures (Bands[k].tm + (i - Bands[k].begin) * Bands[k].d) * Bands[k].unitNs == BucketLow(i)
    ensures Bands[k].d * Bands[k].unitNs == BucketWidth(i)
  {
  }

  /**
   * `makeHistEnt`'s band sum: the `u32` total of `hist[begin..end)`, which
   * wraps modulo 2^32.
   */
  method MakeHistEntSum(hist: seq<int>, begin: int, end: int) returns (sum: int)
    requires 0 <= begin && end <= |hist|
    ensures IsU32(sum)
    ensures sum == HistSum(hist, begin, end) % U32_LIMIT
  {
    sum := 0;
    if end <= begin {
      return;
    }
    var i := begin;
    while i < end
      invariant begin <= i <= end
      invariant sum == HistSum(hist, begin, i) % U32_LIMIT
    {
      ModAdd(HistSum(hist, begin, i), hist[i]);
      sum := (sum + hist[i]) % U32_LIMIT;
      i := i + 1;
    }
  }

  lemma ModAdd(x: int, y: int)
    ensures (x % U32_LIMIT + y) % U32_LIMIT == (x + y) % U32_LIMIT
  {
  }

  /** Four consecutive ranges sum to their union. */
  lemma SplitFour(h: seq<int>, a: int, b: int, c: int, d: int, e: int)
    requires 0 <= a <= b <= c <= d <= e <= |h|
    ensures HistSum(h, a, b) + HistSum(h, b, c) + HistSum(h, c, d) + HistSum(h, d, e) == HistSum(h, a, e)
  {
    HistSumSplit(h, a, b, e);
    HistSumSplit(h, b, c, e);
    HistSumSplit(h, c, d, e);
  }

  /** The four bands together sum `hist[0..36]`. */
  lemma BandsSplitSum(h: seq<int>)
    requires |h| == HistSize
    ensures HistSum(h, 0, 10) + HistSum(h, 10, 19) + HistSum(h, 19, 28) + HistSum(h, 28, 37)
            == HistSum(h, 0, SlowBucket)
  {
    SplitFour(h, 0, 10, 19, 28, 37);
  }

  /** Four consecutive ranges whose union sums to `n` modulo 2^32 add up to `n` modulo 2^32. */
  lemma SplitFourMod(h: seq<int>, n: int, a: int, b: int, c: int, d: int, e: int)
    requires 0 <= a <= b <= c <= d <= e <= |h| && n == HistSum(h, a, e) % U32_LIMIT
    ensures (HistSum(h, a, b) + HistSum(h, b, c) + HistSum(h, c, d) + HistSum(h, d, e)) % U32_LIMIT == n
  {
    SplitFour(h, a, b, c, d, e);
  }

  /** The four band sums of a valid profile add up to `nCalls` (modulo 2^32). */
  lemma BandSumsAddUp(p: Prof)
    requires Valid(p)
    ensures (HistSum(p.hist, 0, 10) + HistSum(p.hist, 10, 19) + HistSum(p.hist, 19, 28)
             + HistSum(p.hist, 28, 37)) % U32_LIMIT == p.nCalls
  {
    SplitFourMod(p.hist, p.nCalls, 0, 10, 19, 28, 37);
  }
}
