/**
 Time ranges, steps and buckets of the usage series (`crates/aurix-api/src/analytics.rs`,
 `crates/aurix-common/src/usage.rs`, `crates/aurix-db/src/usage.rs`). Instants are nanoseconds
 since 1970, negative before; widths and steps are seconds.
 */
module Analytics {
  import opened Wrappers

  const SECOND: int := 1_000_000_000
  const APP_BUCKET_SECS: int := 300
  const CHANNEL_BUCKET_SECS: int := 3600
  const DAY_SECS: int := 86_400
  const MAX_RANGE_DAYS: int := 400
  const MAX_POINTS: int := 10_000
  const AUTO_POINTS: int := 5_000

  datatype Range = Range(start: int, end: int)

  datatype QueryError = BadRange | BadStep | TooManyPoints

  /** The second an instant lies in; Dafny's division rounds down here, as the source's does. */
  function Seconds(t: int): int {
    t / SECOND
  }

  /** The seconds the date library can represent: the years -262143 to 262142. */
  predicate Representable(s: int) {
    -8_334_601_228_800 <= s <= 8_210_266_876_799
  }

  predicate IsInstant(t: int) {
    Representable(Seconds(t))
  }

  /** The multiple of the width at or below a number of seconds. */
  function FloorTo(s: int, width: int): (r: int)
    requires width > 0
    ensures r <= s < r + width
  {
    s / width * width
  }

  /** Start of the bucket an instant is counted in; the instant itself if that start is out of range. */
  function BucketStart(t: int, width: int): int
    requires width > 0
  {
    var s := Seconds(t);
    if Representable(s - s % width) then (s - s % width) * SECOND else t
  }

  /** The start widened to a multiple of the width, unless that is out of range. */
  function Aligned(r: Range, width: int): Range
    requires width > 0
  {
    var s := FloorTo(Seconds(r.start), width);
    Range(if Representable(s) then s * SECOND else r.start, r.end)
  }

  // ---- arithmetic --------------------------------------------------------------------------------------

  lemma MulLess(a: int, b: int, w: int)
    requires w > 0 && a * w < b * w
    ensures a < b
  {
  }

  lemma MulMonotone(a: int, b: int, w: int)
    requires w > 0 && a <= b
    ensures a * w <= b * w
  {
  }

  /** Between two neighbouring multiples there is only one quotient. */
  lemma QuotientIsUnique(a: int, w: int, q: int)
    requires w > 0 && q * w <= a < q * w + w
    ensures a / w == q && FloorTo(a, w) == q * w
  {
    var p := a / w;
    assert p * w <= a < p * w + w;
    assert (p + 1) * w == p * w + w && (q + 1) * w == q * w + w;
    MulLess(p, q + 1, w);
    MulLess(q, p + 1, w);
  }

  /** A multiple at or below a number is at or below its floor. */
  lemma MultipleBelow(m: int, s: int, w: int)
    requires w > 0 && m * w <= s
    ensures m <= s / w && m * w <= FloorTo(s, w)
  {
    var p := s / w;
    assert (p + 1) * w == p * w + w;
    MulLess(m, p + 1, w);
    MulMonotone(m, p, w);
  }

  lemma FloorIsMonotone(a: int, b: int, width: int)
    requires width > 0 && a <= b
    ensures FloorTo(a, width) <= FloorTo(b, width)
  {
    MultipleBelow(a / width, b, width);
  }

  /** A floor to a coarser width is reached through any finer one. */
  lemma FloorOfFloor(s: int, width: int, k: int)
    requires width > 0 && k > 0
    ensures width * k > 0 && FloorTo(FloorTo(s, width), width * k) == FloorTo(s, width * k) <= FloorTo(s, width)
  {
    var step := width * k;
    assert step > 0;
    var q := s / step;
    MulSwap(q, k, width);
    MultipleBelow(q * k, s, width);
    QuotientIsUnique(FloorTo(s, width), step, q);
  }

  lemma MulSwap(q: int, k: int, w: int)
    ensures q * (w * k) == q * k * w
  {
  }

  /** The remainder form of the floor, as buckets are computed. */
  lemma RemainderIsFloor(s: int, width: int)
    requires width > 0
    ensures s - s % width == FloorTo(s, width)
  {
  }

  // ---- coverage ----------------------------------------------------------------------------------------

  /** Every instant of the range is counted in a stored bucket that the widened range admits. */
  ghost predicate Covered(r: Range, width: int, step: int)
    requires width > 0 && step > 0
  {
    forall t :: r.start <= t < r.end ==> Aligned(r, step).start <= BucketStart(t, width) < r.end
  }

  lemma BucketBounds(t: int, width: int)
    requires width > 0
    ensures FloorTo(Seconds(t), width) * SECOND <= BucketStart(t, width) <= t
  {
    RemainderIsFloor(Seconds(t), width);
  }

  /** An instant whose bucket lies before the start shares it with the start. */
  lemma OnlyFirstBucketIsLost(r: Range, width: int, t: int)
    requires width > 0 && IsInstant(r.start) && r.start <= t && BucketStart(t, width) < r.start
    ensures BucketStart(r.start, width) < r.start
  {
    var s, u := Seconds(r.start), Seconds(t);
    RemainderIsFloor(s, width);
    RemainderIsFloor(u, width);
    FloorIsMonotone(s, u, width);
    assert FloorTo(u, width) * SECOND < r.start;
    assert FloorTo(u, width) <= s;
    MultipleBelow(u / width, s, width);
    assert FloorTo(u, width) == FloorTo(s, width);
  }

  /**
   Exactly when every instant of a range is covered by buckets of some width, for a step of so
   many widths: the start could be widened, or already is the start of its bucket.
   */
  lemma CoveredExactlyWhen(r: Range, width: int, k: int)
    requires width > 0 && k > 0 && r.start < r.end && IsInstant(r.start)
    ensures width * k > 0
    ensures Covered(r, width, width * k) <==>
      Representable(FloorTo(Seconds(r.start), width * k)) || BucketStart(r.start, width) == r.start
  {
    FloorOfFloor(Seconds(r.start), width, k);
    BucketBounds(r.start, width);
    if Representable(FloorTo(Seconds(r.start), width * k)) {
      forall t | r.start <= t < r.end
        ensures Aligned(r, width * k).start <= BucketStart(t, width) < r.end
      {
        BucketBounds(t, width);
        FloorIsMonotone(Seconds(r.start), Seconds(t), width);
      }
    } else if BucketStart(r.start, width) == r.start {
      forall t | r.start <= t < r.end
        ensures Aligned(r, width * k).start <= BucketStart(t, width) < r.end
      {
        BucketBounds(t, width);
        if BucketStart(t, width) < r.start {
          OnlyFirstBucketIsLost(r, width, t);
        }
      }
    }
  }

  /** From the year 0 on, where textual instants begin, no step of up to 262 thousand years fails. */
  lemma OrdinaryStepsCover(r: Range, width: int, k: int)
    requires width > 0 && k > 0 && width * k <= 8_272_434_009_600
    requires -62_167_219_200 <= Seconds(r.start) && IsInstant(r.start) && r.start < r.end
    ensures Covered(r, width, width * k)
  {
    CoveredExactlyWhen(r, width, k);
  }

  /** A step of 285 thousand years is accepted for an hour around 1970, and loses the hour's first instant. */
  lemma HugeStepLosesFirstBucket()
    ensures var r, step := Range(-SECOND, 3600 * SECOND), 9_000_000_000_000;
      && step >= APP_BUCKET_SECS && step % APP_BUCKET_SECS == 0 && Span(r) / step <= MAX_POINTS
      && Aligned(r, step).start == r.start
      && BucketStart(r.start, APP_BUCKET_SECS) < Aligned(r, step).start
      && !Covered(r, APP_BUCKET_SECS, step)
  {
    var r, step := Range(-SECOND, 3600 * SECOND), 9_000_000_000_000;
    assert Seconds(r.start) == -1;
    QuotientIsUnique(-1, step, -1);
    QuotientIsUnique(-1, APP_BUCKET_SECS, -1);
    RemainderIsFloor(-1, APP_BUCKET_SECS);
    assert BucketStart(r.start, APP_BUCKET_SECS) == -300 * SECOND;
  }

  /** The widening is the least possible: the first bucket still reaches into the range. */
  lemma WideningIsLeast(r: Range, width: int)
    requires width > 0
    ensures Aligned(r, width).start <= r.start < Aligned(r, width).start + width * SECOND
  {
  }

  // ---- counting ----------------------------------------------------------------------------------------

  function CeilDiv(a: int, w: int): (c: int)
    requires w > 0
    ensures (c - 1) * w < a <= c * w
  {
    var q := -a / w;
    assert q * w <= -a < q * w + w;
    assert (-q - 1) * w == -(q * w) - w;
    -q
  }

  /** The first bucket of a widened range, counted from 1970 in buckets. */
  function FirstBucket(r: Range, step: int): int
    requires step > 0
  {
    Seconds(r.start) / step
  }

  /** The points of a series: buckets of the step, from the first one to the end of the range. */
  function BucketCount(r: Range, step: int): int
    requires step > 0
  {
    CeilDiv(r.end, step * SECOND) - FirstBucket(r, step)
  }

  /** Whole seconds between the ends. */
  function Span(r: Range): int {
    (r.end - r.start) / SECOND
  }

  /** There are as many buckets as steps in the range, or one or two more. */
  lemma CountFollowsSpan(r: Range, width: int)
    requires width > 0 && r.start < r.end
    ensures Span(r) / width <= BucketCount(r, width) <= Span(r) / width + 2
  {
    var w, n, k := width * SECOND, Span(r) / width, FirstBucket(r, width);
    var c := CeilDiv(r.end, w);
    StartBounds(r, width);
    SpanBounds(r, width);
    assert (c - k) * w == c * w - k * w;
    assert (c - k - 2) * w == (c - 1) * w - k * w - w;
    MulLess(c - k - 2, n + 1, w);
    assert n * w <= (c - k) * w;
    assert (c - k + 1) * w == (c - k) * w + w;
    MulLess(n, c - k + 1, w);
  }

  lemma StartBounds(r: Range, step: int)
    requires step > 0
    ensures var w, k := step * SECOND, FirstBucket(r, step);
      k * w <= r.start < k * w + w
  {
    var k := FirstBucket(r, step);
    assert k * step <= Seconds(r.start) < k * step + step;
    assert k * (step * SECOND) == k * step * SECOND;
  }

  lemma SpanBounds(r: Range, width: int)
    requires width > 0 && r.start < r.end
    ensures var w, n := width * SECOND, Span(r) / width;
      n * w <= r.end - r.start < (n + 1) * w
  {
    var n := Span(r) / width;
    assert n * width <= Span(r) < n * width + width;
    assert n * (width * SECOND) == n * width * SECOND;
    assert (n + 1) * (width * SECOND) == (n * width + width) * SECOND;
  }

  // ---- ranges and steps ----------------------------------------------------------------------------------

  /** The bounds of a query: `end` defaults to now, `start` to some days before the end. */
  function ParseRange(start: Option<int>, end: Option<int>, now: int, defaultDays: int): (q: Result<Range, QueryError>)
    ensures q.Ok? ==> 0 < q.value.end - q.value.start <= MAX_RANGE_DAYS * DAY_SECS * SECOND
    ensures start.Some? && end.Some? && 0 < end.value - start.value <= MAX_RANGE_DAYS * DAY_SECS * SECOND ==>
      q == Ok(Range(start.value, end.value))
    ensures start.None? && 0 < defaultDays <= MAX_RANGE_DAYS ==>
      q.Ok? && q.value.end - q.value.start == defaultDays * DAY_SECS * SECOND
    ensures end.None? && q.Ok? ==> q.value.end == now
  {
    var to := if end.Some? then end.value else now;
    var from := if start.Some? then start.value else to - defaultDays * DAY_SECS * SECOND;
    if to <= from || to - from > MAX_RANGE_DAYS * DAY_SECS * SECOND then Err(BadRange) else Ok(Range(from, to))
  }

  /** The chosen step, or the finest of three that gives few enough points. */
  method ResolveStep(step: Option<int>, r: Range) returns (s: Result<int, QueryError>)
    requires 0 < r.end - r.start <= MAX_RANGE_DAYS * DAY_SECS * SECOND
    ensures step.Some? ==>
      (s.Ok? <==>
        step.value >= APP_BUCKET_SECS && step.value % APP_BUCKET_SECS == 0 && Span(r) / step.value <= MAX_POINTS)
    ensures step.Some? && s.Ok? ==> s.value == step.value && BucketCount(r, s.value) <= MAX_POINTS + 2
    ensures step.None? ==> s.Ok? && IsAutoStep(s.value, r) && BucketCount(r, s.value) <= AUTO_POINTS + 2
  {
    var span := Span(r);
    match step {
      case Some(step) =>
        if step < APP_BUCKET_SECS || step % APP_BUCKET_SECS != 0 {
          return Err(BadStep);
        }
        if span / step > MAX_POINTS {
          return Err(TooManyPoints);
        }
        CountFollowsSpan(r, step);
        return Ok(step);
      case None =>
        var steps := [APP_BUCKET_SECS, CHANNEL_BUCKET_SECS, DAY_SECS];
        var i := 0;
        while i < |steps| && span / steps[i] > AUTO_POINTS
          invariant i <= |steps|
          invariant i >= 1 ==> span / steps[0] > AUTO_POINTS
          invariant i >= 2 ==> span / steps[1] > AUTO_POINTS
          invariant i >= 3 ==> span / steps[2] > AUTO_POINTS
        {
          i := i + 1;
        }
        s := Ok(if i < |steps| then steps[i] else DAY_SECS);
        CountFollowsSpan(r, s.value);
    }
  }

  /** One of the three steps, few enough points, and no finer one has few enough. */
  predicate IsAutoStep(step: int, r: Range) {
    || (step == APP_BUCKET_SECS && Span(r) / APP_BUCKET_SECS <= AUTO_POINTS)
    || (step == CHANNEL_BUCKET_SECS
        && Span(r) / APP_BUCKET_SECS > AUTO_POINTS && Span(r) / CHANNEL_BUCKET_SECS <= AUTO_POINTS)
    || (step == DAY_SECS && Span(r) / CHANNEL_BUCKET_SECS > AUTO_POINTS && Span(r) / DAY_SECS <= AUTO_POINTS)
  }

  // ---- series ------------------------------------------------------------------------------------------

  /** Stored buckets are rolled up to a step by rounding their start down. */
  function RolledUp(bucket: int, step: int): int
    requires step > 0
  {
    FloorTo(Seconds(bucket), step) * SECOND
  }

  /** Counting into stored buckets and rolling those up is counting into the coarser buckets at once. */
  lemma RollUpIsBucket(t: int, width: int, k: int)
    requires width > 0 && k > 0
    ensures width * k > 0
    ensures RolledUp(BucketStart(t, width), width * k) == FloorTo(Seconds(t), width * k) * SECOND
  {
    FloorOfFloor(Seconds(t), width, k);
    RemainderIsFloor(Seconds(t), width);
  }

  /** A point of the series: some stored bucket in the widened range is rolled up to it. */
  ghost predicate IsPoint(r: Range, width: int, step: int, m: int)
    requires width > 0 && step > 0
  {
    exists t :: IsInstant(t) && Aligned(r, step).start <= BucketStart(t, width) < r.end && Seconds(t) / step == m
  }

  /**
   The points are the counted buckets of the step, all of them when the start could be widened,
   and otherwise all but perhaps the first.
   */
  lemma PointsAreCounted(r: Range, width: int, k: int, m: int)
    requires width > 0 && k > 0 && IsInstant(r.start) && IsInstant(r.end)
    ensures width * k > 0
    ensures var step := width * k;
      var counted := FirstBucket(r, step) <= m < FirstBucket(r, step) + BucketCount(r, step);
      && (IsPoint(r, width, step, m) ==> counted)
      && (counted && (Representable(FloorTo(Seconds(r.start), step)) || m > FirstBucket(r, step)) ==>
        IsPoint(r, width, step, m))
  {
    var step := width * k;
    assert step > 0;
    if IsPoint(r, width, step, m) {
      var t :| IsInstant(t) && Aligned(r, step).start <= BucketStart(t, width) < r.end && Seconds(t) / step == m;
      PointIsCounted(r, width, k, t);
    }
    if FirstBucket(r, step) <= m < FirstBucket(r, step) + BucketCount(r, step) {
      if Representable(FloorTo(Seconds(r.start), step)) || m > FirstBucket(r, step) {
        CountedIsPoint(r, width, k, m);
      }
    }
  }

  lemma PointIsCounted(r: Range, width: int, k: int, t: int)
    requires width > 0 && k > 0 && width * k > 0
    requires Aligned(r, width * k).start <= BucketStart(t, width) < r.end
    ensures var step := width * k;
      FirstBucket(r, step) <= Seconds(t) / step < FirstBucket(r, step) + BucketCount(r, step)
  {
    var step, b := width * k, BucketStart(t, width);
    var m, first := Seconds(t) / step, FirstBucket(r, step);
    RollUpIsBucket(t, width, k);
    assert FloorTo(Seconds(b), step) == m * step;
    BeforeEnd(r, step, m, b);
    assert first * step <= Seconds(b);
    MultipleBelow(first, Seconds(b), step);
    QuotientIsUnique(Seconds(b), step, m);
  }

  lemma BeforeEnd(r: Range, step: int, m: int, b: int)
    requires step > 0 && m * step <= Seconds(b) && b < r.end
    ensures m < FirstBucket(r, step) + BucketCount(r, step)
  {
    InNanoseconds(m, step);
    MulLess(m, CeilDiv(r.end, step * SECOND), step * SECOND);
  }

  /** A multiple of the step is where its own stored bucket starts. */
  lemma StepIsBucketStart(width: int, k: int, m: int)
    requires width > 0 && k > 0 && width * k > 0 && Representable(m * (width * k))
    ensures var u := m * (width * k);
      BucketStart(u * SECOND, width) == u * SECOND && Seconds(u * SECOND) == u && u / (width * k) == m
  {
    var u := m * (width * k);
    MulSwap(m, k, width);
    QuotientIsUnique(u, width, m * k);
    QuotientIsUnique(u, width * k, m);
    RemainderIsFloor(u, width);
  }

  lemma InNanoseconds(m: int, step: int)
    ensures m * step * SECOND == m * (step * SECOND)
  {
  }

  lemma CountedEnd(r: Range, step: int, m: int)
    requires step > 0 && m < FirstBucket(r, step) + BucketCount(r, step)
    ensures m * step * SECOND < r.end
  {
    InNanoseconds(m, step);
    MulMonotone(m, CeilDiv(r.end, step * SECOND) - 1, step * SECOND);
  }

  lemma CountedStart(r: Range, step: int, m: int)
    requires step > 0 && FirstBucket(r, step) <= m
    requires Representable(FloorTo(Seconds(r.start), step)) || m > FirstBucket(r, step)
    ensures Aligned(r, step).start <= m * step * SECOND
  {
    var first := FirstBucket(r, step);
    if m > first {
      assert (first + 1) * step == first * step + step;
      MulMonotone(first + 1, m, step);
      WideningIsLeast(r, step);
      assert Seconds(r.start) < first * step + step;
    } else {
      assert m * step == FloorTo(Seconds(r.start), step);
    }
  }

  /** The counted buckets start between the widened start and the end. */
  lemma CountedBounds(r: Range, step: int, m: int)
    requires step > 0 && FirstBucket(r, step) <= m < FirstBucket(r, step) + BucketCount(r, step)
    requires Representable(FloorTo(Seconds(r.start), step)) || m > FirstBucket(r, step)
    ensures Aligned(r, step).start <= m * step * SECOND < r.end
  {
    CountedStart(r, step, m);
    CountedEnd(r, step, m);
  }

  lemma CountedIsPoint(r: Range, width: int, k: int, m: int)
    requires width > 0 && k > 0 && width * k > 0 && IsInstant(r.start) && IsInstant(r.end)
    requires FirstBucket(r, width * k) <= m < FirstBucket(r, width * k) + BucketCount(r, width * k)
    requires Representable(FloorTo(Seconds(r.start), width * k)) || m > FirstBucket(r, width * k)
    ensures IsPoint(r, width, width * k, m)
  {
    var u := m * (width * k);
    CountedBounds(r, width * k, m);
    assert Representable(u);
    StepIsBucketStart(width, k, m);
    assert IsInstant(u * SECOND);
  }

  /** The points a series query returns: at most `MAX_POINTS`, the oldest first. */
  function Returned(r: Range, step: int): int
    requires step > 0
  {
    if BucketCount(r, step) < MAX_POINTS then BucketCount(r, step) else MAX_POINTS
  }

  /** The check on the step lets ranges through whose last two points are then cut off. */
  lemma AcceptedStepCanLosePoints()
    ensures var r := Range(299 * SECOND, 3_000_598 * SECOND);
      Span(r) / APP_BUCKET_SECS <= MAX_POINTS && BucketCount(r, APP_BUCKET_SECS) == Returned(r, APP_BUCKET_SECS) + 2
  {
    var r := Range(299 * SECOND, 3_000_598 * SECOND);
    assert FirstBucket(r, APP_BUCKET_SECS) == 0;
    var c := CeilDiv(r.end, APP_BUCKET_SECS * SECOND);
    assert c == 10_002;
  }

  /** No point is cut off exactly when the range ends few enough steps after the bucket it starts in. */
  lemma NothingIsLostExactlyWhen(r: Range, step: int)
    requires step > 0
    ensures BucketCount(r, step) == Returned(r, step) <==>
      r.end <= (FirstBucket(r, step) + MAX_POINTS) * (step * SECOND)
  {
    var w, k, c := step * SECOND, FirstBucket(r, step), CeilDiv(r.end, step * SECOND);
    if c <= k + MAX_POINTS {
      MulMonotone(c, k + MAX_POINTS, w);
    }
    if r.end <= (k + MAX_POINTS) * w {
      MulLess(c - 1, k + MAX_POINTS, w);
    }
  }
}
