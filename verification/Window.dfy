/** Sliding-window arithmetic (`window.rs`): what a window total sees, and how long until a rejected
    request would be admitted. */
module Windows {
  import opened Base

  /** `(now / bucket_millis) as u32`. */
  function Epoch(now: nat, bm: nat): nat
    requires bm > 0
  {
    (now / bm) % (U32_MAX + 1)
  }

  ghost function SumRange(c: nat -> nat, lo: nat, hi: nat): nat
    decreases hi
  {
    if lo >= hi then 0 else SumRange(c, lo, hi - 1) + c(hi - 1)
  }

  lemma SumLast(c: nat -> nat, lo: nat, hi: nat)
    requires lo <= hi
    ensures SumRange(c, lo, hi + 1) == SumRange(c, lo, hi) + c(hi)
  {
  }

  lemma {:induction false} SumSplits(c: nat -> nat, lo: nat, mid: nat, hi: nat)
    requires lo <= mid <= hi
    ensures SumRange(c, lo, hi) == SumRange(c, lo, mid) + SumRange(c, mid, hi)
    decreases hi
  {
    if mid < hi {
      SumSplits(c, lo, mid, hi - 1);
    }
  }

  lemma {:induction false} SumOfNothing(c: nat -> nat, lo: nat, hi: nat)
    requires forall b: nat :: lo <= b < hi ==> c(b) == 0
    ensures SumRange(c, lo, hi) == 0
    decreases hi
  {
    if lo < hi {
      SumOfNothing(c, lo, hi - 1);
    }
  }

  lemma {:induction false} SumAtMost(c: nat -> nat, d: nat -> nat, lo: nat, hi: nat)
    requires forall b: nat :: lo <= b < hi ==> c(b) <= d(b)
    ensures SumRange(c, lo, hi) <= SumRange(d, lo, hi)
    decreases hi
  {
    if lo < hi {
      SumAtMost(c, d, lo, hi - 1);
    }
  }

  lemma SumSame(c: nat -> nat, d: nat -> nat, lo: nat, hi: nat)
    requires forall b: nat :: lo <= b < hi ==> c(b) == d(b)
    ensures SumRange(c, lo, hi) == SumRange(d, lo, hi)
  {
    SumAtMost(c, d, lo, hi);
    SumAtMost(d, c, lo, hi);
  }

  /** The oldest bucket a window read in epoch `cur` counts. */
  function Oldest(cur: nat, live: nat): nat {
    SatSub(cur + 1, live)
  }

  /** The last `live` buckets up to the current one. */
  ghost function WindowSum(c: nat -> nat, cur: nat, live: nat): nat {
    SumRange(c, Oldest(cur, live), cur + 1)
  }

  /** What `window_total` returns. */
  ghost function Visible(c: nat -> nat, t: nat, bm: nat, live: nat): nat
    requires bm > 0
  {
    Min(WindowSum(c, Epoch(t, bm), live), U64_MAX)
  }

  /** The admission test at time `t`. */
  ghost predicate Admits(c: nat -> nat, t: nat, bm: nat, live: nat, limit: nat, hits: nat)
    requires bm > 0
  {
    SatAdd(Visible(c, t, bm, live), hits, U64_MAX) <= limit
  }

  function Need(total: nat, hits: nat, limit: nat): nat {
    SatSub(SatAdd(total, hits, U64_MAX), limit)
  }

  /** The first bucket from `b` on with which the aged-off sum reaches `need`; the current one if none. */
  ghost function FallOff(c: nat -> nat, oldest: nat, b: nat, cur: nat, need: nat): nat
    decreases cur - b
  {
    if b >= cur || SumRange(c, oldest, b + 1) >= need then b else FallOff(c, oldest, b + 1, cur, need)
  }

  /** Milliseconds until bucket `b` leaves the window. */
  function Delay(b: nat, live: nat, bm: nat, now: nat): nat {
    SatSub(SatMul(b + live, bm, U64_MAX), now)
  }

  ghost function AdmitDelay(c: nat -> nat, now: nat, bm: nat, live: nat, limit: nat, total: nat, hits: nat): nat
    requires bm > 0
  {
    var cur, need := Epoch(now, bm), Need(total, hits, limit);
    if need == 0 then 0 else Delay(FallOff(c, Oldest(cur, live), Oldest(cur, live), cur, need), live, bm, now)
  }

  /** `time_until_admit_millis`. A zero bucket width or window counts as one. */
  method TimeUntilAdmitMillis(now: nat, bucketMillis: nat, liveBuckets: nat, limit: nat, total: nat, hits: nat,
                              countFor: nat -> nat)
    returns (delay: nat)
    ensures delay == AdmitDelay(countFor, now, Max(bucketMillis, 1), Max(liveBuckets, 1), limit, total, hits)
  {
    var bm: nat, live: nat := Max(bucketMillis, 1), Max(liveBuckets, 1);
    var need := Need(total, hits, limit);
    if need == 0 {
      return 0;
    }
    var current := Epoch(now, bm);
    var oldest := SatSub(current, live - 1);
    var agedOff: nat, bucket: nat := 0, oldest;
    while true
      invariant oldest <= bucket <= current
      invariant agedOff == Min(SumRange(countFor, oldest, bucket), U64_MAX)
      invariant FallOff(countFor, oldest, oldest, current, need) == FallOff(countFor, oldest, bucket, current, need)
      decreases current - bucket
    {
      agedOff := SatAdd(agedOff, countFor(bucket), U64_MAX);
      if agedOff >= need {
        return SatSub(SatMul(bucket + live, bm, U64_MAX), now);
      }
      if bucket == current {
        break;
      }
      bucket := bucket + 1;
    }
    return SatSub(SatMul(current + live, bm, U64_MAX), now);
  }

  lemma {:induction false} FallOffIsFirst(c: nat -> nat, oldest: nat, b: nat, cur: nat, need: nat)
    requires oldest <= b <= cur && (b > oldest ==> SumRange(c, oldest, b) < need)
    ensures
      var f := FallOff(c, oldest, b, cur, need);
      && b <= f <= cur
      && (f > oldest ==> SumRange(c, oldest, f) < need)
      && (SumRange(c, oldest, cur + 1) >= need ==> SumRange(c, oldest, f + 1) >= need)
    decreases cur - b
  {
    if b < cur && SumRange(c, oldest, b + 1) < need {
      FallOffIsFirst(c, oldest, b + 1, cur, need);
    }
  }

  /** The clock the arithmetic is written for: epochs within 32 bits and times within 64. */
  predicate Clocked(now: nat, bm: nat, live: nat) {
    && bm > 0 && live > 0
    && now / bm + live <= U32_MAX && (now / bm + live) * bm <= U64_MAX
  }

  /** Hits recorded so far, none of them later than the current bucket. */
  ghost predicate Past(c: nat -> nat, cur: nat) {
    forall b: nat :: b > cur ==> c(b) == 0
  }

  /** From now on exactly the times from `now + delay` on are admitted. */
  ghost predicate ExactFor(c: nat -> nat, now: nat, bm: nat, live: nat, limit: nat, hits: nat, delay: nat)
    requires bm > 0
  {
    forall t: nat :: now <= t && t / bm <= U32_MAX ==> (Admits(c, t, bm, live, limit, hits) <==> t >= now + delay)
  }

  lemma EpochFits(t: nat, bm: nat)
    requires bm > 0 && t / bm <= U32_MAX
    ensures Epoch(t, bm) == t / bm
  {
  }

  /** A time reaches an epoch exactly when it reaches the epoch's first millisecond. */
  lemma ReachesEpoch(t: nat, e: nat, bm: nat)
    requires bm > 0
    ensures t / bm >= e <==> t >= e * bm
  {
    assert t == (t / bm) * bm + t % bm;
    if t / bm >= e {
      MulMonotone(e, t / bm, bm);
    } else {
      MulMonotone(t / bm + 1, e, bm);
      MulStep(t / bm, bm);
    }
  }

  lemma DivMonotone(a: nat, b: nat, m: nat)
    requires m > 0 && a <= b
    ensures a / m <= b / m
  {
    ReachesEpoch(a, a / m, m);
    ReachesEpoch(b, a / m, m);
  }

  /** What is left in the window in epoch `e`, and what has aged out of it, make up the total. */
  lemma WindowShrinks(c: nat -> nat, cur: nat, e: nat, live: nat)
    requires Past(c, cur) && cur <= e && live > 0
    ensures
      var gone := Min(Oldest(e, live), cur + 1);
      gone >= Oldest(cur, live)
      && WindowSum(c, cur, live) == SumRange(c, Oldest(cur, live), gone) + WindowSum(c, e, live)
  {
    var gone := Min(Oldest(e, live), cur + 1);
    SumSplits(c, Oldest(cur, live), gone, cur + 1);
    if Oldest(e, live) <= cur + 1 {
      SumSplits(c, Oldest(e, live), cur + 1, e + 1);
      SumOfNothing(c, cur + 1, e + 1);
    } else {
      SumOfNothing(c, Oldest(e, live), e + 1);
    }
  }

  /** The first bucket to fall off that makes room decides: epoch `e` admits exactly when it is past. */
  lemma AdmitsFromFallOff(c: nat -> nat, cur: nat, e: nat, live: nat, limit: nat, hits: nat)
    requires Past(c, cur) && cur <= e && live > 0 && hits <= limit
    requires WindowSum(c, cur, live) + hits > limit
    ensures
      var need := WindowSum(c, cur, live) + hits - limit;
      var oldest := Oldest(cur, live);
      WindowSum(c, e, live) + hits <= limit <==> e >= FallOff(c, oldest, oldest, cur, need) + live
  {
    var need := WindowSum(c, cur, live) + hits - limit;
    var oldest := Oldest(cur, live);
    var f := FallOff(c, oldest, oldest, cur, need);
    FallOffIsFirst(c, oldest, oldest, cur, need);
    WindowShrinks(c, cur, e, live);
    var gone: nat := Min(Oldest(e, live), cur + 1);
    if gone >= f + 1 {
      SumSplits(c, oldest, f + 1, gone);
    } else {
      SumSplits(c, oldest, gone, f);
    }
  }

  /** Exact retry time: with the true window total and no later hits the returned delay is the least
      wait that admits the request, and the request stays admitted from then on. */
  lemma RetryExact(c: nat -> nat, now: nat, bm: nat, live: nat, limit: nat, total: nat, hits: nat)
    requires Clocked(now, bm, live) && Past(c, Epoch(now, bm)) && total == WindowSum(c, Epoch(now, bm), live)
    requires hits <= limit <= U64_MAX && (total + hits <= U64_MAX || limit == U64_MAX)
    ensures ExactFor(c, now, bm, live, limit, hits, AdmitDelay(c, now, bm, live, limit, total, hits))
  {
    hide SumRange, FallOff;
    var cur, delay := now / bm, AdmitDelay(c, now, bm, live, limit, total, hits);
    EpochFits(now, bm);
    forall t: nat | now <= t && t / bm <= U32_MAX
      ensures Admits(c, t, bm, live, limit, hits) <==> t >= now + delay
    {
      EpochFits(t, bm);
      DivMonotone(now, t, bm);
      WindowShrinks(c, cur, t / bm, live);
      if total + hits > limit && limit < U64_MAX {
        RetryAt(c, now, t, bm, live, limit, hits);
      }
    }
  }

  lemma RetryAt(c: nat -> nat, now: nat, t: nat, bm: nat, live: nat, limit: nat, hits: nat)
    requires Clocked(now, bm, live) && Past(c, now / bm) && now <= t && now / bm <= t / bm
    requires hits <= limit && WindowSum(c, now / bm, live) + hits > limit
    ensures
      var need, oldest := WindowSum(c, now / bm, live) + hits - limit, Oldest(now / bm, live);
      var f := FallOff(c, oldest, oldest, now / bm, need);
      WindowSum(c, t / bm, live) + hits <= limit <==> t >= now + Delay(f, live, bm, now)
  {
    var cur, oldest := now / bm, Oldest(now / bm, live);
    var need := WindowSum(c, cur, live) + hits - limit;
    var f := FallOff(c, oldest, oldest, cur, need);
    AdmitsFromFallOff(c, cur, t / bm, live, limit, hits);
    FallOffIsFirst(c, oldest, oldest, cur, need);
    MulMonotone(f + live, cur + live, bm);
    ReachesEpoch(t, f + live, bm);
    ReachesEpoch(now, f + live, bm);
  }

  /** A breakdown of the total over the buckets of the window. */
  ghost predicate Breakdown(c: nat -> nat, cur: nat, live: nat, total: nat) {
    Past(c, cur) && total == WindowSum(c, cur, live)
  }

  /** A window of one bucket empties at once, so saturation does no harm. */
  lemma SingleBucketExact(c: nat -> nat, now: nat, bm: nat, live: nat, limit: nat, total: nat, hits: nat)
    requires Clocked(now, bm, live) && Breakdown(c, now / bm, live, total)
    requires hits <= limit < U64_MAX < total + hits && total <= U64_MAX && (live == 1 || now / bm == 0)
    ensures ExactFor(c, now, bm, live, limit, hits, AdmitDelay(c, now, bm, live, limit, total, hits))
  {
    hide SumRange, FallOff;
    var cur, delay := now / bm, AdmitDelay(c, now, bm, live, limit, total, hits);
    EpochFits(now, bm);
    FallOffIsFirst(c, cur, cur, cur, Need(total, hits, limit));
    ReachesEpoch(now, cur + live, bm);
    assert now + delay == (cur + live) * bm;
    forall t: nat | now <= t && t / bm <= U32_MAX
      ensures Admits(c, t, bm, live, limit, hits) <==> t >= now + delay
    {
      EpochFits(t, bm);
      DivMonotone(now, t, bm);
      ReachesEpoch(t, cur + live, bm);
      WindowShrinks(c, cur, t / bm, live);
      SumOfNothing(c, cur, cur);
    }
  }

  /** The breakdown that misleads a saturated request: just enough for the saturated shortfall in the
      oldest bucket, the rest in the current one. */
  function Misleading(oldest: nat, cur: nat, first: nat, rest: nat): nat -> nat {
    (b: nat) => if b == oldest then first else if b == cur then rest else 0
  }

  lemma MisleadingSums(oldest: nat, cur: nat, first: nat, rest: nat)
    requires oldest < cur
    ensures
      var c := Misleading(oldest, cur, first, rest);
      && SumRange(c, oldest, oldest + 1) == first && SumRange(c, oldest, cur + 1) == first + rest
  {
    var c := Misleading(oldest, cur, first, rest);
    SumOfNothing(c, oldest + 1, cur);
    SumSplits(c, oldest, oldest + 1, cur);
  }

  lemma SaturatedRetryTooEarly(now: nat, bm: nat, live: nat, limit: nat, total: nat, hits: nat)
    requires Clocked(now, bm, live) && total <= U64_MAX && hits <= limit < U64_MAX < total + hits && live >= 2
    requires now / bm >= 1
    ensures
      var oldest := Oldest(now / bm, live);
      var c := Misleading(oldest, now / bm, U64_MAX - limit, total - (U64_MAX - limit));
      && Breakdown(c, now / bm, live, total)
      && !ExactFor(c, now, bm, live, limit, hits, AdmitDelay(c, now, bm, live, limit, total, hits))
  {
    var cur, oldest := now / bm, Oldest(now / bm, live);
    var c := Misleading(oldest, cur, U64_MAX - limit, total - (U64_MAX - limit));
    MisleadingSums(oldest, cur, U64_MAX - limit, total - (U64_MAX - limit));
    EpochFits(now, bm);
    var t := (oldest + live) * bm;
    MulMonotone(oldest + live, cur + live, bm);
    ReachesEpoch(now, oldest + live, bm);
    ReachesEpoch(t, oldest + live, bm);
    ReachesEpoch(t, oldest + live + 1, bm);
    MulStep(oldest + live, bm);
    EpochFits(t, bm);
    WindowShrinks(c, cur, t / bm, live);
    assert !Admits(c, t, bm, live, limit, hits);
    assert t == now + AdmitDelay(c, now, bm, live, limit, total, hits);
  }

  /** The delay is exact for every breakdown of the total precisely when `total + hits` fits in 64 bits,
      or nothing is ever over the limit, or the window has a single bucket. */
  lemma RetryExactIff(now: nat, bm: nat, live: nat, limit: nat, total: nat, hits: nat)
    requires Clocked(now, bm, live) && hits <= limit <= U64_MAX && total <= U64_MAX
    ensures (forall c: nat -> nat :: Breakdown(c, now / bm, live, total) ==>
               ExactFor(c, now, bm, live, limit, hits, AdmitDelay(c, now, bm, live, limit, total, hits)))
            <==> total + hits <= U64_MAX || limit == U64_MAX || live == 1 || now / bm == 0
  {
    hide ExactFor, AdmitDelay, WindowSum, Past, Misleading;
    EpochFits(now, bm);
    if total + hits <= U64_MAX || limit == U64_MAX || live == 1 || now / bm == 0 {
      forall c: nat -> nat | Breakdown(c, now / bm, live, total)
        ensures ExactFor(c, now, bm, live, limit, hits, AdmitDelay(c, now, bm, live, limit, total, hits))
      {
        if total + hits <= U64_MAX || limit == U64_MAX {
          RetryExact(c, now, bm, live, limit, total, hits);
        } else {
          SingleBucketExact(c, now, bm, live, limit, total, hits);
        }
      }
    } else {
      SaturatedRetryTooEarly(now, bm, live, limit, total, hits);
    }
  }

  /** A request larger than the limit is never admitted, whatever the window holds. */
  lemma NeverAdmitted(c: nat -> nat, t: nat, bm: nat, live: nat, limit: nat, hits: nat)
    requires bm > 0 && limit < hits <= U64_MAX
    ensures !Admits(c, t, bm, live, limit, hits)
  {
  }

  /** The delay such a request is told is the rest of the whole window. */
  lemma OverweightWaitsWindow(c: nat -> nat, now: nat, bm: nat, live: nat, limit: nat, total: nat, hits: nat)
    requires Clocked(now, bm, live) && Breakdown(c, now / bm, live, total) && limit < hits && total + hits <= U64_MAX
    ensures now + AdmitDelay(c, now, bm, live, limit, total, hits) == (now / bm + live) * bm
  {
    hide SumRange, FallOff;
    var cur, oldest, need := now / bm, Oldest(now / bm, live), total + hits - limit;
    var f := FallOff(c, oldest, oldest, cur, need);
    EpochFits(now, bm);
    FallOffIsFirst(c, oldest, oldest, cur, need);
    FallOffStops(c, oldest, oldest, cur, need);
    if f < cur {
      SumSplits(c, oldest, f + 1, cur + 1);
    }
    ReachesEpoch(now, cur + live, bm);
  }

  lemma {:induction false} FallOffStops(c: nat -> nat, oldest: nat, b: nat, cur: nat, need: nat)
    requires oldest <= b <= cur
    ensures
      var f := FallOff(c, oldest, b, cur, need);
      f < cur ==> SumRange(c, oldest, f + 1) >= need
    decreases cur - b
  {
    if b < cur && SumRange(c, oldest, b + 1) < need {
      FallOffStops(c, oldest, b + 1, cur, need);
    }
  }

  /** `Retry-After` in seconds. */
  function RetryAfterSeconds(delta: nat): (s: nat)
    ensures s >= 1 && delta <= 1000 * s && (s > 1 ==> 1000 * (s - 1) < delta)
  {
    Max((delta + 999) / 1000, 1)
  }

  /** Waiting the advertised `Retry-After` is always enough. */
  lemma RetryAfterSuffices(c: nat -> nat, now: nat, bm: nat, live: nat, limit: nat, total: nat, hits: nat)
    requires Clocked(now, bm, live) && Breakdown(c, Epoch(now, bm), live, total)
    requires hits <= limit <= U64_MAX && (total + hits <= U64_MAX || limit == U64_MAX)
    ensures
      var t := now + 1000 * RetryAfterSeconds(AdmitDelay(c, now, bm, live, limit, total, hits));
      t / bm <= U32_MAX ==> Admits(c, t, bm, live, limit, hits)
  {
    RetryExact(c, now, bm, live, limit, total, hits);
  }

  /** `X-RateLimit-Reset` in unix seconds. */
  function ResetUnixSeconds(now: nat, delta: nat): nat {
    SatAdd(now / 1000, RetryAfterSeconds(delta), U64_MAX)
  }

  /** The advertised reset is never before the wait is over, measured from the start of the current
      second, and less than a second late. */
  lemma ResetIsTight(now: nat, delta: nat)
    requires now / 1000 + RetryAfterSeconds(delta) <= U64_MAX && delta >= 1
    ensures now - now % 1000 + delta <= 1000 * ResetUnixSeconds(now, delta) < now - now % 1000 + delta + 1000
  {
  }

  function UntilNextBoundary(now: nat, bucketMillis: nat): nat {
    var bm := Max(bucketMillis, 1);
    bm - now % bm
  }

  lemma BoundaryAt(now: nat, bm: nat)
    requires bm > 0
    ensures now + UntilNextBoundary(now, bm) == (now / bm + 1) * bm
  {
    assert now == (now / bm) * bm + now % bm;
    MulStep(now / bm, bm);
  }

  /** Until the advertised boundary the window does not move; at the boundary it moves by one bucket. */
  lemma BoundaryIsNext(now: nat, bm: nat, t: nat)
    requires bm > 0 && now <= t
    ensures t < now + UntilNextBoundary(now, bm) ==> t / bm == now / bm
    ensures (now + UntilNextBoundary(now, bm)) / bm == now / bm + 1
  {
    hide UntilNextBoundary;
    var q, next := now / bm, now + UntilNextBoundary(now, bm);
    BoundaryAt(now, bm);
    MulStep(q + 1, bm);
    ReachesEpoch(t, q + 1, bm);
    ReachesEpoch(next, q + 1, bm);
    ReachesEpoch(next, q + 2, bm);
    DivMonotone(now, t, bm);
  }

  // -- In milliseconds --------------------------------------------------------------------------

  /** The 32-bit epoch comes round: a window read 2^32 buckets later is the same one. */
  lemma EpochWraps(c: nat -> nat, t: nat, bm: nat, live: nat)
    requires bm > 0
    ensures Epoch(t + 0x1_0000_0000 * bm, bm) == Epoch(t, bm) < 0x1_0000_0000
    ensures Visible(c, t + 0x1_0000_0000 * bm, bm, live) == Visible(c, t, bm, live)
  {
    var later := t + 0x1_0000_0000 * bm;
    var e := t / bm + 0x1_0000_0000;
    assert t == (t / bm) * bm + t % bm;
    assert e * bm == (t / bm) * bm + 0x1_0000_0000 * bm;
    MulStep(e, bm);
    ReachesEpoch(later, e, bm);
    ReachesEpoch(later, e + 1, bm);
  }

  /** A read at `t` counts exactly the buckets that have begun and that began less than `live` bucket widths
      before the current one. */
  lemma InWindowIff(b: nat, t: nat, bm: nat, live: nat)
    requires bm > 0 && t / bm <= U32_MAX
    ensures Oldest(Epoch(t, bm), live) <= b <= Epoch(t, bm) <==> b * bm <= t < (b + live) * bm
  {
    EpochFits(t, bm);
    ReachesEpoch(t, b, bm);
    ReachesEpoch(t, b + live, bm);
  }

  /** Hits added to one bucket are seen at `t`, up to the 64-bit maximum, exactly while `t` is in that range. */
  lemma HitsSeenIff(c: nat -> nat, d: nat -> nat, b: nat, hits: nat, t: nat, bm: nat, live: nat)
    requires bm > 0 && t / bm <= U32_MAX && forall x: nat :: d(x) == c(x) + if x == b then hits else 0
    ensures Visible(d, t, bm, live)
            == if b * bm <= t < (b + live) * bm then SatAdd(Visible(c, t, bm, live), hits, U64_MAX)
               else Visible(c, t, bm, live)
  {
    var lo, hi := Oldest(Epoch(t, bm), live), Epoch(t, bm) + 1;
    InWindowIff(b, t, bm, live);
    if lo <= b < hi {
      SumSplits(c, lo, b, hi);
      SumSplits(d, lo, b, hi);
      SumSplits(c, b, b + 1, hi);
      SumSplits(d, b, b + 1, hi);
      SumSame(c, d, lo, b);
      SumSame(c, d, b + 1, hi);
    } else {
      SumSame(c, d, lo, hi);
    }
  }

  /** `ceil(window / bucket)` and at least one, said without division. */
  ghost predicate Spans(live: nat, window: nat, bm: nat) {
    live >= 1 && live * bm >= window && (live - 1) * bm < Max(window, 1)
  }

  lemma SpansUnique(live: nat, more: nat, window: nat, bm: nat)
    requires bm > 0 && Spans(live, window, bm) && Spans(more, window, bm)
    ensures live == more
  {
    if live < more {
      MulMonotone(live, more - 1, bm);
    } else if more < live {
      MulMonotone(more, live - 1, bm);
    }
  }

  /** A hit taken at `h` is counted at least until less than a bucket before its window ends, and at most
      until less than a bucket after. */
  lemma HitLifetime(h: nat, t: nat, bm: nat, live: nat, window: nat)
    requires bm > 0 && Spans(live, window, bm) && h <= t
    ensures t + bm <= h + window ==> (h / bm) * bm <= t < (h / bm + live) * bm
    ensures t >= h + Max(window, 1) + bm ==> t >= (h / bm + live) * bm
  {
    assert h == (h / bm) * bm + h % bm;
    assert (h / bm + live) * bm == (h / bm) * bm + live * bm;
    assert live * bm == (live - 1) * bm + bm;
  }

  // -- Spans of buckets -------------------------------------------------------------------------

  /** The sum of `n` consecutive buckets. */
  ghost function Span(c: nat -> nat, lo: nat, n: nat): nat {
    SumRange(c, lo, lo + n)
  }

  ghost predicate SpansWithin(c: nat -> nat, n: nat, limit: nat) {
    forall lo: nat :: Span(c, lo, n) <= limit
  }

  lemma BucketInSpan(c: nat -> nat, b: nat, live: nat)
    requires live > 0
    ensures c(b) <= Span(c, b, live)
  {
    SumSplits(c, b, b + 1, b + live);
  }

  /** If the window that ends now has room for the hits, every span keeps its bound. */
  lemma SpansStayWithin(c: nat -> nat, d: nat -> nat, cur: nat, live: nat, limit: nat, hits: nat)
    requires live > 0 && Past(c, cur) && SpansWithin(c, live, limit) && WindowSum(c, cur, live) + hits <= limit
    requires forall b: nat :: d(b) == c(b) + if b == cur then hits else 0
    ensures SpansWithin(d, live, limit) && Past(d, cur)
  {
    forall lo: nat ensures Span(d, lo, live) <= limit {
      if lo <= cur < lo + live {
        SpanWithHits(c, d, cur, lo, live, hits);
      } else {
        SumSame(c, d, lo, lo + live);
        assert Span(c, lo, live) <= limit;
      }
    }
  }

  /** A span that covers the current bucket holds at most the current window and the new hits. */
  lemma SpanWithHits(c: nat -> nat, d: nat -> nat, cur: nat, lo: nat, live: nat, hits: nat)
    requires live > 0 && Past(c, cur) && lo <= cur < lo + live
    requires forall b: nat :: d(b) == c(b) + if b == cur then hits else 0
    ensures Span(d, lo, live) <= WindowSum(c, cur, live) + hits
  {
    hide SumRange;
    SumLast(c, lo, cur);
    SumLast(d, cur, cur);
    SumSplits(d, lo, cur, lo + live);
    SumSplits(d, cur, cur + 1, lo + live);
    SumOfNothing(d, cur + 1, lo + live);
    SumOfNothing(d, cur, cur);
    SumSame(c, d, lo, cur);
    SumSplits(c, Oldest(cur, live), lo, cur + 1);
  }

  /** One rule's buckets before and after a request: nothing ahead of the clock, and no span over the
      limit provided the current window had room for what was added. */
  lemma RuleKept(c: nat -> nat, d: nat -> nat, was: nat, cur: nat, live: nat, limit: nat, hits: nat)
    requires Past(c, was) && was <= cur && live > 0 && SpansWithin(c, live, limit)
    requires hits > 0 ==> WindowSum(c, cur, live) + hits <= limit
    requires forall b: nat :: d(b) == c(b) + if b == cur then hits else 0
    ensures Past(d, cur) && SpansWithin(d, live, limit)
  {
    assert Past(c, cur);
    if hits == 0 {
      PastWindow(c, cur, live);
      assert Span(c, Oldest(cur, live), live) <= limit;
    }
    SpansStayWithin(c, d, cur, live, limit, hits);
  }

  lemma PastWindow(c: nat -> nat, cur: nat, live: nat)
    requires Past(c, cur) && live > 0
    ensures WindowSum(c, cur, live) == Span(c, Oldest(cur, live), live)
  {
    var lo := Oldest(cur, live);
    SumSplits(c, lo, cur + 1, lo + live);
    SumOfNothing(c, cur + 1, lo + live);
  }
}
