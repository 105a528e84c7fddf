/** Expiry against admission: which window reads a sweep can change. */
module Retention {
  import opened Base
  import opened Cells
  import opened Dictionary
  import opened Counters
  import opened Expiry
  import opened Sums
  import opened Windows
  import opened Aggregates

  /** The per-bucket sums of one (rule, key). */
  ghost function Column(m: Counts, fp: nat, key: nat): nat -> nat {
    (b: nat) => Sum(m, CellIdentity(fp, key, b))
  }

  /** A sweep takes whole buckets: one is emptied when it is too old and untouched otherwise. */
  lemma SweepByBucket(m: Counts, rules: map<nat, RuleDescriptor>, now: nat, fp: nat, key: nat, b: nat)
    requires fp in rules
    ensures Column(Survivors(m, rules, now), fp, key)(b)
            == if b + rules[fp].LiveBuckets() < rules[fp].CurrentEpoch(now) then 0 else Column(m, fp, key)(b)
  {
    var k := CellIdentity(fp, key, b);
    if b + rules[fp].LiveBuckets() < rules[fp].CurrentEpoch(now) {
      assert Group(Survivors(m, rules, now), k) == map[];
    } else {
      assert Group(Survivors(m, rules, now), k) == Group(m, k);
    }
  }

  /** Sweeping at `g` leaves a window read in the epoch of `r` alone. */
  ghost predicate Invisible(rules: map<nat, RuleDescriptor>, fp: nat, g: nat, r: nat)
    requires fp in rules
  {
    forall m: Counts, key: nat ::
      WindowSum(Column(Survivors(m, rules, g), fp, key), rules[fp].CurrentEpoch(r), rules[fp].LiveBuckets())
      == WindowSum(Column(m, fp, key), rules[fp].CurrentEpoch(r), rules[fp].LiveBuckets())
  }

  /** The sweep at `g` runs at most one epoch ahead of a read at `r`, or before the first window has filled. */
  predicate InTime(d: RuleDescriptor, g: nat, r: nat) {
    d.CurrentEpoch(g) <= Max(d.LiveBuckets(), d.CurrentEpoch(r) + 1)
  }

  lemma InvisibleFor(m: Counts, rules: map<nat, RuleDescriptor>, fp: nat, key: nat, g: nat, r: nat)
    requires fp in rules
    requires InTime(rules[fp], g, r)
    ensures WindowSum(Column(Survivors(m, rules, g), fp, key), rules[fp].CurrentEpoch(r), rules[fp].LiveBuckets())
            == WindowSum(Column(m, fp, key), rules[fp].CurrentEpoch(r), rules[fp].LiveBuckets())
  {
    var cur, live := rules[fp].CurrentEpoch(r), rules[fp].LiveBuckets();
    forall b: nat | Oldest(cur, live) <= b < cur + 1
      ensures Column(Survivors(m, rules, g), fp, key)(b) == Column(m, fp, key)(b)
    {
      SweepByBucket(m, rules, g, fp, key, b);
    }
    SumSame(Column(Survivors(m, rules, g), fp, key), Column(m, fp, key), Oldest(cur, live), cur + 1);
  }

  /** One hit in the oldest bucket the read still counts. */
  ghost function LastHit(fp: nat, bucket: nat): Counts {
    map[CellId(fp, 0, bucket, 0, 0) := 1]
  }

  lemma LastHitSeen(fp: nat, bucket: nat, cur: nat)
    requires bucket <= cur
    ensures SumRange(Column(LastHit(fp, bucket), fp, 0), bucket, cur + 1) >= 1
  {
    var c := Column(LastHit(fp, bucket), fp, 0);
    var k := CellIdentity(fp, 0, bucket);
    assert Group(LastHit(fp, bucket), k) == LastHit(fp, bucket);
    TotalWithout(LastHit(fp, bucket), CellId(fp, 0, bucket, 0, 0));
    assert c(bucket) >= 1;
    SumSplits(c, bucket, bucket + 1, cur + 1);
  }

  lemma LastHitLost(rules: map<nat, RuleDescriptor>, fp: nat, g: nat, r: nat)
    requires fp in rules && rules[fp].bucketMillis > 0 && !InTime(rules[fp], g, r)
    ensures !Invisible(rules, fp, g, r)
  {
    var cur, live := rules[fp].CurrentEpoch(r), rules[fp].LiveBuckets();
    var m := LastHit(fp, Oldest(cur, live));
    LastHitSeen(fp, Oldest(cur, live), cur);
    assert Survivors(m, rules, g) == map[];
    var none := Column(Survivors(m, rules, g), fp, 0);
    forall b: nat ensures none(b) == 0 {
      assert Group(map[], CellIdentity(fp, 0, b)) == map[];
    }
    SumOfNothing(none, Oldest(cur, live), cur + 1);
    assert WindowSum(none, cur, live) != WindowSum(Column(m, fp, 0), cur, live);
  }

  /** A sweep at `g` is invisible to reads at `r` exactly when it runs at most one epoch ahead of the
      read, or before the first window has filled. */
  lemma ExpiryInvisibleIff(rules: map<nat, RuleDescriptor>, fp: nat, g: nat, r: nat)
    requires fp in rules && rules[fp].bucketMillis > 0
    ensures Invisible(rules, fp, g, r)
            <==> InTime(rules[fp], g, r)
  {
    if InTime(rules[fp], g, r) {
      forall m: Counts, key: nat
        ensures WindowSum(Column(Survivors(m, rules, g), fp, key), rules[fp].CurrentEpoch(r), rules[fp].LiveBuckets())
                == WindowSum(Column(m, fp, key), rules[fp].CurrentEpoch(r), rules[fp].LiveBuckets())
      {
        InvisibleFor(m, rules, fp, key, g, r);
      }
    } else {
      LastHitLost(rules, fp, g, r);
    }
  }

  /** The totals of an enforced rule, bucket by bucket, after a sweep at `g`. */
  lemma TotalsAfterSweep(was: Aggregate, now: Aggregate, m: Counts, rules: map<nat, RuleDescriptor>, local: set<nat>,
                         fp: nat, key: nat,
                         g: nat, b: nat)
    requires Agrees(was, m, local) && Agrees(now, Survivors(m, rules, g), local) && fp in local && fp in rules
    ensures Buckets(now, fp, key)(b)
            == if b < SatSub(rules[fp].CurrentEpoch(g), rules[fp].LiveBuckets()) then 0 else Buckets(was, fp, key)(b)
  {
    var k := CellIdentity(fp, key, b);
    assert ReadIn(now, k) == Share(Survivors(m, rules, g), local, k) && ReadIn(was, k) == Share(m, local, k);
    hide Survivors, Agrees, Sum;
    SweepByBucket(m, rules, g, fp, key, b);
  }

  lemma SumBeyond(c: nat -> nat, left: nat -> nat, oldest: nat, edge: nat, hi: nat)
    requires forall b: nat :: left(b) == if b < edge then 0 else c(b)
    ensures SumRange(left, oldest, hi) == SumRange(c, Max(oldest, edge), hi)
  {
    if oldest <= hi {
      var mid := Min(Max(oldest, edge), hi);
      SumSplits(left, oldest, mid, hi);
      SumOfNothing(left, oldest, mid);
      SumSame(left, c, mid, hi);
    }
  }

  /** What `window_total` reads after a sweep at `g`: the buckets of its window that the sweep left. */
  lemma ReadAfterSweep(was: Aggregate, now: Aggregate, m: Counts, rules: map<nat, RuleDescriptor>, local: set<nat>,
                       fp: nat, key: nat,
                       g: nat, r: nat)
    requires Agrees(was, m, local) && Agrees(now, Survivors(m, rules, g), local)
    requires fp in local && fp in rules && rules[fp].bucketMillis > 0
    ensures
      var d := rules[fp];
      var from := Max(Oldest(d.CurrentEpoch(r), d.LiveBuckets()), SatSub(d.CurrentEpoch(g), d.LiveBuckets()));
      Visible(Buckets(now, fp, key), r, d.bucketMillis, d.LiveBuckets())
      == Min(SumRange(Buckets(was, fp, key), from, d.CurrentEpoch(r) + 1), U64_MAX)
  {
    hide Agrees, Survivors, Buckets, RuleDescriptor.LiveBuckets, SumRange;
    var d, c, left := rules[fp], Buckets(was, fp, key), Buckets(now, fp, key);
    var oldest, edge := Oldest(d.CurrentEpoch(r), d.LiveBuckets()), SatSub(d.CurrentEpoch(g), d.LiveBuckets());
    forall b: nat ensures left(b) == if b < edge then 0 else c(b) {
      TotalsAfterSweep(was, now, m, rules, local, fp, key, g, b);
    }
    SumBeyond(c, left, oldest, edge, d.CurrentEpoch(r) + 1);
  }

  ghost predicate SameRead(was: Aggregate, now: Aggregate, d: RuleDescriptor, fp: nat, key: nat, r: nat) {
    d.bucketMillis > 0 ==>
      Visible(Buckets(now, fp, key), r, d.bucketMillis, d.LiveBuckets())
      == Visible(Buckets(was, fp, key), r, d.bucketMillis, d.LiveBuckets())
  }

  /** No read of an enforced rule that is in time notices the sweep. */
  ghost predicate Unnoticed(was: Aggregate, now: Aggregate, rules: map<nat, RuleDescriptor>, local: set<nat>, g: nat) {
    forall fp, key: nat, r: nat :: fp in rules && fp in local && InTime(rules[fp], g, r) ==>
      SameRead(was, now, rules[fp], fp, key, r)
  }

  lemma SweepUnnoticed(was: Aggregate, now: Aggregate, m: Counts, rules: map<nat, RuleDescriptor>, local: set<nat>,
                       g: nat)
    requires Agrees(was, m, local) && Agrees(now, Survivors(m, rules, g), local)
    ensures Unnoticed(was, now, rules, local, g)
  {
    forall fp, key: nat, r: nat | fp in rules && fp in local && InTime(rules[fp], g, r)
      ensures SameRead(was, now, rules[fp], fp, key, r)
    {
      if rules[fp].bucketMillis > 0 {
        ReadAfterSweep(was, now, m, rules, local, fp, key, g, r);
      }
    }
  }
}
