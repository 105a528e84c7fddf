/** When a cell is too old to keep, in terms of its rule's window. */
module Expiry {
  import opened Base
  import opened Cells
  import opened Dictionary
  import opened Counters
  import opened Windows

  /** `bucket + live_buckets < current_epoch`, by the rule's own descriptor. */
  ghost predicate Expired(rules: map<nat, RuleDescriptor>, id: CellId, now: nat) {
    && id.fingerprint in rules
    && id.bucket + rules[id.fingerprint].LiveBuckets() < rules[id.fingerprint].CurrentEpoch(now)
  }

  ghost function Survivors(m: Counts, rules: map<nat, RuleDescriptor>, now: nat): Counts {
    map id | id in m && !Expired(rules, id, now) :: m[id]
  }

  /** The expiration row of a cell carries its identity, its last count and whether its rule is local. */
  ghost predicate Tells(row: CellExpiration, id: CellId, m: Counts, local: set<nat>) {
    && row.key == id.Identity() && row.lastCount == CountOf(m, id)
    && row.appliesLocally == (id.fingerprint in local)
  }

  ghost predicate TellAll(rows: seq<CellExpiration>, ids: seq<CellId>, m: Counts, local: set<nat>) {
    |rows| == |ids| && forall k :: 0 <= k < |ids| ==> Tells(rows[k], ids[k], m, local)
  }

  lemma TellNone(m: Counts, local: set<nat>)
    ensures TellAll([], [], m, local)
  {
  }

  lemma TellMore(rows: seq<CellExpiration>, ids: seq<CellId>, row: CellExpiration, id: CellId, m: Counts,
                 local: set<nat>)
    requires TellAll(rows, ids, m, local) && Tells(row, id, m, local)
    ensures TellAll(rows + [row], ids + [id], m, local)
  {
  }

  // -- In milliseconds --------------------------------------------------------------------------

  /** The window of some hit in the bucket has not ended. */
  predicate StillNeeded(d: RuleDescriptor, bucket: nat, now: nat) {
    now < (bucket + 1) * d.bucketMillis + d.windowMillis
  }

  /** The window of the last hit in the bucket ended more than a bucket ago. */
  predicate LongOver(d: RuleDescriptor, bucket: nat, now: nat) {
    now >= (bucket + 2) * d.bucketMillis + Max(d.windowMillis, 1)
  }

  lemma LiveSpansWindow(d: RuleDescriptor)
    requires d.bucketMillis > 0
    ensures Spans(d.LiveBuckets(), d.windowMillis, d.bucketMillis)
  {
    var w, bm := d.windowMillis, d.bucketMillis;
    var n := w + bm - 1;
    assert n == (n / bm) * bm + n % bm;
    if w == 0 {
      ReachesEpoch(n, 1, bm);
    } else {
      ReachesEpoch(n, 1, bm);
      assert (n / bm - 1) * bm == (n / bm) * bm - bm;
    }
  }

  /** The sweep reads the same clock as the window, also when it comes round. */
  lemma SweepsByEpoch(d: RuleDescriptor, now: nat)
    ensures d.CurrentEpoch(now) == if d.bucketMillis == 0 then 0 else Epoch(now, d.bucketMillis)
  {
  }

  lemma ExpiredIff(d: RuleDescriptor, bucket: nat, now: nat)
    requires d.bucketMillis > 0 && now / d.bucketMillis <= U32_MAX
    ensures bucket + d.LiveBuckets() < d.CurrentEpoch(now)
            <==> now >= (bucket + d.LiveBuckets() + 1) * d.bucketMillis
  {
    hide RuleDescriptor.LiveBuckets;
    EpochFits(now, d.bucketMillis);
    ReachesEpoch(now, bucket + d.LiveBuckets() + 1, d.bucketMillis);
  }

  /** A sweep in milliseconds: what some window still needs stays, what is long over goes. */
  lemma SweepsByAge(rules: map<nat, RuleDescriptor>, id: CellId, now: nat)
    requires id.fingerprint in rules
    ensures
      var d := rules[id.fingerprint];
      if d.bucketMillis == 0 then !Expired(rules, id, now)
      else now / d.bucketMillis <= U32_MAX ==>
             && (StillNeeded(d, id.bucket, now) ==> !Expired(rules, id, now))
             && (LongOver(d, id.bucket, now) ==> Expired(rules, id, now))
  {
    var d := rules[id.fingerprint];
    if d.bucketMillis > 0 && now / d.bucketMillis <= U32_MAX {
      hide RuleDescriptor.LiveBuckets, RuleDescriptor.CurrentEpoch;
      LiveSpansWindow(d);
      ExpiredIff(d, id.bucket, now);
      var live, bm := d.LiveBuckets(), d.bucketMillis;
      assert (id.bucket + live + 1) * bm == (id.bucket + 1) * bm + live * bm;
      assert (id.bucket + 2) * bm == (id.bucket + 1) * bm + bm;
      assert live * bm == (live - 1) * bm + bm;
    }
  }

  /** What a sweep of a store promises by age alone. */
  ghost predicate SweptByAge(was: Counts, left: Counts, rules: map<nat, RuleDescriptor>, now: nat) {
    forall id :: id in was && id.fingerprint in rules ==> AgesRight(left, rules[id.fingerprint], id, now)
  }

  ghost predicate AgesRight(left: Counts, d: RuleDescriptor, id: CellId, now: nat) {
    && (d.bucketMillis == 0 ==> id in left)
    && (d.bucketMillis > 0 && now / d.bucketMillis <= U32_MAX ==>
          (StillNeeded(d, id.bucket, now) ==> id in left) && (LongOver(d, id.bucket, now) ==> id !in left))
  }

  lemma SurvivorsByAge(m: Counts, rules: map<nat, RuleDescriptor>, now: nat)
    ensures SweptByAge(m, Survivors(m, rules, now), rules, now)
  {
    hide Expired, StillNeeded, LongOver;
    forall id | id in m && id.fingerprint in rules
      ensures AgesRight(Survivors(m, rules, now), rules[id.fingerprint], id, now)
    {
      SweepsByAge(rules, id, now);
    }
  }

  /** A cell of a rule known only from the wire is swept from 61 bucket seconds after its bucket began, and
      not before. */
  lemma WireOnlyLife(rules: map<nat, RuleDescriptor>, id: CellId, now: nat)
    requires id.fingerprint in rules && rules[id.fingerprint] == WireOnly(id.fingerprint) && now / 1000 <= U32_MAX
    ensures Expired(rules, id, now) <==> now >= 1000 * id.bucket + 61_000
    ensures !rules[id.fingerprint].AppliesLocally()
  {
    ExpiredIff(WireOnly(id.fingerprint), id.bucket, now);
  }
}
