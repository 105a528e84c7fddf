/** From a configured rule to the descriptor the cell store sweeps by (`Rule::new`, `register_rules`). */
module Registration {
  import opened Base
  import opened Cells
  import opened Dictionary
  import opened Expiry
  import opened Windows
  import opened Admission

  /** `Rule::new`: both durations at least one millisecond, the number of buckets truncated to 32 bits. */
  function NewRule(id: nat, fingerprint: nat, domainHash: nat, patterns: seq<Descriptor>, limit: nat, window: nat,
                   bucket: nat, mode: Mode): Rule
  {
    var w: nat, bm: nat := Max(window, 1), Max(bucket, 1);
    Rule(id, fingerprint, domainHash, patterns, limit, w, bm, Max((w + bm - 1) / bm, 1) % (U32_MAX + 1), mode)
  }

  /** The buckets of a new rule span its window exactly when the window is at most 2^32 - 1 of them long. */
  lemma NewRuleIff(id: nat, fingerprint: nat, domainHash: nat, patterns: seq<Descriptor>, limit: nat, window: nat,
                   bucket: nat, mode: Mode)
    requires limit <= U64_MAX
    ensures Usable([NewRule(id, fingerprint, domainHash, patterns, limit, window, bucket, mode)])
            <==> Max(window, 1) <= U32_MAX * Max(bucket, 1)
  {
    var r := NewRule(id, fingerprint, domainHash, patterns, limit, window, bucket, mode);
    var w, bm := r.windowMillis, r.bucketMillis;
    var d := RuleDescriptor(0, w, bm, 0, 0, 0);
    LiveSpansWindow(d);
    var live := d.LiveBuckets();
    if live <= U32_MAX {
      MulMonotone(live, U32_MAX, bm);
    } else {
      MulMonotone(U32_MAX, live - 1, bm);
      if Spans(r.liveBuckets, w, bm) {
        SpansUnique(live, r.liveBuckets, w, bm);
      }
    }
    assert [r][0] == r;
  }

  /** `register_rules`: both durations clipped to 32 bits. */
  function DescriptorOf(r: Rule): RuleDescriptor {
    RuleDescriptor(r.fingerprint, Min(r.windowMillis, U32_MAX), Min(r.bucketMillis, U32_MAX), r.limit, 0, r.id)
  }

  /** The sweep knows the rule with its own window and buckets. */
  ghost predicate Registered(r: Rule, rules: map<nat, RuleDescriptor>) {
    && r.fingerprint in rules && r.bucketMillis > 0
    && rules[r.fingerprint].windowMillis == r.windowMillis && rules[r.fingerprint].bucketMillis == r.bucketMillis
  }

  /** It then keeps as many buckets as the rule reads. */
  lemma RegisteredReads(r: Rule, rules: map<nat, RuleDescriptor>)
    requires Registered(r, rules) && Spans(r.liveBuckets, r.windowMillis, r.bucketMillis)
    ensures rules[r.fingerprint].LiveBuckets() == r.liveBuckets
  {
    hide RuleDescriptor.LiveBuckets, Spans;
    LiveSpansWindow(rules[r.fingerprint]);
    SpansUnique(rules[r.fingerprint].LiveBuckets(), r.liveBuckets, r.windowMillis, r.bucketMillis);
  }

  lemma RegisteredIff(r: Rule)
    requires r.bucketMillis > 0
    ensures Registered(r, map[r.fingerprint := DescriptorOf(r)])
            <==> r.windowMillis <= U32_MAX && r.bucketMillis <= U32_MAX
  {
  }

  /** A registered rule counts locally unless its id is the one reserved for rules from the wire. */
  lemma RegisteredApplies(r: Rule)
    ensures DescriptorOf(r).AppliesLocally() <==> r.id != 0xFFFF_FFFF
    ensures DescriptorOf(r).fingerprint == r.fingerprint && DescriptorOf(r).limit == r.limit
  {
  }

  /** A read of the rule at `now` counts bucket `b`, and a sweep at the same time would drop it. */
  predicate Forgets(r: Rule, d: RuleDescriptor, now: nat, b: nat)
    requires r.bucketMillis > 0
  {
    && now / r.bucketMillis <= U32_MAX
    && Oldest(Epoch(now, r.bucketMillis), r.liveBuckets) <= b <= Epoch(now, r.bucketMillis)
    && b + d.LiveBuckets() < d.CurrentEpoch(now)
  }

  /** No sweep by the descriptor drops a bucket that a read of the rule at the same time counts. */
  ghost predicate SweepsSafely(r: Rule, d: RuleDescriptor)
    requires r.bucketMillis > 0
  {
    forall now: nat, b: nat :: !Forgets(r, d, now, b)
  }

  /** Exactly the windows that are at most one bucket longer than the clipped one are swept safely. */
  lemma SweepsSafelyIff(r: Rule)
    requires 0 < r.bucketMillis <= U32_MAX && r.liveBuckets <= U32_MAX
    ensures SweepsSafely(r, DescriptorOf(r)) <==> r.liveBuckets <= DescriptorOf(r).LiveBuckets() + 1
  {
    hide RuleDescriptor.LiveBuckets;
    var d := DescriptorOf(r);
    if r.liveBuckets > d.LiveBuckets() + 1 {
      var cur: nat := r.liveBuckets - 1;
      var now := cur * r.bucketMillis;
      ReachesEpoch(now, cur, r.bucketMillis);
      ReachesEpoch(now, cur + 1, r.bucketMillis);
      MulStep(cur, r.bucketMillis);
      EpochFits(now, r.bucketMillis);
      assert Forgets(r, d, now, 0);
    }
  }

  /** A window that fits 32 bits is always swept safely. */
  lemma ShortWindowsAreSafe(r: Rule)
    requires 0 < r.bucketMillis <= U32_MAX && r.windowMillis <= U32_MAX && r.liveBuckets <= U32_MAX
    requires Spans(r.liveBuckets, r.windowMillis, r.bucketMillis)
    ensures SweepsSafely(r, DescriptorOf(r))
  {
    hide SweepsSafely, Spans;
    RegisteredReads(r, map[r.fingerprint := DescriptorOf(r)]);
    SweepsSafelyIff(r);
  }

  /** Sixty daily buckets are not: on day 59 the sweep drops the hits of day 0, which the window still counts. */
  lemma SixtyDaysForget(fingerprint: nat, limit: nat)
    requires limit <= U64_MAX
    ensures
      var r := NewRule(1, fingerprint, 0, [], limit, 60 * 86_400_000, 86_400_000, Enforce);
      Usable([r]) && !SweepsSafely(r, DescriptorOf(r))
  {
    hide SweepsSafely;
    var r := NewRule(1, fingerprint, 0, [], limit, 60 * 86_400_000, 86_400_000, Enforce);
    NewRuleIff(1, fingerprint, 0, [], limit, 60 * 86_400_000, 86_400_000, Enforce);
    SweepsSafelyIff(r);
  }
}
