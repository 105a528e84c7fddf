/** What the nginx adapter's answer means to a client, and the limit over whole runs of requests. */
module AccessVerdicts {
  import opened Base
  import opened Windows
  import opened Access

  // -- One rule -----------------------------------------------------------------------------------

  /** The length of the descriptors: all keys, and all values that are there. */
  function Lengths(bs: seq<Binding>): nat {
    if bs == [] then 0
    else bs[0].keyLen + (if bs[0].value.Some? then bs[0].value.value.len else 0) + Lengths(bs[1..])
  }

  lemma {:induction false} LengthsMore(bs: seq<Binding>, b: Binding)
    ensures Lengths(bs + [b]) == Lengths(bs) + b.keyLen + if b.value.Some? then b.value.value.len else 0
  {
    if bs == [] {
      assert bs + [b] == [b] && [b][1..] == [];
    } else {
      LengthsMore(bs[1..], b);
      assert (bs + [b])[1..] == bs[1..] + [b];
    }
  }

  lemma {:induction false} LengthsGrow(bs: seq<Binding>, n: nat)
    requires n <= |bs|
    ensures Lengths(bs[..n]) <= Lengths(bs)
    decreases |bs| - n
  {
    if n == |bs| {
      assert bs[..n] == bs;
    } else {
      LengthsGrow(bs, n + 1);
      assert bs[..n + 1] == bs[..n] + [bs[n]];
      LengthsMore(bs[..n], bs[n]);
    }
  }

  lemma {:induction false} BytesAre(c: Context, bs: seq<Binding>, n: nat)
    requires 0 < n <= |bs|
    ensures Bytes(c, bs, n) == Min(c.domainLen + Lengths(bs[..n]), U64_MAX)
  {
    assert bs[..n] == bs[..n - 1] + [bs[n - 1]];
    LengthsMore(bs[..n - 1], bs[n - 1]);
    if n == 1 {
      assert bs[..0] == [];
    } else {
      BytesAre(c, bs, n - 1);
    }
  }

  /** With its first `n` bindings the request is longer than allowed; the count stops at the 64-bit maximum. */
  ghost predicate Long(c: Context, bs: seq<Binding>, n: nat) {
    n <= |bs| && Min(c.domainLen + Lengths(bs[..n]), U64_MAX) > c.maxBytes
  }

  ghost predicate There(b: Binding) {
    b.value.Some? && b.value.value.utf8
  }

  /** All descriptors are there and not too long together. */
  ghost predicate Ready(c: Context, bs: seq<Binding>) {
    (forall i :: 0 <= i < |bs| ==> There(bs[i])) && (bs != [] ==> !Long(c, bs, |bs|))
  }

  /** The length runs over with a value that is there, before anything else is wrong. */
  ghost predicate RunsOver(c: Context, bs: seq<Binding>, i: nat) {
    && i < |bs| && (forall j :: 0 <= j < i ==> There(bs[j])) && bs[i].value.Some? && Long(c, bs, i + 1)
  }

  lemma PassesIff(c: Context, bs: seq<Binding>, i: nat)
    requires i < |bs|
    ensures Passes(c, bs, i) <==> There(bs[i]) && !Long(c, bs, i + 1)
  {
    BytesAre(c, bs, i + 1);
  }

  lemma LongStays(c: Context, bs: seq<Binding>, n: nat, m: nat)
    requires Long(c, bs, n) && n <= m <= |bs|
    ensures Long(c, bs, m)
  {
    LengthsGrow(bs[..m], n);
    assert bs[..m][..n] == bs[..n];
  }

  lemma ReadyNeverStops(c: Context, bs: seq<Binding>)
    ensures Ready(c, bs) <==> forall i: nat :: !StopsAt(c, bs, i)
  {
    hide Long, There, Passes;
    if Ready(c, bs) {
      forall i: nat | i < |bs| ensures Passes(c, bs, i) {
        PassesIff(c, bs, i);
        if Long(c, bs, i + 1) {
          LongStays(c, bs, i + 1, |bs|);
        }
      }
    } else if forall i: nat :: !StopsAt(c, bs, i) {
      NeverStopsIsReady(c, bs);
    }
  }

  lemma NeverStopsIsReady(c: Context, bs: seq<Binding>)
    requires forall i: nat :: !StopsAt(c, bs, i)
    ensures Ready(c, bs)
  {
    hide Long, There, Passes;
    AllPass(c, bs, |bs|);
    forall i: nat | i < |bs| ensures There(bs[i]) {
      PassesIff(c, bs, i);
    }
    if bs != [] {
      PassesIff(c, bs, |bs| - 1);
    }
  }

  lemma {:induction false} AllPass(c: Context, bs: seq<Binding>, n: nat)
    requires n <= |bs| && forall i: nat :: !StopsAt(c, bs, i)
    ensures forall i: nat :: i < n ==> Passes(c, bs, i)
  {
    if n > 0 {
      AllPass(c, bs, n - 1);
      assert !StopsAt(c, bs, n - 1);
    }
  }

  /** Before the window is read: exempt, too long, or not applicable. */
  lemma EarlyOutcome(c: Context, r: Bound, o: Outcome)
    requires OutcomeIs(c, Some(r), o)
    ensures r.exempt ==> o == Exempt(r.spec.id)
    ensures !r.exempt && !Ready(c, r.bindings) ==>
              o == if exists i: nat :: RunsOver(c, r.bindings, i) then TooLong else Declines
    ensures !r.exempt && Ready(c, r.bindings) ==> r.spec.bucketMillis > 0 && o == Evaluated(c, r)
  {
    hide Ready, Evaluated, Passes, Bytes;
    var bs := r.bindings;
    ReadyNeverStops(c, bs);
    if !r.exempt && !Ready(c, bs) {
      var i: nat :| StopsAt(c, bs, i) && o == StopOutcome(c, bs, i);
      StopTells(c, bs, i);
    }
  }

  lemma StopTells(c: Context, bs: seq<Binding>, i: nat)
    requires StopsAt(c, bs, i)
    ensures StopOutcome(c, bs, i) == if exists j: nat :: RunsOver(c, bs, j) then TooLong else Declines
  {
    hide Long, Passes, Bytes;
    forall j: nat | j < |bs| ensures Passes(c, bs, j) <==> There(bs[j]) && !Long(c, bs, j + 1) {
      PassesIff(c, bs, j);
    }
    LongIff(c, bs, i + 1);
    if j: nat :| RunsOver(c, bs, j) {
      assert j >= i;
      if j > i {
        assert There(bs[i]);
      }
    } else {
      assert !RunsOver(c, bs, i);
    }
  }

  lemma LongIff(c: Context, bs: seq<Binding>, n: nat)
    requires 0 < n <= |bs|
    ensures Bytes(c, bs, n) > c.maxBytes <==> Long(c, bs, n)
  {
    BytesAre(c, bs, n);
  }

  /** The limit test. A rule that applies to the request, and is not disabled, rejects exactly when it
      enforces its limit and the window has no room for one more hit; otherwise it allows the request. */
  lemma RejectsIff(c: Context, r: Bound, o: Outcome, column: nat -> nat)
    requires OutcomeIs(c, Some(r), o) && !r.exempt && Ready(c, r.bindings) && r.spec.bucketMillis > 0
    requires c.total(r.spec) == Visible(column, c.now, r.spec.bucketMillis, r.spec.liveBuckets)
    ensures r.mode == Disabled ==> o == Declines
    ensures o.Rejects? <==> r.mode == Enforce && !PassesAt(r.spec, column, c.now)
    ensures r.mode != Disabled ==> o.Rejects? || o.Allows?
  {
    hide Visible, Ready, OutcomeIs;
    EarlyOutcome(c, r, o);
  }

  /** What a rejection reports. */
  lemma RejectionReports(c: Context, r: Bound, o: Outcome)
    requires OutcomeIs(c, Some(r), o) && o.Rejects?
    ensures o.info == RejectInfo(r.spec, c.total(r.spec), c.now, c.retryMillis(r.spec, c.total(r.spec)))
  {
    hide Ready, OutcomeIs, RunsOver;
    EarlyOutcome(c, r, o);
  }

  /** What an allowance reports and offers to the queue: what is left after this hit, and one hit under the
      rule's fingerprint and key in the bucket of the request. */
  lemma AllowanceTells(c: Context, r: Bound, o: Outcome)
    requires OutcomeIs(c, Some(r), o) && o.Allows?
    ensures !r.exempt && Ready(c, r.bindings) && r.mode != Disabled && o.snapshot.spec == r.spec
    ensures if c.total(r.spec) + 1 <= r.spec.limit then o.snapshot.remaining + c.total(r.spec) + 1 == r.spec.limit
            else o.snapshot.remaining == 0
    ensures o.event.fingerprint == r.spec.fingerprint && o.event.key == c.keyOf(r.spec) && o.event.hits == 1
    ensures o.event.limit == r.spec.limit && o.event.now == c.now
    ensures r.spec.bucketMillis > 0
    ensures c.now / r.spec.bucketMillis <= U32_MAX ==>
              o.event.bucket * r.spec.bucketMillis <= c.now < (o.event.bucket + 1) * r.spec.bucketMillis
              && o.event.bucket == c.now / r.spec.bucketMillis
  {
    hide Ready, OutcomeIs, RunsOver;
    EarlyOutcome(c, r, o);
    var bm := r.spec.bucketMillis;
    if c.now / bm <= U32_MAX {
      EpochFits(c.now, bm);
      ReachesEpoch(c.now, c.now / bm, bm);
      ReachesEpoch(c.now, c.now / bm + 1, bm);
    }
  }

  // -- The whole request ----------------------------------------------------------------------------

  /** The rule is one the request is tested against. */
  ghost predicate Tested(c: Context, rule: Option<Bound>) {
    rule.Some? && !rule.value.exempt && Ready(c, rule.value.bindings) && rule.value.mode != Disabled
  }

  /** What a stack of rules decides: the request is rejected exactly when a tested rule enforces a limit it has
      no room under; else it is allowed when some rule was tested or exempted it, with the least that is left,
      and of that the longest window; else it is too long when some rule found it so. */
  lemma DecisionTells(c: Context, rules: seq<Option<Bound>>, os: seq<Outcome>, d: Decision, queued: seq<QueueEvent>,
                      column: Spec -> nat -> nat)
    requires OutcomesAre(c, rules, os) && Decided(os, d, queued) && forall i :: 0 <= i < |rules| ==> Compiled(rules[i])
    requires forall i :: 0 <= i < |rules| && rules[i].Some? ==> Reads(c, rules[i].value.spec, column)
    ensures d.Reject? <==> exists i :: 0 <= i < |rules| && Stands(c, rules[i], column)
    ensures !d.Reject? ==> (d.Allow? && d.quota.Some? <==> exists i :: 0 <= i < |rules| && Tested(c, rules[i]))
    ensures d.Allow? && d.quota.Some? ==>
              forall i :: 0 <= i < |os| && os[i].Allows? ==>
                || d.quota.value.remaining < os[i].snapshot.remaining
                || (d.quota.value.remaining == os[i].snapshot.remaining
                    && d.quota.value.spec.windowMillis >= os[i].snapshot.spec.windowMillis)
    ensures (forall i :: 0 <= i < |rules| ==> !Tested(c, rules[i])) ==>
              && (d == Allow(None) <==> exists i :: 0 <= i < |rules| && Spared(rules[i]))
              && (d == Cardinality <==> (forall i :: 0 <= i < |rules| ==> !Spared(rules[i]))
                                        && exists i :: 0 <= i < |rules| && FoundLong(c, rules[i]))
              && (d == Allow(None) || d == Cardinality || d == Decline)
  {
    hide OutcomeIs, Ready, PassesAt, Buffered, Worst, Tightest, FoundLong;
    forall i | 0 <= i < |rules|
      ensures os[i] in os && (os[i].Rejects? <==> Stands(c, rules[i], column))
      ensures os[i].Rejects? || os[i].Allows? <==> Tested(c, rules[i])
      ensures (os[i].Exempt? <==> Spared(rules[i])) && (os[i].TooLong? <==> FoundLong(c, rules[i]))
    {
      assert OutcomeIs(c, rules[i], os[i]) && Compiled(rules[i]);
      OutcomeTells(c, rules[i], os[i], column);
    }
    forall o | o in os ensures exists i :: 0 <= i < |os| && os[i] == o {}
    if d.Allow? && d.quota.Some? {
      QuotaIsLeast(os, d.quota.value);
    }
  }

  /** The rule exempts the request. */
  predicate Spared(rule: Option<Bound>) {
    rule.Some? && rule.value.exempt
  }

  /** The rule does not exempt the request and finds it too long. */
  ghost predicate FoundLong(c: Context, rule: Option<Bound>) {
    && rule.Some? && !rule.value.exempt && !Ready(c, rule.value.bindings)
    && exists i: nat :: RunsOver(c, rule.value.bindings, i)
  }

  /** The adapter's total is the window sum of the column the rule counts in. */
  ghost predicate Reads(c: Context, spec: Spec, column: Spec -> nat -> nat) {
    spec.bucketMillis > 0 && c.total(spec) == Visible(column(spec), c.now, spec.bucketMillis, spec.liveBuckets)
  }

  /** The rule is tested, enforces its limit and has no room. */
  ghost predicate Stands(c: Context, rule: Option<Bound>, column: Spec -> nat -> nat) {
    && Tested(c, rule) && rule.value.mode == Enforce
    && !PassesAt(rule.value.spec, column(rule.value.spec), c.now)
  }

  lemma OutcomeTells(c: Context, rule: Option<Bound>, o: Outcome, column: Spec -> nat -> nat)
    requires OutcomeIs(c, rule, o) && Compiled(rule) && (rule.Some? ==> Reads(c, rule.value.spec, column))
    ensures o.Rejects? <==> Stands(c, rule, column)
    ensures o.Rejects? || o.Allows? <==> Tested(c, rule)
    ensures (o.Exempt? <==> Spared(rule)) && (o.TooLong? <==> FoundLong(c, rule))
  {
    if rule.Some? {
      hide OutcomeIs, Ready, PassesAt;
      var r := rule.value;
      if r.exempt || !Ready(c, r.bindings) {
        EarlyOutcome(c, r, o);
      } else {
        RejectsIff(c, r, o, column(r.spec));
      }
    }
  }

  lemma QuotaIsLeast(os: seq<Outcome>, q: Snapshot)
    requires Tightest(os, Some(q))
    ensures forall i :: 0 <= i < |os| && os[i].Allows? ==>
              || q.remaining < os[i].snapshot.remaining
              || (q.remaining == os[i].snapshot.remaining && q.spec.windowMillis >= os[i].snapshot.spec.windowMillis)
  {
  }

  /** How many of the outcomes allow the request. */
  function Allowing(os: seq<Outcome>): nat {
    if os == [] then 0 else (if os[0].Allows? then 1 else 0) + Allowing(os[1..])
  }

  lemma {:induction false} AllowingMore(os: seq<Outcome>, o: Outcome)
    ensures Allowing(os + [o]) == Allowing(os) + if o.Allows? then 1 else 0
  {
    if os == [] {
      assert os + [o] == [o] && [o][1..] == [];
    } else {
      AllowingMore(os[1..], o);
      assert (os + [o])[1..] == os[1..] + [o];
    }
  }

  lemma {:induction false} EventsInOrder(os: seq<Outcome>)
    ensures |EventsOf(os)| == Allowing(os)
    ensures forall i :: 0 <= i < |os| && os[i].Allows? ==>
              Allowing(os[..i]) < |EventsOf(os)| && EventsOf(os)[Allowing(os[..i])] == os[i].event
  {
    if os != [] {
      var n := |os| - 1;
      EventsInOrder(os[..n]);
      assert os == os[..n] + [os[n]];
      AllowingMore(os[..n], os[n]);
      forall i | 0 <= i < n && os[i].Allows?
        ensures Allowing(os[..i]) < |EventsOf(os)| && EventsOf(os)[Allowing(os[..i])] == os[i].event
      {
        assert os[..n][i] == os[i] && os[..n][..i] == os[..i];
      }
    }
  }

  /** What is queued: the event of each allowing rule that at most fifteen others precede, in their order; no
      event at all for a rejected request. */
  lemma QueueTells(os: seq<Outcome>, d: Decision, queued: seq<QueueEvent>)
    requires Decided(os, d, queued)
    ensures d.Reject? ==> queued == []
    ensures !d.Reject? ==> |queued| == Min(Allowing(os), 16)
    ensures !d.Reject? ==> forall i :: 0 <= i < |os| && os[i].Allows? && Allowing(os[..i]) < 16 ==>
              Allowing(os[..i]) < |queued| && queued[Allowing(os[..i])] == os[i].event
  {
    hide Worst, Tightest;
    EventsInOrder(os);
    forall i | 0 <= i < |os| ensures os[i] in os {}
    if |EventsOf(os)| > 0 {
      SomeAllows(os);
    }
  }

  lemma {:induction false} SomeAllows(os: seq<Outcome>)
    requires |EventsOf(os)| > 0
    ensures exists o :: o in os && o.Allows?
  {
    var n := |os| - 1;
    assert os[n] in os;
    if !os[n].Allows? {
      SomeAllows(os[..n]);
      var o :| o in os[..n] && o.Allows?;
      assert o in os;
    }
  }

  // -- Runs of requests -----------------------------------------------------------------------------

  /** Hits counted by fingerprint, key and bucket. */
  type Hits = (nat, nat, nat) -> nat

  function ColumnOf(h: Hits, fp: nat, key: nat): nat -> nat {
    (b: nat) => h(fp, key, b)
  }

  /** The hits of a list of events for one cell. */
  function QueuedHits(events: seq<QueueEvent>, fp: nat, key: nat, b: nat): nat {
    if events == [] then 0
    else
      var e := events[|events| - 1];
      QueuedHits(events[..|events| - 1], fp, key, b)
      + if e.fingerprint == fp && e.key == key && e.bucket == b then e.hits else 0
  }

  /** One request: every rule reads the counts so far, and the queue is counted before the next request. */
  ghost predicate RequestStep(h: Hits, c: Context, rules: seq<Option<Bound>>, os: seq<Outcome>, d: Decision,
                              queued: seq<QueueEvent>, next: Hits)
  {
    && OutcomesAre(c, rules, os) && Decided(os, d, queued) && OncePerRequest(rules)
    && (forall i :: 0 <= i < |rules| && rules[i].Some? ==> Counts(h, c, rules[i].value.spec))
    && forall fp: nat, key: nat, b: nat :: next(fp, key, b) == h(fp, key, b) + QueuedHits(queued, fp, key, b)
  }

  ghost predicate Counts(h: Hits, c: Context, spec: Spec) {
    && spec.bucketMillis > 0 && c.now / spec.bucketMillis <= U32_MAX
    && c.total(spec)
       == Visible(ColumnOf(h, spec.fingerprint, c.keyOf(spec)), c.now, spec.bucketMillis, spec.liveBuckets)
  }

  /** No rule is stacked twice. */
  ghost predicate OncePerRequest(rules: seq<Option<Bound>>) {
    forall i, j :: 0 <= i < j < |rules| && rules[i].Some? && rules[j].Some? ==>
      rules[i].value.spec.fingerprint != rules[j].value.spec.fingerprint
  }

  /** A rule with a fingerprint of its own, enforced wherever it is used. */
  ghost predicate EnforcedAs(rules: seq<Option<Bound>>, spec: Spec) {
    forall i :: 0 <= i < |rules| && rules[i].Some? && rules[i].value.spec.fingerprint == spec.fingerprint ==>
      rules[i].value.spec == spec && rules[i].value.mode == Enforce
  }

  /** A rule's own event is the only one that adds to its cells. */
  lemma {:induction false} EventHits(c: Context, rules: seq<Option<Bound>>, os: seq<Outcome>, fp: nat, key: nat, b: nat)
    requires OutcomesAre(c, rules, os) && OncePerRequest(rules)
    ensures (forall i :: 0 <= i < |os| && os[i].Allows? ==> os[i].event.fingerprint != fp) ==>
              QueuedHits(EventsOf(os), fp, key, b) == 0
    ensures forall i :: 0 <= i < |os| && os[i].Allows? && os[i].event.fingerprint == fp ==>
              QueuedHits(EventsOf(os), fp, key, b) == if os[i].event.key == key && os[i].event.bucket == b then 1 else 0
  {
    hide OutcomeIs;
    if os != [] {
      var n := |os| - 1;
      EventHits(c, rules[..n], os[..n], fp, key, b);
      forall i | 0 <= i < n && os[i].Allows?
        ensures os[..n][i] == os[i] && (os[n].Allows? ==> os[i].event.fingerprint != os[n].event.fingerprint)
      {
        assert OutcomeIs(c, rules[i], os[i]) && OutcomeIs(c, rules[n], os[n]);
        AllowedBy(c, rules[i], os[i]);
        if os[n].Allows? {
          AllowedBy(c, rules[n], os[n]);
        }
      }
      if os[n].Allows? {
        assert OutcomeIs(c, rules[n], os[n]);
        AllowedBy(c, rules[n], os[n]);
        assert (EventsOf(os[..n]) + [os[n].event])[..|EventsOf(os[..n])|] == EventsOf(os[..n]);
      }
    }
  }

  lemma AllowedBy(c: Context, rule: Option<Bound>, o: Outcome)
    requires OutcomeIs(c, rule, o) && o.Allows?
    ensures rule.Some? && o.event.fingerprint == rule.value.spec.fingerprint && o.event.hits == 1
  {
    if rule.Some? {
      hide OutcomeIs;
      AllowanceTells(c, rule.value, o);
    }
  }

  lemma {:induction false} PrefixQueues(events: seq<QueueEvent>, n: nat, fp: nat, key: nat, b: nat)
    requires n <= |events|
    ensures QueuedHits(events[..n], fp, key, b) <= QueuedHits(events, fp, key, b)
  {
    if n == |events| {
      assert events[..n] == events;
    } else {
      assert events[..|events| - 1][..n] == events[..n];
      PrefixQueues(events[..|events| - 1], n, fp, key, b);
    }
  }

  /** What one request adds to a rule's cells: at most one hit, now, and only when its window has room. */
  lemma RequestAdds(h: Hits, c: Context, rules: seq<Option<Bound>>, os: seq<Outcome>, d: Decision,
                    queued: seq<QueueEvent>, next: Hits, spec: Spec, key: nat, b: nat)
    requires RequestStep(h, c, rules, os, d, queued, next) && EnforcedAs(rules, spec) && Clocks(spec, c.now)
    ensures QueuedHits(queued, spec.fingerprint, key, b) <= if b == c.now / spec.bucketMillis then 1 else 0
    ensures QueuedHits(queued, spec.fingerprint, key, b) > 0 ==>
              PassesAt(spec, ColumnOf(h, spec.fingerprint, key), c.now)
  {
    hide OutcomeIs, Decided, PassesAt, Counts, QueuedHits;
    var fp := spec.fingerprint;
    QueuedAtMost(os, d, queued, fp, key, b);
    EventHits(c, rules, os, fp, key, b);
    if i :| 0 <= i < |os| && os[i].Allows? && os[i].event.fingerprint == fp {
      assert OutcomeIs(c, rules[i], os[i]);
      AllowedBy(c, rules[i], os[i]);
      assert Counts(h, c, rules[i].value.spec);
      OwnEvent(h, c, rules[i].value, os[i]);
    }
  }

  /** The rule's clock: some buckets, and epochs within 32 bits. */
  predicate Clocks(spec: Spec, now: nat) {
    spec.bucketMillis > 0 && spec.liveBuckets > 0 && now / spec.bucketMillis <= U32_MAX
  }

  lemma QueuedAtMost(os: seq<Outcome>, d: Decision, queued: seq<QueueEvent>, fp: nat, key: nat, b: nat)
    requires Decided(os, d, queued)
    ensures QueuedHits(queued, fp, key, b) <= QueuedHits(EventsOf(os), fp, key, b)
  {
    PrefixQueues(EventsOf(os), Min(|EventsOf(os)|, MAX_MATCHED_RULES), fp, key, b);
  }

  lemma OwnEvent(h: Hits, c: Context, r: Bound, o: Outcome)
    requires OutcomeIs(c, Some(r), o) && o.Allows? && r.mode == Enforce && Counts(h, c, r.spec)
    ensures o.event.key == c.keyOf(r.spec) && o.event.bucket == c.now / r.spec.bucketMillis
    ensures PassesAt(r.spec, ColumnOf(h, r.spec.fingerprint, o.event.key), c.now)
  {
    hide OutcomeIs, Ready, PassesAt, Visible;
    AllowanceTells(c, r, o);
    RejectsIff(c, r, o, ColumnOf(h, r.spec.fingerprint, c.keyOf(r.spec)));
  }

  /** Nothing counted ahead of the clock, and no window of the rule and key above the limit. */
  ghost predicate LimitHolds(h: Hits, spec: Spec, key: nat, now: nat)
    requires spec.bucketMillis > 0
  {
    var column := ColumnOf(h, spec.fingerprint, key);
    Past(column, now / spec.bucketMillis) && SpansWithin(column, spec.liveBuckets, spec.limit)
  }

  lemma RequestKeepsLimit(h: Hits, was: nat, c: Context, rules: seq<Option<Bound>>, os: seq<Outcome>, d: Decision,
                          queued: seq<QueueEvent>, next: Hits, spec: Spec, key: nat)
    requires RequestStep(h, c, rules, os, d, queued, next) && EnforcedAs(rules, spec) && Clocks(spec, c.now)
    requires was <= c.now && spec.limit < U64_MAX && LimitHolds(h, spec, key, was)
    ensures LimitHolds(next, spec, key, c.now)
  {
    hide RequestStep, EnforcedAs, Past, SpansWithin;
    var fp, bm, cur := spec.fingerprint, spec.bucketMillis, c.now / spec.bucketMillis;
    var column, after := ColumnOf(h, fp, key), ColumnOf(next, fp, key);
    var hits := QueuedHits(queued, fp, key, cur);
    DivMonotone(was, c.now, bm);
    forall b: nat ensures after(b) == column(b) + if b == cur then hits else 0 {
      StepCounts(h, c, rules, os, d, queued, next, fp, key, b);
      RequestAdds(h, c, rules, os, d, queued, next, spec, key, b);
    }
    RequestAdds(h, c, rules, os, d, queued, next, spec, key, cur);
    if hits > 0 {
      EpochFits(c.now, bm);
    }
    RuleKept(column, after, was / bm, cur, spec.liveBuckets, spec.limit, hits);
  }

  lemma StepCounts(h: Hits, c: Context, rules: seq<Option<Bound>>, os: seq<Outcome>, d: Decision,
                   queued: seq<QueueEvent>, next: Hits, fp: nat, key: nat, b: nat)
    requires RequestStep(h, c, rules, os, d, queued, next)
    ensures next(fp, key, b) == h(fp, key, b) + QueuedHits(queued, fp, key, b)
  {
    hide QueuedHits, OutcomesAre, Decided, Counts;
  }

  /** A request as it was decided. */
  datatype Served = Served(
    c: Context, rules: seq<Option<Bound>>, os: seq<Outcome>, d: Decision, queued: seq<QueueEvent>)

  ghost predicate AccessRun(counts: seq<Hits>, run: seq<Served>, spec: Spec) {
    && |counts| == |run| + 1 && (forall fp: nat, key: nat, b: nat :: counts[0](fp, key, b) == 0)
    && (forall i :: 0 <= i < |run| ==>
          && RequestStep(counts[i], run[i].c, run[i].rules, run[i].os, run[i].d, run[i].queued, counts[i + 1])
          && EnforcedAs(run[i].rules, spec) && Clocks(spec, run[i].c.now))
    && forall i :: 0 < i < |run| ==> run[i - 1].c.now <= run[i].c.now
  }

  /** Over any run of requests, each counted before the next, on a clock that does not run backwards: the hits
      counted for an enforced rule and a key never exceed its limit in any `liveBuckets` consecutive buckets. */
  lemma {:induction false} AccessKeepsLimit(counts: seq<Hits>, run: seq<Served>, spec: Spec, key: nat, n: nat)
    requires AccessRun(counts, run, spec) && n <= |run| && spec.limit < U64_MAX
    requires spec.bucketMillis > 0 && spec.liveBuckets > 0
    ensures LimitHolds(counts[n], spec, key, if n == 0 then 0 else run[n - 1].c.now)
  {
    hide RequestStep, EnforcedAs;
    if n == 0 {
      var column := ColumnOf(counts[0], spec.fingerprint, key);
      forall lo: nat ensures Span(column, lo, spec.liveBuckets) <= spec.limit {
        SumOfNothing(column, lo, lo + spec.liveBuckets);
      }
    } else {
      hide LimitHolds;
      AccessKeepsLimit(counts, run, spec, key, n - 1);
      var s := run[n - 1];
      RequestKeepsLimit(counts[n - 1], if n == 1 then 0 else run[n - 2].c.now, s.c, s.rules, s.os, s.d, s.queued,
                        counts[n], spec, key);
    }
  }
}
