/** Admission in the server (`SharedLimiter::evaluate`): read the window of every matching rule, reject
    on the first enforcing rule that is over its limit, otherwise record. */
module Admission {
  import opened Base
  import opened Cells
  import opened Windows
  import opened Aggregates

  const MAX_MATCHED_RULES: nat := 16

  datatype Mode = Enforce | DryRun | Disabled

  /** A descriptor, or a pattern of one. A character is a byte. */
  datatype Descriptor = Descriptor(key: string, value: string)
  {
    /** As a pattern; the value "*" matches any value. */
    predicate Accepts(d: Descriptor) {
      key == d.key && (value == "*" || value == d.value)
    }
  }

  datatype Rule = Rule(
    id: nat, fingerprint: nat, domainHash: nat, patterns: seq<Descriptor>,
    limit: nat, windowMillis: nat, bucketMillis: nat, liveBuckets: nat, mode: Mode)

  /** What decides which rules a request matches and which keys it counts under. */
  datatype Shape = Shape(domain: string, descriptors: seq<Descriptor>)

  datatype CardinalityLimits = CardinalityLimits(maxDescriptorCount: nat, maxDescriptorBytes: nat, maxKeyBytes: nat)

  /** What is the same for every request: the bounds on shapes, `hash_domain` and `hash_key`. */
  datatype Process = Process(limits: CardinalityLimits, hashDomain: string -> nat, hashKey: (nat, Shape) -> nat)

  datatype Request = Request(shape: Shape, hits: nat, now: nat, process: Process)
  {
    predicate Matches(r: Rule) {
      && r.domainHash == process.hashDomain(shape.domain) && |r.patterns| == |shape.descriptors|
      && forall i :: 0 <= i < |r.patterns| ==> r.patterns[i].Accepts(shape.descriptors[i])
    }

    function KeyOf(id: nat): nat {
      process.hashKey(id, shape)
    }

    /** Too many descriptors, a key too long, or too many bytes in all. */
    predicate TooMany() {
      || |shape.descriptors| > process.limits.maxDescriptorCount
      || (exists i :: 0 <= i < |shape.descriptors| && |shape.descriptors[i].key| > process.limits.maxKeyBytes)
      || (shape.descriptors != [] && Min(Bytes(shape), U64_MAX) > process.limits.maxDescriptorBytes)
    }
  }

  function Bytes(shape: Shape): nat {
    |shape.domain| + DescriptorBytes(shape.descriptors)
  }

  function DescriptorBytes(ds: seq<Descriptor>): nat {
    if ds == [] then 0
    else DescriptorBytes(ds[..|ds| - 1]) + |ds[|ds| - 1].key| + |ds[|ds| - 1].value|
  }

  datatype Quota = Quota(limit: nat, remaining: nat, resetMillis: nat)

  datatype RejectReason = Cardinality | GlobalLimit

  datatype Decision = Allow(tightest: Option<Quota>) | Reject(reason: RejectReason, context: Option<Quota>)

  datatype Record = Record(fingerprint: nat, key: nat, bucket: nat, hits: nat)

  /** As `Rule::new` builds them: at least one bucket of at least one millisecond, enough of them to span the
      window; limits are 64-bit. */
  ghost predicate Usable(rules: seq<Rule>) {
    forall i :: 0 <= i < |rules| ==>
      && rules[i].bucketMillis > 0 && rules[i].liveBuckets > 0 && rules[i].limit <= U64_MAX
      && Spans(rules[i].liveBuckets, rules[i].windowMillis, rules[i].bucketMillis)
  }

  /** `RuleTable::matching`, in declaration order. */
  function Matching(table: seq<Rule>, req: Request): (ms: seq<Rule>)
    ensures forall r :: r in ms <==> r in table && r.mode != Disabled && req.Matches(r)
    ensures |ms| <= |table|
  {
    if table == [] then []
    else
      var ms := Matching(table[..|table| - 1], req);
      var r := table[|table| - 1];
      if r.mode != Disabled && req.Matches(r) then ms + [r] else ms
  }

  /** Declaration order: a matching rule comes right behind the matches among the rules before it. */
  lemma {:induction false} MatchingAt(table: seq<Rule>, req: Request, p: nat)
    requires p < |table| && table[p].mode != Disabled && req.Matches(table[p])
    ensures
      var ms, q := Matching(table, req), |Matching(table[..p], req)|;
      q < |ms| && ms[q] == table[p] && ms[..q] == Matching(table[..p], req)
  {
    hide Matching;
    var n := |table| - 1;
    MatchingLast(table, req);
    if p < n {
      assert table[..n][..p] == table[..p];
      MatchingAt(table[..n], req, p);
    }
  }

  /** Which rules match depends on the shape alone. */
  lemma {:induction false} MatchingByShape(table: seq<Rule>, a: Request, b: Request)
    requires a.shape == b.shape && a.process == b.process
    ensures Matching(table, a) == Matching(table, b)
  {
    if table != [] {
      MatchingByShape(table[..|table| - 1], a, b);
    }
  }

  lemma MatchingLast(table: seq<Rule>, req: Request)
    requires table != []
    ensures
      var n := |table| - 1;
      Matching(table, req)
      == Matching(table[..n], req) + if table[n].mode != Disabled && req.Matches(table[n]) then [table[n]] else []
  {
  }

  ghost function TotalOf(a: Aggregate, r: Rule, req: Request): nat
    requires r.bucketMillis > 0
  {
    Visible(Buckets(a, r.fingerprint, req.KeyOf(r.id)), req.now, r.bucketMillis, r.liveBuckets)
  }

  /** An enforcing rule without room for the request. */
  ghost predicate Over(a: Aggregate, r: Rule, req: Request)
    requires r.bucketMillis > 0
  {
    r.mode == Enforce && SatAdd(TotalOf(a, r, req), req.hits, U64_MAX) > r.limit
  }

  ghost function Remaining(a: Aggregate, r: Rule, req: Request): nat
    requires r.bucketMillis > 0
  {
    SatSub(SatSub(r.limit, TotalOf(a, r, req)), req.hits)
  }

  ghost function QuotaOf(a: Aggregate, r: Rule, req: Request): Quota
    requires r.bucketMillis > 0
  {
    Quota(r.limit, Remaining(a, r, req), UntilNextBoundary(req.now, r.bucketMillis))
  }

  function RecordOf(r: Rule, req: Request): Record
    requires r.bucketMillis > 0
  {
    Record(r.fingerprint, req.KeyOf(r.id), Epoch(req.now, r.bucketMillis), req.hits)
  }

  /** The rules looked at: one more than fits in the plan. */
  function Considered(ms: seq<Rule>): seq<Rule> {
    ms[..Min(|ms|, MAX_MATCHED_RULES + 1)]
  }

  /** `pick_min_remaining_ctx`: ties keep the earlier rule. */
  function PickMinRemaining(current: Option<Quota>, candidate: Quota): Quota {
    if current.Some? && current.value.remaining <= candidate.remaining then current.value else candidate
  }

  ghost function QuotasOf(a: Aggregate, rules: seq<Rule>, req: Request): (qs: seq<Quota>)
    requires Usable(rules)
    ensures |qs| == |rules| && forall i :: 0 <= i < |qs| ==> qs[i] == QuotaOf(a, rules[i], req)
  {
    seq(|rules|, i requires 0 <= i < |rules| => QuotaOf(a, rules[i], req))
  }

  ghost predicate FirstLeast(qs: seq<Quota>, i: nat) {
    && i < |qs| && (forall j :: 0 <= j < |qs| ==> qs[i].remaining <= qs[j].remaining)
    && (forall j :: 0 <= j < i ==> qs[i].remaining < qs[j].remaining)
  }

  /** `q` is the first quota with the least remaining. */
  ghost predicate Tightest(qs: seq<Quota>, q: Option<Quota>) {
    if qs == [] then q == None else exists i: nat :: FirstLeast(qs, i) && q == Some(qs[i])
  }

  lemma TightestMore(qs: seq<Quota>, q: Option<Quota>, candidate: Quota)
    requires Tightest(qs, q)
    ensures Tightest(qs + [candidate], Some(PickMinRemaining(q, candidate)))
  {
    var more := qs + [candidate];
    if qs == [] {
      assert FirstLeast(more, 0);
    } else {
      var i: nat :| FirstLeast(qs, i) && q == Some(qs[i]);
      var w := if qs[i].remaining <= candidate.remaining then i else |qs|;
      assert FirstLeast(more, w);
    }
  }

  function RecordsOf(rules: seq<Rule>, req: Request): (rs: seq<Record>)
    requires Usable(rules)
    ensures |rs| == |rules| && forall i :: 0 <= i < |rs| ==> rs[i] == RecordOf(rules[i], req)
  {
    seq(|rules|, i requires 0 <= i < |rules| => RecordOf(rules[i], req))
  }

  ghost function RejectQuota(a: Aggregate, r: Rule, req: Request): Quota
    requires r.bucketMillis > 0
  {
    var c := Buckets(a, r.fingerprint, req.KeyOf(r.id));
    Quota(r.limit, SatSub(r.limit, TotalOf(a, r, req)),
          AdmitDelay(c, req.now, r.bucketMillis, Max(r.liveBuckets, 1), r.limit, TotalOf(a, r, req), req.hits))
  }

  /** The first enforcing rule over its limit. */
  ghost predicate FirstOver(a: Aggregate, ms: seq<Rule>, req: Request, i: nat)
    requires Usable(ms)
  {
    i < |ms| && Over(a, ms[i], req) && forall j :: 0 <= j < i ==> !Over(a, ms[j], req)
  }

  /** The whole decision: which rule rejects, what it reports, what is recorded. */
  ghost predicate Decided(a: Aggregate, ms: seq<Rule>, req: Request, d: Decision, plan: seq<Record>)
    requires Usable(ms)
  {
    if req.TooMany() then d == Reject(Cardinality, None) && plan == []
    else if d.Allow? then
      && (forall r :: r in Considered(ms) ==> r.bucketMillis > 0 && !Over(a, r, req))
      && Tightest(QuotasOf(a, Considered(ms), req), d.tightest)
      && plan == RecordsOf(ms[..Min(|ms|, MAX_MATCHED_RULES)], req)
    else
      && d.reason == GlobalLimit && plan == []
      && exists i: nat :: FirstOver(a, Considered(ms), req, i) && d.context == Some(RejectQuota(a, ms[i], req))
  }

  /** The first `i` rules have been read. */
  ghost predicate Walked(a: Aggregate, ms: seq<Rule>, req: Request, i: nat, tightest: Option<Quota>, plan: seq<Record>)
    requires Usable(ms) && i <= |ms|
  {
    && (forall j :: 0 <= j < i ==> !Over(a, ms[j], req))
    && Tightest(QuotasOf(a, ms[..i], req), tightest) && plan == RecordsOf(ms[..i], req)
  }

  lemma WalkOn(a: Aggregate, ms: seq<Rule>, req: Request, i: nat, tightest: Option<Quota>, plan: seq<Record>)
    requires Usable(ms) && i < |ms| && Walked(a, ms, req, i, tightest, plan) && !Over(a, ms[i], req)
    ensures
      var next := Some(PickMinRemaining(tightest, QuotaOf(a, ms[i], req)));
      && Walked(a, ms, req, i + 1, next, plan + [RecordOf(ms[i], req)])
      && Tightest(QuotasOf(a, ms[..i + 1], req), next)
  {
    hide Tightest, Over, Remaining;
    assert ms[..i + 1] == ms[..i] + [ms[i]];
    assert QuotasOf(a, ms[..i + 1], req) == QuotasOf(a, ms[..i], req) + [QuotaOf(a, ms[i], req)];
    TightestMore(QuotasOf(a, ms[..i], req), tightest, QuotaOf(a, ms[i], req));
    assert RecordsOf(ms[..i + 1], req) == RecordsOf(ms[..i], req) + [RecordOf(ms[i], req)];
  }

  lemma WalkEnds(a: Aggregate, ms: seq<Rule>, req: Request, i: nat, tightest: Option<Quota>, plan: seq<Record>)
    requires Usable(ms) && i == |Considered(ms)| && Walked(a, ms, req, i, tightest, plan) && !req.TooMany()
    ensures Decided(a, ms, req, Allow(tightest), plan[..Min(|plan|, MAX_MATCHED_RULES)])
  {
    hide Tightest, Over;
    forall r | r in Considered(ms) ensures r.bucketMillis > 0 && !Over(a, r, req) {
      var j :| 0 <= j < i && ms[j] == r;
    }
    var n := Min(|ms|, MAX_MATCHED_RULES);
    assert plan[..Min(|plan|, MAX_MATCHED_RULES)] == RecordsOf(ms[..n], req);
  }

  lemma MatchingUsable(table: seq<Rule>, req: Request)
    requires Usable(table)
    ensures Usable(Matching(table, req))
  {
    var ms := Matching(table, req);
    forall i | 0 <= i < |ms|
      ensures ms[i].bucketMillis > 0 && ms[i].liveBuckets > 0 && ms[i].limit <= U64_MAX
      ensures Spans(ms[i].liveBuckets, ms[i].windowMillis, ms[i].bucketMillis)
    {
      assert ms[i] in ms;
      var j :| 0 <= j < |table| && table[j] == ms[i];
    }
  }

  lemma {:induction false} BytesGrow(ds: seq<Descriptor>, i: nat)
    requires i <= |ds|
    ensures DescriptorBytes(ds[..i]) <= DescriptorBytes(ds)
  {
    if i == |ds| {
      assert ds[..i] == ds;
    } else {
      assert ds[..|ds| - 1][..i] == ds[..i];
      BytesGrow(ds[..|ds| - 1], i);
    }
  }

  /** `violates_cardinality`: the running byte count stops at the first descriptor beyond the bound. */
  method ViolatesCardinality(req: Request) returns (violates: bool)
    ensures violates == req.TooMany()
  {
    var ds, limits := req.shape.descriptors, req.process.limits;
    if |ds| > limits.maxDescriptorCount {
      return true;
    }
    var bytes := Min(|req.shape.domain|, U64_MAX);
    for i := 0 to |ds|
      invariant bytes == Min(|req.shape.domain| + DescriptorBytes(ds[..i]), U64_MAX)
      invariant forall j :: 0 <= j < i ==> |ds[j].key| <= limits.maxKeyBytes
      invariant i > 0 ==> bytes <= limits.maxDescriptorBytes
    {
      if |ds[i].key| > limits.maxKeyBytes {
        return true;
      }
      assert ds[..i + 1][..i] == ds[..i];
      bytes := SatAdd(SatAdd(bytes, |ds[i].key|, U64_MAX), |ds[i].value|, U64_MAX);
      if bytes > limits.maxDescriptorBytes {
        BytesGrow(ds, i + 1);
        return true;
      }
    }
    assert ds[..|ds|] == ds;
    return false;
  }

  /** One rule read: over its limit with the time to retry, or the quota left. */
  method Assess(counts: DashMapStore, rule: Rule, req: Request) returns (over: bool, quota: Quota)
    requires rule.bucketMillis > 0
    ensures over == Over(counts.cells, rule, req)
    ensures quota == if over then RejectQuota(counts.cells, rule, req) else QuotaOf(counts.cells, rule, req)
  {
    hide Visible, AdmitDelay, UntilNextBoundary;
    var key := req.KeyOf(rule.id);
    var total := counts.WindowTotal(rule.fingerprint, key, req.now, rule.bucketMillis, rule.liveBuckets);
    over := SatAdd(total, req.hits, U64_MAX) > rule.limit && rule.mode == Enforce;
    if over {
      var delay := counts.TimeUntilAdmitMillis(rule.fingerprint, key, req.now, rule.bucketMillis, rule.liveBuckets,
                                               rule.limit, total, req.hits);
      quota := Quota(rule.limit, SatSub(rule.limit, total), delay);
    } else {
      var remaining := SatSub(SatSub(rule.limit, total), req.hits);
      quota := Quota(rule.limit, remaining, UntilNextBoundary(req.now, rule.bucketMillis));
    }
  }

  /** Pass 1 of `evaluate`. */
  method Decide(counts: DashMapStore, table: seq<Rule>, req: Request) returns (d: Decision, plan: seq<Record>)
    requires Usable(table)
    ensures Usable(Matching(table, req)) && Decided(counts.cells, Matching(table, req), req, d, plan)
  {
    hide Over, QuotaOf, RejectQuota, Tightest, Matching;
    var ms := Matching(table, req);
    MatchingUsable(table, req);
    plan := [];
    var refused := ViolatesCardinality(req);
    if refused {
      return Reject(Cardinality, None), [];
    }
    var tightest: Option<Quota> := None;
    var i: nat := 0;
    NothingWalked(counts.cells, ms, req);
    while i < |ms|
      invariant i <= |ms| && i <= MAX_MATCHED_RULES
      invariant Walked(counts.cells, ms, req, i, tightest, plan)
    {
      var over, quota := Assess(counts, ms[i], req);
      if over {
        assert FirstOver(counts.cells, Considered(ms), req, i);
        return Reject(GlobalLimit, Some(quota)), [];
      }
      WalkOn(counts.cells, ms, req, i, tightest, plan);
      tightest := Some(PickMinRemaining(tightest, quota));
      if |plan| == MAX_MATCHED_RULES {
        WalkEnds(counts.cells, ms, req, i + 1, tightest, plan + [RecordOf(ms[i], req)]);
        assert (plan + [RecordOf(ms[i], req)])[..MAX_MATCHED_RULES] == plan;
        return Allow(tightest), plan;
      }
      plan := plan + [RecordOf(ms[i], req)];
      i := i + 1;
    }
    WalkEnds(counts.cells, ms, req, i, tightest, plan);
    assert plan[..|plan|] == plan;
    return Allow(tightest), plan;
  }

  lemma NothingWalked(a: Aggregate, ms: seq<Rule>, req: Request)
    requires Usable(ms)
    ensures Walked(a, ms, req, 0, None, [])
  {
  }

  /** A request no considered rule rejects is allowed. */
  lemma AllowExists(a: Aggregate, ms: seq<Rule>, req: Request) returns (d: Decision)
    requires Usable(ms) && !req.TooMany() && forall r :: r in Considered(ms) ==> r.bucketMillis > 0 && !Over(a, r, req)
    ensures d.Allow? && Decided(a, ms, req, d, RecordsOf(ms[..Min(|ms|, MAX_MATCHED_RULES)], req))
  {
    hide Over, Tightest;
    var tightest := WalkTo(a, ms, req, |Considered(ms)|);
    var plan := RecordsOf(Considered(ms), req);
    WalkEnds(a, ms, req, |Considered(ms)|, tightest, plan);
    assert plan[..Min(|plan|, MAX_MATCHED_RULES)] == RecordsOf(ms[..Min(|ms|, MAX_MATCHED_RULES)], req);
    d := Allow(tightest);
  }

  lemma {:induction false} WalkTo(a: Aggregate, ms: seq<Rule>, req: Request, n: nat) returns (tightest: Option<Quota>)
    requires Usable(ms) && n <= |Considered(ms)|
    requires forall r :: r in Considered(ms) ==> r.bucketMillis > 0 && !Over(a, r, req)
    ensures Walked(a, ms, req, n, tightest, RecordsOf(ms[..n], req))
  {
    if n == 0 {
      NothingWalked(a, ms, req);
      tightest := None;
    } else {
      hide Over, Tightest;
      var before := WalkTo(a, ms, req, n - 1);
      assert Considered(ms)[n - 1] in Considered(ms);
      WalkOn(a, ms, req, n - 1, before, RecordsOf(ms[..n - 1], req));
      tightest := Some(PickMinRemaining(before, QuotaOf(a, ms[n - 1], req)));
      assert RecordsOf(ms[..n - 1], req) + [RecordOf(ms[n - 1], req)] == RecordsOf(ms[..n], req);
    }
  }
}
