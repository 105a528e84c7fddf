/** What the server's answer means to a client, in terms of descriptors, hits and times only. */
module Verdicts {
  import opened Base
  import opened Windows
  import opened Aggregates
  import opened Admission

  // -- Which rules apply --------------------------------------------------------------------------

  /** The patterns with every wildcard filled in from the request. */
  function Filled(patterns: seq<Descriptor>, ds: seq<Descriptor>): seq<Descriptor>
    requires |patterns| == |ds|
  {
    seq(|patterns|, i requires 0 <= i < |patterns| =>
      if patterns[i].value == "*" then Descriptor(patterns[i].key, ds[i].value) else patterns[i])
  }

  /** A rule applies exactly when it is configured and not disabled, its domain hash is that of the request,
      and its patterns, wildcards filled in, are the request's descriptors. */
  lemma AppliesIff(table: seq<Rule>, req: Request, r: Rule)
    ensures r in Matching(table, req)
            <==> && r in table && r.mode != Disabled && r.domainHash == req.process.hashDomain(req.shape.domain)
                 && |r.patterns| == |req.shape.descriptors|
                 && Filled(r.patterns, req.shape.descriptors) == req.shape.descriptors
  {
    hide Matching;
    var ds := req.shape.descriptors;
    if |r.patterns| == |ds| {
      var filled := Filled(r.patterns, ds);
      if filled == ds {
        forall i | 0 <= i < |ds| ensures r.patterns[i].Accepts(ds[i]) {
          assert filled[i] == ds[i];
        }
      } else if req.Matches(r) {
        forall i | 0 <= i < |ds| ensures filled[i] == ds[i] {
          assert r.patterns[i].Accepts(ds[i]);
        }
      }
    }
  }

  /** Without wildcards, exactly on equal descriptors. */
  lemma LiteralApplies(table: seq<Rule>, req: Request, r: Rule)
    requires forall i :: 0 <= i < |r.patterns| ==> r.patterns[i].value != "*"
    ensures r in Matching(table, req)
            <==> && r in table && r.mode != Disabled && r.domainHash == req.process.hashDomain(req.shape.domain)
                 && r.patterns == req.shape.descriptors
  {
    hide Matching;
    AppliesIff(table, req, r);
    if |r.patterns| == |req.shape.descriptors| {
      assert Filled(r.patterns, req.shape.descriptors) == r.patterns;
    }
  }

  /** The request with another value in one descriptor. */
  function WithValue(req: Request, i: nat, value: string): Request
    requires i < |req.shape.descriptors|
  {
    req.(shape := Shape(req.shape.domain, req.shape.descriptors[i := Descriptor(req.shape.descriptors[i].key, value)]))
  }

  /** Another value makes no difference to a rule with a wildcard there, and takes any other rule out. */
  lemma ValueMatters(table: seq<Rule>, req: Request, r: Rule, i: nat, value: string)
    requires i < |req.shape.descriptors| && r in Matching(table, req)
    ensures i < |r.patterns|
    ensures r.patterns[i].value == "*" ==> r in Matching(table, WithValue(req, i, value))
    ensures r.patterns[i].value != "*" && value != req.shape.descriptors[i].value ==>
              r !in Matching(table, WithValue(req, i, value))
  {
    hide Matching;
    var other, ds := WithValue(req, i, value), req.shape.descriptors;
    AppliesIff(table, req, r);
    AppliesIff(table, other, r);
    var filled, again := Filled(r.patterns, ds), Filled(r.patterns, other.shape.descriptors);
    assert filled[i] == ds[i];
    if r.patterns[i].value == "*" {
      forall j | 0 <= j < |ds| ensures again[j] == other.shape.descriptors[j] {
        assert filled[j] == ds[j];
      }
    } else if value != ds[i].value {
      assert again[i] == filled[i] != other.shape.descriptors[i];
    }
  }

  /** All the text of a shape, end to end. */
  function Text(shape: Shape): string {
    shape.domain + TextOf(shape.descriptors)
  }

  function TextOf(ds: seq<Descriptor>): string {
    if ds == [] then "" else ds[0].key + ds[0].value + TextOf(ds[1..])
  }

  lemma {:induction false} BytesOfText(ds: seq<Descriptor>)
    ensures DescriptorBytes(ds) == |TextOf(ds)|
  {
    if ds != [] {
      BytesOfText(ds[1..]);
      BytesFirst(ds);
    }
  }

  lemma {:induction false} BytesFirst(ds: seq<Descriptor>)
    requires ds != []
    ensures DescriptorBytes(ds) == |ds[0].key| + |ds[0].value| + DescriptorBytes(ds[1..])
  {
    var n := |ds| - 1;
    if n == 0 {
      assert ds[..0] == [] && ds[1..] == [];
    } else {
      BytesFirst(ds[..n]);
      assert ds[..n][1..] == ds[1..][..n - 1];
    }
  }

  /** Beyond a bound: too many descriptors, one with too long a key, or too much text in all, which a bound of
      the 64-bit maximum cannot notice. */
  ghost predicate Beyond(req: Request) {
    var ds, limits := req.shape.descriptors, req.process.limits;
    || |ds| > limits.maxDescriptorCount
    || (exists d :: d in ds && |d.key| > limits.maxKeyBytes)
    || (ds != [] && |Text(req.shape)| > limits.maxDescriptorBytes && limits.maxDescriptorBytes < U64_MAX)
  }

  lemma BeyondIff(req: Request)
    ensures req.TooMany() <==> Beyond(req)
  {
    var ds, limits := req.shape.descriptors, req.process.limits;
    BytesOfText(ds);
    if d :| d in ds && |d.key| > limits.maxKeyBytes {
      var i :| 0 <= i < |ds| && ds[i] == d;
    }
  }

  /** Exactly the requests beyond a bound are turned away for their descriptors, whatever the counts, with no
      quota to report and nothing to record. */
  lemma TurnedAwayIff(a: Aggregate, ms: seq<Rule>, req: Request, d: Decision, plan: seq<Record>)
    requires Usable(ms) && Decided(a, ms, req, d, plan)
    ensures d.Reject? && d.reason == Cardinality <==> Beyond(req)
    ensures Beyond(req) ==> d.context == None && plan == []
  {
    hide Beyond, Tightest, Spans, Over;
    BeyondIff(req);
  }

  // -- What a rejection tells ---------------------------------------------------------------------

  /** The hits counted for the rule and the request's key, bucket by bucket. */
  ghost function Counted(a: Aggregate, r: Rule, req: Request): nat -> nat {
    Buckets(a, r.fingerprint, req.KeyOf(r.id))
  }

  /** The rule has room for the request at its own time. */
  ghost predicate HasRoom(a: Aggregate, r: Rule, req: Request) {
    r.bucketMillis > 0 && Admits(Counted(a, r, req), req.now, r.bucketMillis, r.liveBuckets, r.limit, req.hits)
  }

  /** The first of the seventeen rules looked at that enforces its limit and has no room. */
  ghost predicate Refuses(a: Aggregate, ms: seq<Rule>, req: Request, i: nat) {
    && i < |ms| && i <= 16 && ms[i].mode == Enforce && !HasRoom(a, ms[i], req)
    && forall j :: 0 <= j < i && ms[j].mode == Enforce ==> HasRoom(a, ms[j], req)
  }

  lemma OverIsNoRoom(a: Aggregate, r: Rule, req: Request)
    requires r.bucketMillis > 0
    ensures Over(a, r, req) <==> r.mode == Enforce && !HasRoom(a, r, req)
  {
  }

  /** In an admitted request every enforcing rule looked at has room. */
  lemma AdmittedHasRoom(a: Aggregate, ms: seq<Rule>, req: Request, d: Decision, plan: seq<Record>, i: nat)
    requires Usable(ms) && Decided(a, ms, req, d, plan) && d.Allow? && i < |ms| && i <= 16 && ms[i].mode == Enforce
    ensures HasRoom(a, ms[i], req)
  {
    hide Over, HasRoom, Tightest, Spans;
    assert Considered(ms)[i] == ms[i];
    OverIsNoRoom(a, ms[i], req);
  }

  /** Rejected for a limit exactly when some rule refuses, and admitted otherwise. */
  lemma RejectedIff(a: Aggregate, ms: seq<Rule>, req: Request, d: Decision, plan: seq<Record>)
    requires Usable(ms) && Decided(a, ms, req, d, plan) && !Beyond(req)
    ensures d.Reject? <==> exists i: nat :: Refuses(a, ms, req, i)
  {
    hide Over, HasRoom, Tightest, Spans, RejectQuota, QuotaOf, Beyond;
    BeyondIff(req);
    if d.Reject? {
      var i: nat :| FirstOver(a, Considered(ms), req, i) && d.context == Some(RejectQuota(a, ms[i], req));
      forall j: nat | j <= i
        ensures Considered(ms)[j] == ms[j] && ms[j].bucketMillis > 0
        ensures Over(a, ms[j], req) <==> ms[j].mode == Enforce && !HasRoom(a, ms[j], req)
      {
        OverIsNoRoom(a, ms[j], req);
      }
      assert Refuses(a, ms, req, i);
    } else {
      forall i: nat ensures !Refuses(a, ms, req, i) {
        if i < |ms| && i <= 16 && ms[i].mode == Enforce {
          AdmittedHasRoom(a, ms, req, d, plan, i);
        }
      }
    }
  }

  /** Everything a limit rejection reports is that rule's: its limit, what is left of it, and a time to retry
      that is exact when the counts add up to the total and the request can fit at all. */
  lemma RejectionTells(a: Aggregate, ms: seq<Rule>, req: Request, d: Decision, plan: seq<Record>, i: nat)
    requires Usable(ms) && Decided(a, ms, req, d, plan) && !Beyond(req) && d.Reject? && Refuses(a, ms, req, i)
    ensures plan == [] && d.reason == GlobalLimit && d.context.Some? && d.context.value.limit == ms[i].limit
    ensures
      var seen := Visible(Counted(a, ms[i], req), req.now, ms[i].bucketMillis, ms[i].liveBuckets);
      if seen <= ms[i].limit then d.context.value.remaining + seen == ms[i].limit else d.context.value.remaining == 0
    ensures RetriesExactly(a, ms[i], req, d.context.value.resetMillis)
  {
    hide Tightest, Spans, ExactFor, AdmitDelay, Beyond;
    BeyondIff(req);
    assert ms[i].bucketMillis > 0;
    var k: nat :| FirstOver(a, Considered(ms), req, k) && d.context == Some(RejectQuota(a, ms[k], req));
    SameRefusal(a, ms, req, i, k);
    RetryTold(a, ms[i], req);
  }

  lemma SameRefusal(a: Aggregate, ms: seq<Rule>, req: Request, i: nat, k: nat)
    requires Usable(ms) && Refuses(a, ms, req, i) && FirstOver(a, Considered(ms), req, k)
    ensures i == k
  {
    hide Over, HasRoom, Spans;
    forall j: nat | j <= i || j <= k
      ensures j < |Considered(ms)| && Considered(ms)[j] == ms[j]
      ensures ms[j].bucketMillis > 0 && (Over(a, ms[j], req) <==> ms[j].mode == Enforce && !HasRoom(a, ms[j], req))
    {
      OverIsNoRoom(a, ms[j], req);
    }
  }

  /** Every time from then on admits the request, none before, if nothing else is recorded. */
  ghost predicate RetriesExactly(a: Aggregate, r: Rule, req: Request, reset: nat)
    requires r.bucketMillis > 0
  {
    var c, total := Counted(a, r, req), WindowSum(Counted(a, r, req), Epoch(req.now, r.bucketMillis), r.liveBuckets);
    && Clocked(req.now, r.bucketMillis, r.liveBuckets) && Past(c, Epoch(req.now, r.bucketMillis))
    && req.hits <= r.limit && total + req.hits <= U64_MAX ==>
      ExactFor(c, req.now, r.bucketMillis, r.liveBuckets, r.limit, req.hits, reset)
  }

  lemma RetryTold(a: Aggregate, r: Rule, req: Request)
    requires r.bucketMillis > 0 && r.liveBuckets > 0 && r.limit <= U64_MAX
    ensures RetriesExactly(a, r, req, RejectQuota(a, r, req).resetMillis)
  {
    hide ExactFor, AdmitDelay, Clocked, Past;
    var c := Counted(a, r, req);
    var total := WindowSum(c, Epoch(req.now, r.bucketMillis), r.liveBuckets);
    if && Clocked(req.now, r.bucketMillis, r.liveBuckets) && Past(c, Epoch(req.now, r.bucketMillis))
       && req.hits <= r.limit && total + req.hits <= U64_MAX {
      RetryExact(c, req.now, r.bucketMillis, r.liveBuckets, r.limit, total, req.hits);
    }
  }

  // -- What an admission tells --------------------------------------------------------------------

  /** What the rule would have left after the request; nothing when a dry run is already past its limit. */
  ghost function Left(a: Aggregate, r: Rule, req: Request): int
    requires r.bucketMillis > 0
  {
    Max(r.limit - Visible(Counted(a, r, req), req.now, r.bucketMillis, r.liveBuckets) - req.hits, 0)
  }

  /** The next change of the rule's epoch is `reset` milliseconds away. */
  ghost predicate EpochTurns(now: nat, bm: nat, reset: nat)
    requires bm > 0
  {
    (now + reset) / bm == now / bm + 1 && forall t: nat :: now <= t < now + reset ==> t / bm == now / bm
  }

  /** The reported quota is that of the first rule looked at with the least left after the request. */
  ghost predicate ReportsTightest(a: Aggregate, ms: seq<Rule>, req: Request, q: Quota, i: nat)
    requires Usable(ms)
  {
    && i < |ms| && i <= 16 && q.limit == ms[i].limit && q.remaining == Left(a, ms[i], req)
    && EpochTurns(req.now, ms[i].bucketMillis, q.resetMillis)
    && (forall j :: 0 <= j < |ms| && j <= 16 ==> q.remaining <= Left(a, ms[j], req))
    && (forall j :: 0 <= j < i ==> q.remaining < Left(a, ms[j], req))
  }

  lemma AdmissionTells(a: Aggregate, ms: seq<Rule>, req: Request, d: Decision, plan: seq<Record>)
    requires Usable(ms) && Decided(a, ms, req, d, plan) && d.Allow?
    ensures ms == [] <==> d.tightest.None?
    ensures d.tightest.Some? ==> exists i: nat :: ReportsTightest(a, ms, req, d.tightest.value, i)
    ensures |plan| == Min(|ms|, 16) && forall i :: 0 <= i < |plan| ==> RecordTells(plan[i], ms[i], req)
  {
    hide Over, Spans, Left, EpochTurns, QuotaOf, RecordOf;
    var seen := Considered(ms);
    forall j | 0 <= j < |seen| ensures seen[j] == ms[j] && ms[j].bucketMillis > 0 {}
    if ms != [] {
      var qs := QuotasOf(a, seen, req);
      var i: nat :| FirstLeast(qs, i) && d.tightest == Some(qs[i]);
      forall j | 0 <= j < |seen|
        ensures qs[j].limit == ms[j].limit && qs[j].remaining == Left(a, ms[j], req)
        ensures EpochTurns(req.now, ms[j].bucketMillis, qs[j].resetMillis)
      {
        QuotaTells(a, ms[j], req);
      }
      assert ReportsTightest(a, ms, req, d.tightest.value, i);
    }
    forall i | 0 <= i < |plan| ensures RecordTells(plan[i], ms[i], req) {
      assert plan[i] == RecordOf(ms[i], req);
      RecordIs(ms[i], req);
    }
  }

  lemma QuotaTells(a: Aggregate, r: Rule, req: Request)
    requires r.bucketMillis > 0
    ensures QuotaOf(a, r, req).limit == r.limit && QuotaOf(a, r, req).remaining == Left(a, r, req)
    ensures EpochTurns(req.now, r.bucketMillis, QuotaOf(a, r, req).resetMillis)
  {
    hide EpochTurns, Visible;
    Turns(req.now, r.bucketMillis);
  }

  lemma Turns(now: nat, bm: nat)
    requires bm > 0
    ensures EpochTurns(now, bm, UntilNextBoundary(now, bm))
  {
    hide UntilNextBoundary;
    BoundaryIsNext(now, bm, now);
    forall t: nat | now <= t < now + UntilNextBoundary(now, bm) ensures t / bm == now / bm {
      BoundaryIsNext(now, bm, t);
    }
  }

  /** All hits under the rule's fingerprint and the request's key, in the bucket the request falls in. */
  ghost predicate RecordTells(p: Record, r: Rule, req: Request) {
    && p.fingerprint == r.fingerprint && p.key == req.process.hashKey(r.id, req.shape) && p.hits == req.hits
    && (r.bucketMillis > 0 && req.now / r.bucketMillis <= U32_MAX ==>
          p.bucket * r.bucketMillis <= req.now < (p.bucket + 1) * r.bucketMillis)
  }

  lemma RecordIs(r: Rule, req: Request)
    requires r.bucketMillis > 0
    ensures RecordTells(RecordOf(r, req), r, req)
  {
    if req.now / r.bucketMillis <= U32_MAX {
      EpochFits(req.now, r.bucketMillis);
      ReachesEpoch(req.now, req.now / r.bucketMillis, r.bucketMillis);
      ReachesEpoch(req.now, req.now / r.bucketMillis + 1, r.bucketMillis);
    }
  }
}
