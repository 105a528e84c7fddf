/** Exactly which limits are kept: conditions on the table and the request shapes that occur, and the runs
    that break every other limit. A shape fixes both which rules a request matches and its key under each. */
module Limits {
  import opened Base
  import opened Cells
  import opened Dictionary
  import opened Counters
  import opened Sums
  import opened Windows
  import opened Aggregates
  import opened Clusters
  import opened Progress
  import opened Admission
  import opened Enforcement

  /** The rule's limit is kept in every run. */
  ghost predicate Kept(s: Setup, r: Rule)
    requires Configured(s)
  {
    forall states: seq<Limiter>, acts: seq<Act> :: RunOf(s, states, acts) ==> LimitKept(s, states[|acts|].admitted, r)
  }

  /** One hit of a shape at time zero. */
  function One(s: Setup, x: Shape): Request {
    Request(x, 1, 0, s.process)
  }

  /** The rules a shape matches. */
  function Met(s: Setup, x: Shape): seq<Rule> {
    Matching(s.table, One(s, x))
  }

  /** A shape that occurs, is not refused for its size, and matches the rule. */
  predicate Reaches(s: Setup, x: Shape, r: Rule) {
    x in s.shapes && !One(s, x).TooMany() && r in Met(s, x)
  }

  /** One of the rules looked at allows nothing at all. */
  ghost predicate Barred(ms: seq<Rule>) {
    exists z :: z in Considered(ms) && z.mode == Enforce && z.limit == 0
  }

  /** Wherever `r.liveBuckets` consecutive buckets of `r` start, as many of `t` as its window has, from the one
      that holds the start, cover them. */
  ghost predicate Covers(t: Rule, r: Rule)
    requires t.bucketMillis > 0
  {
    forall lo: nat :: CoversFrom(t, r, lo)
  }

  predicate CoversFrom(t: Rule, r: Rule, lo: nat)
    requires t.bucketMillis > 0
  {
    (lo * r.bucketMillis) % t.bucketMillis + r.liveBuckets * r.bucketMillis <= t.liveBuckets * t.bucketMillis
  }

  /** `t` counts every hit of the shape, allows no more than `r` and looks at least as far back. */
  ghost predicate Shields(s: Setup, x: Shape, t: Rule, r: Rule) {
    t in Planned(Met(s, x)) && Binding(t, s.max) && t.limit <= r.limit && t.bucketMillis > 0 && Covers(t, r)
  }

  ghost predicate Shielded(s: Setup, x: Shape, r: Rule) {
    Barred(Met(s, x)) || exists t :: Shields(s, x, t, r)
  }

  /** Every rule that counts the shape's hits exactly allows more than `r`. */
  ghost predicate Outruns(s: Setup, x: Shape, r: Rule) {
    && Reaches(s, x, r) && !Barred(Met(s, x))
    && forall t :: t in Planned(Met(s, x)) && Binding(t, s.max) ==> t.limit > r.limit
  }

  // -- Shapes -------------------------------------------------------------------------------------

  lemma ShapeTells(s: Setup, req: Request)
    requires req.process == s.process
    ensures Matching(s.table, req) == Met(s, req.shape) && req.TooMany() == One(s, req.shape).TooMany()
    ensures forall id :: req.KeyOf(id) == One(s, req.shape).KeyOf(id)
  {
    MatchingByShape(s.table, req, One(s, req.shape));
  }

  /** The same key for a rule means the same shape. */
  lemma KeyTells(s: Setup, req: Request, r: Rule, x: Shape)
    requires Configured(s) && r in s.table && x in s.shapes && req.shape in s.shapes && req.process == s.process
    requires req.KeyOf(r.id) == One(s, x).KeyOf(r.id)
    ensures req.shape == x
  {
    assert Told(s.process, r.id, req.shape, x);
  }

  // -- A rule no hit reaches ------------------------------------------------------------------------

  /** The act admits no hit for the rule and key. */
  ghost predicate Idle(s: Setup, a: Act, r: Rule, key: nat) {
    a.Admit? && a.decision.Allow? && r in Matching(s.table, a.req) && a.req.KeyOf(r.id) == key ==> a.req.hits == 0
  }

  lemma {:induction false} NothingAdmitted(s: Setup, states: seq<Limiter>, acts: seq<Act>, i: nat, r: Rule, key: nat,
                                           b: nat)
    requires Configured(s) && RunOf(s, states, acts) && i <= |acts| && r in s.table
    requires forall j :: 0 <= j < i ==> Idle(s, acts[j], r, key)
    ensures AdmittedBuckets(states[i].admitted, s.who, r.fingerprint, key)(b) == 0
  {
    hide Matching, Decided, TakesFitting, Credit, RecordsOf;
    if i > 0 {
      NothingAdmitted(s, states, acts, i - 1, r, key, b);
      var l, a, m := states[i - 1], acts[i - 1], states[i];
      assert ActStep(s, l, a, m) && Idle(s, a, r, key);
      if a.Admit? && a.decision.Allow? {
        ServeAdds(s, a.req, l.admitted, r, key, b);
      }
    }
  }

  lemma IdleIsBounded(s: Setup, states: seq<Limiter>, acts: seq<Act>, r: Rule, key: nat)
    requires Configured(s) && RunOf(s, states, acts) && r in s.table
    requires forall j :: 0 <= j < |acts| ==> Idle(s, acts[j], r, key)
    ensures Bounded(states[|acts|].admitted, s.who, r, key)
  {
    hide ActStep, Starts, Configured, Idle, AdmittedBuckets;
    var c := AdmittedBuckets(states[|acts|].admitted, s.who, r.fingerprint, key);
    forall b: nat ensures c(b) == 0 {
      NothingAdmitted(s, states, acts, |acts|, r, key, b);
    }
    forall lo: nat ensures Span(c, lo, r.liveBuckets) <= r.limit {
      SumOfNothing(c, lo, lo + r.liveBuckets);
    }
  }

  /** A rule that allows nothing lets no request with hits through. */
  lemma BarredIdle(s: Setup, l: Limiter, a: Act, m: Limiter, r: Rule, key: nat)
    requires Configured(s) && ActStep(s, l, a, m) && a.Admit? && a.decision.Allow?
    requires Barred(Matching(s.table, a.req))
    ensures Idle(s, a, r, key)
  {
    hide Matching, TotalOf, Tightest;
    var ms := Matching(s.table, a.req);
    var z :| z in Considered(ms) && z.mode == Enforce && z.limit == 0;
  }

  // -- A rule in the shadow of another --------------------------------------------------------------

  /** `r`'s window from bucket `lo` lies inside `t`'s from bucket `lo2`. */
  predicate Inside(r: Rule, lo: nat, t: Rule, lo2: nat) {
    && lo2 * t.bucketMillis <= lo * r.bucketMillis
    && (lo + r.liveBuckets) * r.bucketMillis <= (lo2 + t.liveBuckets) * t.bucketMillis
  }

  lemma BucketFrom(now: nat, bm: nat, k: nat)
    requires bm > 0
    ensures k <= now / bm <==> k * bm <= now
  {
    if k <= now / bm {
      MulMonotone(k, now / bm, bm);
    } else {
      MulMonotone(now / bm + 1, k, bm);
    }
  }

  lemma InsideTick(r: Rule, lo: nat, t: Rule, lo2: nat, now: nat)
    requires r.bucketMillis > 0 && t.bucketMillis > 0 && Inside(r, lo, t, lo2)
    requires lo <= Tick(now, r) < lo + r.liveBuckets
    ensures lo2 <= Tick(now, t) < lo2 + t.liveBuckets
  {
    BucketFrom(now, r.bucketMillis, lo);
    BucketFrom(now, r.bucketMillis, lo + r.liveBuckets);
    BucketFrom(now, t.bucketMillis, lo2);
    BucketFrom(now, t.bucketMillis, lo2 + t.liveBuckets);
  }

  lemma CoversInside(t: Rule, r: Rule, lo: nat)
    requires t.bucketMillis > 0 && CoversFrom(t, r, lo)
    ensures Inside(r, lo, t, lo * r.bucketMillis / t.bucketMillis)
  {
    var start := lo * r.bucketMillis;
    var q := start / t.bucketMillis;
    assert (lo + r.liveBuckets) * r.bucketMillis == start + r.liveBuckets * r.bucketMillis;
    assert (q + t.liveBuckets) * t.bucketMillis == q * t.bucketMillis + t.liveBuckets * t.bucketMillis;
    assert q * t.bucketMillis + start % t.bucketMillis == start;
  }

  lemma SpanAdds(c: nat -> nat, d: nat -> nat, cur: nat, lo: nat, n: nat, hits: nat)
    requires forall b: nat :: d(b) == c(b) + if b == cur then hits else 0
    ensures Span(d, lo, n) == Span(c, lo, n) + if lo <= cur < lo + n then hits else 0
  {
    if lo <= cur < lo + n {
      SumSplits(c, lo, cur, lo + n);
      SumSplits(d, lo, cur, lo + n);
      SumSplits(c, cur, cur + 1, lo + n);
      SumSplits(d, cur, cur + 1, lo + n);
      SumSame(c, d, lo, cur);
      SumSame(c, d, cur + 1, lo + n);
    } else {
      SumSame(c, d, lo, lo + n);
    }
  }

  /** What was admitted for a shape under a rule. */
  ghost function Hits(s: Setup, l: Limiter, r: Rule, x: Shape): nat -> nat {
    AdmittedBuckets(l.admitted, s.who, r.fingerprint, One(s, x).KeyOf(r.id))
  }

  /** A request adds its hits under all rules its shape matches, and under no key of another shape. */
  lemma HitsAdd(s: Setup, l: Limiter, a: Act, m: Limiter, r: Rule, x: Shape, lo: nat)
    requires Configured(s) && ActStep(s, l, a, m) && x in s.shapes && r in s.table && r in Met(s, x)
    ensures Span(Hits(s, m, r, x), lo, r.liveBuckets)
            == Span(Hits(s, l, r, x), lo, r.liveBuckets)
               + if a.Admit? && a.decision.Allow? && a.req.shape == x && lo <= Tick(a.req.now, r) < lo + r.liveBuckets
                 then a.req.hits else 0
  {
    hide Matching, Decided, TakesFitting, Credit, RecordsOf, AdmittedBuckets, Tick, Span, Request.KeyOf;
    if a.Admit? && a.decision.Allow? {
      var key := One(s, x).KeyOf(r.id);
      ShapeTells(s, a.req);
      if a.req.KeyOf(r.id) == key {
        KeyTells(s, a.req, r, x);
      }
      var hits := if a.req.shape == x then a.req.hits else 0;
      forall b: nat
        ensures Hits(s, m, r, x)(b) == Hits(s, l, r, x)(b) + if b == Tick(a.req.now, r) then hits else 0
      {
        ServeAdds(s, a.req, l.admitted, r, key, b);
      }
      SpanAdds(Hits(s, l, r, x), Hits(s, m, r, x), Tick(a.req.now, r), lo, r.liveBuckets, hits);
    }
  }

  /** Inside a window of another rule the shape matches, no more was admitted than there. */
  lemma {:induction false} Shadowed(s: Setup, states: seq<Limiter>, acts: seq<Act>, i: nat, r: Rule, t: Rule, x: Shape,
                                    lo: nat, lo2: nat)
    requires Configured(s) && RunOf(s, states, acts) && i <= |acts| && x in s.shapes && Inside(r, lo, t, lo2)
    requires r in s.table && t in s.table && r in Met(s, x) && t in Met(s, x)
    ensures Span(Hits(s, states[i], r, x), lo, r.liveBuckets) <= Span(Hits(s, states[i], t, x), lo2, t.liveBuckets)
  {
    hide Met, ActStep, Inside, Tick;
    if i == 0 {
      SumOfNothing(Hits(s, states[0], r, x), lo, lo + r.liveBuckets);
    } else {
      hide Span, Hits;
      Shadowed(s, states, acts, i - 1, r, t, x, lo, lo2);
      var l, a, m := states[i - 1], acts[i - 1], states[i];
      assert ActStep(s, l, a, m);
      HitsAdd(s, l, a, m, r, x, lo);
      HitsAdd(s, l, a, m, t, x, lo2);
      TableNames(s, r, r);
      TableNames(s, t, t);
      if a.Admit? && lo <= Tick(a.req.now, r) < lo + r.liveBuckets {
        InsideTick(r, lo, t, lo2, a.req.now);
      }
    }
  }

  // -- The limits that are kept ---------------------------------------------------------------------

  /** A shape's hits under one of the first sixteen rules it matches are always recorded. */
  lemma PlannedCounts(s: Setup, a: Act, t: Rule, x: Shape)
    requires Configured(s) && x in s.shapes && t in s.table && t in Planned(Met(s, x))
    requires a.Admit? ==> a.req.process == s.process && a.req.shape in s.shapes
    ensures ActCounts(s, a, t, One(s, x).KeyOf(t.id))
  {
    hide Matching, Request.KeyOf;
    if a.Admit? && a.req.KeyOf(t.id) == One(s, x).KeyOf(t.id) {
      KeyTells(s, a.req, t, x);
      ShapeTells(s, a.req);
    }
  }

  lemma ShieldBounds(s: Setup, states: seq<Limiter>, acts: seq<Act>, r: Rule, t: Rule, x: Shape)
    requires Configured(s) && RunOf(s, states, acts) && x in s.shapes && r in s.table && t in s.table
    requires r in Met(s, x) && Shields(s, x, t, r)
    ensures Bounded(states[|acts|].admitted, s.who, r, One(s, x).KeyOf(r.id))
  {
    hide Met, ActStep, Covers, Binding, ActCounts, Inv, Starts, Request.KeyOf, CoversFrom, Inside;
    var last := states[|acts|];
    forall j | 0 <= j < |acts| ensures ActCounts(s, acts[j], t, One(s, x).KeyOf(t.id)) {
      ActOfShape(s, states[j], acts[j], states[j + 1]);
      PlannedCounts(s, acts[j], t, x);
    }
    RunOk(s, states, acts, |acts|, t, One(s, x).KeyOf(t.id));
    InvBounds(s, last, t, One(s, x).KeyOf(t.id));
    InPlanned(Met(s, x), t);
    forall lo: nat ensures Span(Hits(s, last, r, x), lo, r.liveBuckets) <= r.limit {
      ShieldSpan(s, states, acts, r, t, x, lo);
    }
    assert SpansWithin(Hits(s, last, r, x), r.liveBuckets, r.limit);
  }

  lemma ShieldSpan(s: Setup, states: seq<Limiter>, acts: seq<Act>, r: Rule, t: Rule, x: Shape, lo: nat)
    requires Configured(s) && RunOf(s, states, acts) && x in s.shapes && r in s.table && t in s.table
    requires r in Met(s, x) && t in Met(s, x) && Shields(s, x, t, r)
    requires Bounded(states[|acts|].admitted, s.who, t, One(s, x).KeyOf(t.id))
    ensures Span(Hits(s, states[|acts|], r, x), lo, r.liveBuckets) <= r.limit
  {
    hide ActStep, Starts, Configured, Inside, Met, Span, CoversFrom;
    assert CoversFrom(t, r, lo);
    var lo2 := lo * r.bucketMillis / t.bucketMillis;
    CoversInside(t, r, lo);
    Shadowed(s, states, acts, |acts|, r, t, x, lo, lo2);
    assert Span(Hits(s, states[|acts|], t, x), lo2, t.liveBuckets) <= t.limit;
  }

  lemma InvBounds(s: Setup, l: Limiter, r: Rule, key: nat)
    requires Inv(s, l, r, key)
    ensures Bounded(l.admitted, s.who, r, key)
  {
  }

  lemma InPlanned(ms: seq<Rule>, t: Rule)
    requires t in Planned(ms)
    ensures t in ms
  {
  }

  lemma ActOfShape(s: Setup, l: Limiter, a: Act, m: Limiter)
    requires Configured(s) && ActStep(s, l, a, m)
    ensures a.Admit? ==> a.req.process == s.process && a.req.shape in s.shapes
    ensures a.Admit? && a.decision.Allow? ==> !a.req.TooMany()
  {
  }

  /** Every shape that reaches the rule is shielded: in every run, for every key, the limit is kept. */
  lemma ShieldedIsKept(s: Setup, r: Rule)
    requires Configured(s) && r in s.table
    requires forall x :: Reaches(s, x, r) ==> Shielded(s, x, r)
    ensures Kept(s, r)
  {
    hide Configured, ActStep, Starts, Reaches, Shielded, Bounded;
    forall states: seq<Limiter>, acts: seq<Act>, key: nat | RunOf(s, states, acts)
      ensures Bounded(states[|acts|].admitted, s.who, r, key)
    {
      KeptAtKey(s, states, acts, r, key);
    }
  }

  lemma KeptAtKey(s: Setup, states: seq<Limiter>, acts: seq<Act>, r: Rule, key: nat)
    requires Configured(s) && RunOf(s, states, acts) && r in s.table
    requires forall x :: Reaches(s, x, r) ==> Shielded(s, x, r)
    ensures Bounded(states[|acts|].admitted, s.who, r, key)
  {
    hide Met, Bounded, ActStep, Starts, Configured, Barred, Shields, Request.KeyOf, Request.TooMany, Idle;
    if x: Shape :| Reaches(s, x, r) && One(s, x).KeyOf(r.id) == key && !Barred(Met(s, x)) {
      assert Shielded(s, x, r);
      var t :| Shields(s, x, t, r);
      ShieldInTable(s, x, t, r);
      ShieldBounds(s, states, acts, r, t, x);
    } else {
      forall j | 0 <= j < |acts| ensures Idle(s, acts[j], r, key) {
        StrayIdle(s, states[j], acts[j], states[j + 1], r, key);
      }
      IdleIsBounded(s, states, acts, r, key);
    }
  }

  lemma ShieldInTable(s: Setup, x: Shape, t: Rule, r: Rule)
    requires Shields(s, x, t, r)
    ensures t in s.table
  {
    InPlanned(Met(s, x), t);
  }

  lemma StrayIdle(s: Setup, l: Limiter, a: Act, m: Limiter, r: Rule, key: nat)
    requires Configured(s) && ActStep(s, l, a, m) && r in s.table
    requires forall x :: Reaches(s, x, r) && One(s, x).KeyOf(r.id) == key ==> Barred(Met(s, x))
    ensures Idle(s, a, r, key)
  {
    hide Matching, Barred, ActStep, Configured, Request.KeyOf, Request.TooMany;
    if a.Admit? && a.decision.Allow? && r in Matching(s.table, a.req) && a.req.KeyOf(r.id) == key {
      ActOfShape(s, l, a, m);
      ShapeTells(s, a.req);
      assert Reaches(s, a.req.shape, r);
      BarredIdle(s, l, a, m, r, key);
    }
  }

  // -- Runs of unit requests ----------------------------------------------------------------------

  /** A node without peers, at time zero. */
  ghost predicate Alone(s: Setup, l: Limiter) {
    l.clock == 0 && NodeOk(s, l.node) && OwnOnly(l.node.counts, s.who)
  }

  lemma OwnTotal(n: Node, who: NodeDescriptor, k: CellIdentity)
    requires OwnOnly(n.counts, who) && Agrees(n.aggregate, n.counts, n.local) && k.fingerprint in n.local
    ensures ReadIn(n.aggregate, k) == CountOf(n.counts, OwnCell(who, k))
  {
    var id, g := OwnCell(who, k), Group(n.counts, k);
    TotalWith(g, id, 0);
    assert g - {id} == map[];
  }

  lemma SeenAtStart(c: nat -> nat, bm: nat, live: nat)
    requires bm > 0 && live > 0
    ensures Visible(c, 0, bm, live) == Min(c(0), U64_MAX)
  {
    assert SumRange(c, 0, 1) == c(0);
  }

  /** What a rule sees of a lone node's own cell at time zero. */
  lemma SeenAlone(s: Setup, l: Limiter, r: Rule, req: Request)
    requires Alone(s, l) && r in s.table && r.bucketMillis > 0 && r.liveBuckets > 0 && req.now == 0 && s.max <= U64_MAX
    ensures TotalOf(l.node.aggregate, r, req)
            == CountOf(l.node.counts, CellId(r.fingerprint, req.KeyOf(r.id), 0, s.who.nodeId, s.who.incarnation))
  {
    var k := CellIdentity(r.fingerprint, req.KeyOf(r.id), 0);
    SeenAtStart(Buckets(l.node.aggregate, r.fingerprint, req.KeyOf(r.id)), r.bucketMillis, r.liveBuckets);
    OwnTotal(l.node, s.who, k);
  }

  /** The counts after recording a plan: every hit added, up to the counter's width. */
  ghost predicate Grown(was: Counts, now: Counts, who: NodeDescriptor, plan: seq<Record>, max: nat) {
    forall id :: CountOf(now, id) == Min(CountOf(was, id) + PlanHits(who, plan, id), max)
  }

  lemma GrownFirst(was: Counts, mid: Counts, now: Counts, who: NodeDescriptor, plan: seq<Record>, max: nat)
    requires plan != [] && Grown(mid, now, who, plan[1..], max)
    requires forall id :: CountOf(mid, id)
               == Min(CountOf(was, id) + if RecordedCell(who, plan[0]) == id then plan[0].hits else 0, max)
    ensures Grown(was, now, who, plan, max)
  {
    hide PlanHits;
    forall id ensures CountOf(now, id) == Min(CountOf(was, id) + PlanHits(who, plan, id), max) {
      PlanHitsFirst(who, plan, id);
    }
  }

  lemma RecordEnabled(s: Setup, p: Record, n: Node) returns (next: Node)
    requires NodeOk(s, n) && OwnOnly(n.counts, s.who) && s.max <= U64_MAX
    ensures TakesFitting(n, RecordBatch(s.who, p, s.max), next, s.max)
    ensures NodeOk(s, next) && OwnOnly(next.counts, s.who)
    ensures forall id :: CountOf(next.counts, id)
              == Min(CountOf(n.counts, id) + if RecordedCell(s.who, p) == id then p.hits else 0, s.max)
  {
    var b := RecordBatch(s.who, p, s.max);
    next := StepEnabled(n, b, s.max);
    RecordKeys(s.who, p, n, next, s.max);
    LoneTakesFit(n, b, next, s.max, s.who);
    TakesAgrees(s, n, b, next);
    hide Takes, Agrees;
    forall id ensures CountOf(next.counts, id)
                == Min(CountOf(n.counts, id) + if RecordedCell(s.who, p) == id then p.hits else 0, s.max) {
      RecordRaises(s.who, p, n, next, s.max, id);
    }
  }

  lemma RecordKeys(who: NodeDescriptor, p: Record, n: Node, next: Node, max: nat)
    requires Takes(n, RecordBatch(who, p, max), next, max) && OwnOnly(n.counts, who)
    ensures OwnOnly(next.counts, who)
  {
    var u := Update(RecordedCell(who, p), Accumulate(Min(p.hits, max)));
    assert [u][..0] == [] && [true][..0] == [];
    assert Absorb(n.counts, [], [], max) == n.counts;
    assert next.counts == Upserted(n.counts, u, max);
  }

  /** Everything pending is recorded. */
  lemma {:induction false} Drain(s: Setup, l: Limiter) returns (states: seq<Limiter>, acts: seq<Act>)
    requires Configured(s) && Alone(s, l)
    ensures Steps(s, states, acts) && states[0] == l && Alone(s, states[|acts|])
    ensures states[|acts|] == l.(node := states[|acts|].node, pending := [])
    ensures Grown(l.node.counts, states[|acts|].node.counts, s.who, l.pending, s.max)
    decreases |l.pending|
  {
    if l.pending == [] {
      states, acts := [l], [];
    } else {
      hide TakesFitting, NodeOk, Grown, Configured, Steps;
      CountersFit(s);
      var next := RecordEnabled(s, l.pending[0], l.node);
      var mid := l.(node := next, pending := l.pending[1..]);
      var rest, more := Drain(s, mid);
      GrownFirst(l.node.counts, next.counts, rest[|more|].node.counts, s.who, l.pending, s.max);
      StepFirst(s, l, Store, rest, more);
      states, acts := [l] + rest, [Store] + more;
    }
  }

  lemma CountersFit(s: Setup)
    requires Configured(s)
    ensures s.max <= U64_MAX
  {
  }

  lemma StepsJoin(s: Setup, first: seq<Limiter>, done: seq<Act>, rest: seq<Limiter>, more: seq<Act>)
    requires Configured(s) && Steps(s, first, done) && Steps(s, rest, more) && first[|done|] == rest[0]
    ensures Steps(s, first + rest[1..], done + more)
  {
    hide ActStep;
    var all, acts := first + rest[1..], done + more;
    forall i | 0 <= i < |acts| ensures ActStep(s, all[i], acts[i], all[i + 1]) {
      if i >= |done| {
        assert all[i] == rest[i - |done|];
      }
    }
  }

  lemma TimelyAtStart(s: Setup)
    ensures Timely(s, 0)
  {
  }

  lemma RunStarts(s: Setup) returns (l: Limiter)
    requires Configured(s)
    ensures RunOf(s, [l], []) && Alone(s, l) && l.admitted == map[] && l.node.counts == map[] && l.pending == []
  {
    l := Limiter(Node(map[], map[], set r | r in s.table :: r.fingerprint), map[], 0, []);
    TimelyAtStart(s);
    EmptyAgrees(l.node.local);
  }

  // -- The limits that are not kept -----------------------------------------------------------------

  function CellOf(s: Setup, t: Rule, x: Shape): CellId {
    CellId(t.fingerprint, One(s, x).KeyOf(t.id), 0, s.who.nodeId, s.who.incarnation)
  }

  /** After `n` single hits of the shape: all admitted under every rule it matches, and recorded, up to the
      counter's width, under the first sixteen. */
  ghost predicate Tally(s: Setup, l: Limiter, x: Shape, n: nat) {
    && Alone(s, l) && l.pending == []
    && forall t :: t in Met(s, x) ==> TallyOf(s, l, x, n, t)
  }

  ghost predicate TallyOf(s: Setup, l: Limiter, x: Shape, n: nat, t: Rule) {
    && CountOf(l.admitted, CellOf(s, t, x)) == n
    && CountOf(l.node.counts, CellOf(s, t, x)) == if t in Planned(Met(s, x)) then Min(n, s.max) else 0
  }

  /** The next single hit is let through. */
  lemma Passes(s: Setup, l: Limiter, x: Shape, n: nat, t: Rule)
    requires Configured(s) && Tally(s, l, x, n) && t in Considered(Met(s, x)) && !Barred(Met(s, x))
    requires t in Planned(Met(s, x)) && Binding(t, s.max) ==> n < t.limit
    ensures t.bucketMillis > 0 && !Over(l.node.aggregate, t, One(s, x))
  {
    hide Met, NodeOk, TotalOf, Planned;
    assert t in Met(s, x) by {
      var i :| 0 <= i < |Considered(Met(s, x))| && Considered(Met(s, x))[i] == t;
      assert Met(s, x)[i] == t;
    }
    assert TallyOf(s, l, x, n, t);
    MetInTable(s, x, t);
    SeenAlone(s, l, t, One(s, x));
  }

  lemma MetInTable(s: Setup, x: Shape, t: Rule)
    requires Configured(s) && t in Met(s, x)
    ensures t in s.table && t.bucketMillis > 0 && t.liveBuckets > 0
  {
    hide Matching;
    var i :| 0 <= i < |s.table| && s.table[i] == t;
  }

  lemma OneMore(s: Setup, l: Limiter, x: Shape, n: nat) returns (states: seq<Limiter>, acts: seq<Act>)
    requires Configured(s) && x in s.shapes && !One(s, x).TooMany() && Tally(s, l, x, n) && !Barred(Met(s, x))
    requires forall t :: t in Planned(Met(s, x)) && Binding(t, s.max) ==> n < t.limit
    ensures Steps(s, states, acts) && states[0] == l && Tally(s, states[|acts|], x, n + 1)
  {
    hide Configured, Matching, Over, Decided, NodeOk, Credit, Timely, Grown, Barred, Request.TooMany, Request.KeyOf,
      Steps,
      Binding, Tally;
    var req, ms := One(s, x), Met(s, x);
    MatchingUsableIn(s, req);
    forall t | t in Considered(ms) ensures t.bucketMillis > 0 && !Over(l.node.aggregate, t, req) {
      Passes(s, l, x, n, t);
    }
    var d := AllowExists(l.node.aggregate, ms, req);
    var mid := Limiter(l.node, Credit(l.admitted, s.who, RecordsOf(ms, req)), 0, RecordsOf(Planned(ms), req));
    TallyAlone(s, l, x, n);
    TimelyAtStart(s);
    var a := Admit(req, d, mid.pending);
    var rest, more := Drain(s, mid);
    StepFirst(s, l, a, rest, more);
    states, acts := [l] + rest, [a] + more;
    StepsLong(s, rest, more);
    TallyMore(s, l, x, n, rest[|more|]);
  }

  lemma MatchingUsableIn(s: Setup, req: Request)
    requires Configured(s)
    ensures Usable(Matching(s.table, req))
  {
    MatchingUsable(s.table, req);
  }

  lemma TallyAlone(s: Setup, l: Limiter, x: Shape, n: nat)
    requires Tally(s, l, x, n)
    ensures Alone(s, l) && l.pending == []
  {
  }

  lemma TallyMore(s: Setup, l: Limiter, x: Shape, n: nat, m: Limiter)
    requires Configured(s) && Tally(s, l, x, n) && Alone(s, m) && m.pending == [] && Usable(Met(s, x))
    requires m.admitted == Credit(l.admitted, s.who, RecordsOf(Met(s, x), One(s, x)))
    requires Grown(l.node.counts, m.node.counts, s.who, RecordsOf(Planned(Met(s, x)), One(s, x)), s.max)
    ensures Tally(s, m, x, n + 1)
  {
    hide Matching, NodeOk, Credit, PlanHits, RecordsOf, Request.KeyOf;
    var ms := Met(s, x);
    forall t | t in ms ensures TallyOf(s, m, x, n + 1, t) {
      assert TallyOf(s, l, x, n, t);
      MetInTable(s, x, t);
      ServeAdds(s, One(s, x), l.admitted, t, One(s, x).KeyOf(t.id), 0);
      PrefixHits(s, One(s, x), |Planned(ms)|, t, One(s, x).KeyOf(t.id), 0);
    }
  }

  /** As many single hits as every rule that counts exactly allows. */
  lemma {:induction false} OutrunRun(s: Setup, x: Shape, n: nat) returns (states: seq<Limiter>, acts: seq<Act>)
    requires Configured(s) && x in s.shapes && !One(s, x).TooMany() && !Barred(Met(s, x))
    requires forall t :: t in Planned(Met(s, x)) && Binding(t, s.max) ==> n <= t.limit
    ensures RunOf(s, states, acts) && Tally(s, states[|acts|], x, n)
  {
    hide Met, NodeOk, ActStep, Barred, Request.TooMany, Configured, Binding, Starts;
    if n == 0 {
      var l := RunStarts(s);
      states, acts := [l], [];
    } else {
      hide Tally, Steps;
      var first, done := OutrunRun(s, x, n - 1);
      var rest, more := OneMore(s, first[|done|], x, n - 1);
      StepsJoin(s, first, done, rest, more);
      StepsLong(s, rest, more);
      states, acts := first + rest[1..], done + more;
    }
  }

  lemma StepsLong(s: Setup, states: seq<Limiter>, acts: seq<Act>)
    requires Configured(s) && Steps(s, states, acts)
    ensures |states| == |acts| + 1
  {
  }

  /** A shape that every exactly counting rule lets go further than `r`: a run at that shape breaks `r`. */
  lemma OutrunBreaks(s: Setup, x: Shape, r: Rule)
    requires Configured(s) && Outruns(s, x, r)
    ensures !Kept(s, r)
  {
    hide Met, ActStep, Starts, Alone, Barred, Request.TooMany, Binding;
    var states, acts := OutrunRun(s, x, r.limit + 1);
    var c := Hits(s, states[|acts|], r, x);
    assert TallyOf(s, states[|acts|], x, r.limit + 1, r);
    MetInTable(s, x, r);
    BucketInSpan(c, 0, r.liveBuckets);
    assert !Bounded(states[|acts|].admitted, s.who, r, One(s, x).KeyOf(r.id));
  }

  // -- Exactly which limits are kept ----------------------------------------------------------------

  /** Of the rules that count a shape's hits exactly, those that allow no more than `r` look as far back. */
  ghost predicate Aligned(s: Setup, r: Rule) {
    forall x, t :: Reaches(s, x, r) && t in Planned(Met(s, x)) && Binding(t, s.max) && 0 < t.limit <= r.limit ==>
      t.bucketMillis > 0 && Covers(t, r)
  }

  /** A rule's limit is kept in every run if and only if every shape that reaches it is shielded: a rule among
      the first sixteen it matches, perhaps the rule itself, has a limit that is no larger and fits the
      counters, or one of the first seventeen allows nothing. */
  lemma LimitKeptIff(s: Setup, r: Rule)
    requires Configured(s) && r in s.table && Aligned(s, r)
    ensures Kept(s, r) <==> forall x :: Reaches(s, x, r) ==> Shielded(s, x, r)
  {
    hide Configured, Kept, Reaches, Met, Covers, Barred;
    if forall x :: Reaches(s, x, r) ==> Shielded(s, x, r) {
      ShieldedIsKept(s, r);
    } else {
      var x :| Reaches(s, x, r) && !Shielded(s, x, r);
      forall t | t in Planned(Met(s, x)) && Binding(t, s.max) ensures t.limit > r.limit {
        if t.limit <= r.limit {
          PlannedShields(s, x, t, r);
        }
      }
      OutrunBreaks(s, x, r);
    }
  }

  lemma PlannedShields(s: Setup, x: Shape, t: Rule, r: Rule)
    requires Aligned(s, r) && Reaches(s, x, r) && t in Planned(Met(s, x)) && Binding(t, s.max) && t.limit <= r.limit
    ensures Shielded(s, x, r)
  {
    hide Met, Covers;
    PlannedIsConsidered(Met(s, x), t);
    if t.limit > 0 {
      assert Shields(s, x, t, r);
    }
  }

  /** Rules that share bucket and window cover each other. */
  lemma SharedCovers(t: Rule, r: Rule)
    requires t.bucketMillis == r.bucketMillis > 0 && r.liveBuckets <= t.liveBuckets
    ensures Covers(t, r)
  {
    forall lo: nat ensures CoversFrom(t, r, lo) {
      assert (lo * r.bucketMillis) % r.bucketMillis == 0 by {
        BucketStart(lo, r.bucketMillis);
      }
      MulMonotone(r.liveBuckets, t.liveBuckets, r.bucketMillis);
    }
  }

  lemma BucketStart(lo: nat, bm: nat)
    requires bm > 0
    ensures lo * bm % bm == 0
  {
    BucketFrom(lo * bm, bm, lo);
    BucketFrom(lo * bm, bm, lo + 1);
    assert lo * bm == (lo * bm / bm) * bm + lo * bm % bm;
  }

  /** So does a window longer by one bucket, whatever its buckets. */
  lemma LongerCovers(t: Rule, r: Rule)
    requires t.bucketMillis > 0 && t.liveBuckets > 0
    requires r.liveBuckets * r.bucketMillis <= (t.liveBuckets - 1) * t.bucketMillis
    ensures Covers(t, r)
  {
    forall lo: nat ensures CoversFrom(t, r, lo) {
      assert (t.liveBuckets - 1) * t.bucketMillis + t.bucketMillis == t.liveBuckets * t.bucketMillis;
    }
  }

  /** Where all rules a shape matches share bucket and window, the condition is exact. */
  lemma SharedIsAligned(s: Setup, r: Rule)
    requires Configured(s) && r in s.table
    requires forall x, t :: Reaches(s, x, r) && t in Met(s, x) ==>
               t.bucketMillis == r.bucketMillis && t.liveBuckets == r.liveBuckets
    ensures Aligned(s, r)
  {
    hide Matching, Covers, Request.TooMany;
    TableNames(s, r, r);
    forall x, t | Reaches(s, x, r) && t in Planned(Met(s, x)) ensures t.bucketMillis > 0 && Covers(t, r) {
      InPlanned(Met(s, x), t);
      SharedCovers(t, r);
    }
  }

  /** An enforcing rule among the first sixteen of every shape that reaches it shields itself. */
  lemma EarlyIsKept(s: Setup, r: Rule)
    requires Configured(s) && r in s.table && Binding(r, s.max)
    requires forall x :: Reaches(s, x, r) ==> r in Planned(Met(s, x))
    ensures Kept(s, r)
  {
    hide Configured, Kept, Reaches, Met, Covers, Barred;
    RuleCoversItself(s, r);
    forall x | Reaches(s, x, r) ensures Shielded(s, x, r) {
      assert Shields(s, x, r, r);
    }
    ShieldedIsKept(s, r);
  }

  lemma RuleCoversItself(s: Setup, r: Rule)
    requires Configured(s) && r in s.table
    ensures r.bucketMillis > 0 && Covers(r, r)
  {
    TableNames(s, r, r);
    SharedCovers(r, r);
  }

  // -- Seventeen rules that one shape matches -------------------------------------------------------

  /** Sixteen descriptors, all the same. */
  function Crowd(): Shape {
    Shape("api", seq(16, _ => Descriptor("k", "v")))
  }

  /** The `i`-th rule takes any value in the `i`-th descriptor; the seventeenth takes none. */
  function RuleOf(i: nat, domainHash: nat, mode: Admission.Mode): Rule {
    Rule(i, i, domainHash, seq(16, j => Descriptor("k", if i == j then "*" else "v")), 1, 60_000, 1000, 60, mode)
  }

  function Seventeen(domainHash: nat, mode: Admission.Mode): (table: seq<Rule>)
    ensures |table| == 17
    ensures forall i: nat :: i < 17 ==> table[i] == RuleOf(i, domainHash, if i < 16 then mode else Enforce)
  {
    seq(17, (i: nat) => RuleOf(i, domainHash, if i < 16 then mode else Enforce))
  }

  function CrowdSetup(who: NodeDescriptor, max: nat, process: Process, mode: Admission.Mode): Setup {
    Setup(who, Seventeen(process.hashDomain("api"), mode), max, process, {Crowd()})
  }

  lemma {:induction false} AllMatch(table: seq<Rule>, req: Request)
    requires forall i :: 0 <= i < |table| ==> table[i].mode != Disabled && req.Matches(table[i])
    ensures Matching(table, req) == table
  {
    if table != [] {
      hide Request.Matches;
      AllMatch(table[..|table| - 1], req);
    }
  }

  lemma CrowdMeets(who: NodeDescriptor, max: nat, process: Process, mode: Admission.Mode)
    requires max <= U64_MAX && mode != Disabled
    ensures
      var s := CrowdSetup(who, max, process, mode);
      && Configured(s) && Met(s, Crowd()) == s.table && !Barred(s.table)
      && Planned(s.table) == s.table[..16]
  {
    var s := CrowdSetup(who, max, process, mode);
    var req := One(s, Crowd());
    forall i: nat | i < 17 ensures s.table[i].mode != Disabled && req.Matches(s.table[i]) {
      assert s.table[i] == RuleOf(i, process.hashDomain("api"), if i < 16 then mode else Enforce);
    }
    AllMatch(s.table, req);
  }

  /** Seventeen rules of one hit each. Behind sixteen that enforce theirs the last limit is kept, although it is
      never recorded; behind sixteen dry runs it is not. */
  lemma SeventeenthKeptIff(who: NodeDescriptor, max: nat, process: Process, mode: Admission.Mode)
    requires 1 <= max <= U64_MAX && mode != Disabled && !Request(Crowd(), 1, 0, process).TooMany()
    ensures
      var s := CrowdSetup(who, max, process, mode);
      Configured(s) && (Kept(s, s.table[16]) <==> mode == Enforce)
  {
    hide Met, Kept, Configured, Barred, Request.TooMany, Crowd;
    var s := CrowdSetup(who, max, process, mode);
    var r := s.table[16];
    CrowdMeets(who, max, process, mode);
    if mode == Enforce {
      var t := s.table[0];
      assert t == RuleOf(0, process.hashDomain("api"), Enforce) && r == RuleOf(16, process.hashDomain("api"), Enforce);
      SharedCovers(t, r);
      assert Planned(s.table)[0] == t;
      assert Shields(s, Crowd(), t, r);
      ShieldedIsKept(s, r);
    } else {
      forall t | t in Planned(Met(s, Crowd())) ensures !Binding(t, s.max) {
        var i :| 0 <= i < 16 && s.table[..16][i] == t;
        assert t == RuleOf(i, process.hashDomain("api"), mode);
      }
      OutrunBreaks(s, Crowd(), r);
    }
  }
}
