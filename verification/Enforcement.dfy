/** Limit enforcement by one node over whole runs: requests decided one after the other and recorded hit by
    hit, with gossip merges and expiry anywhere in between, on a clock that does not run backwards. */
module Enforcement {
  import opened Base
  import opened Cells
  import opened Dictionary
  import opened Counters
  import opened Expiry
  import opened Sums
  import opened Windows
  import opened Aggregates
  import opened Clusters
  import opened Convergence
  import opened Admission
  import opened Registration

  /** What stays fixed during a run; `shapes` are the request shapes that occur. */
  datatype Setup = Setup(who: NodeDescriptor, table: seq<Rule>, max: nat, process: Process, shapes: set<Shape>)

  /** The node, what it admitted under each of its own cells, the last time it looked at the clock, and
      what the last admitted request has still to record. */
  datatype Limiter = Limiter(node: Node, admitted: Counts, clock: nat, pending: seq<Record>)

  datatype Act =
    | Admit(req: Request, decision: Decision, plan: seq<Record>)
    | Store
    | Merge(rows: seq<Row>, took: seq<bool>)
    | Expire(batch: Batch)

  /** Rules with fingerprints and ids of their own, and shapes whose key hashes do not collide. */
  ghost predicate Configured(s: Setup) {
    && Usable(s.table) && s.max <= U64_MAX && DistinctRules(s.table)
    && forall r, x, y :: r in s.table && x in s.shapes && y in s.shapes ==> Told(s.process, r.id, x, y)
  }

  ghost predicate Told(process: Process, id: nat, x: Shape, y: Shape) {
    process.hashKey(id, x) == process.hashKey(id, y) ==> x == y
  }

  /** The bucket of a time under a rule. */
  function Tick(now: nat, r: Rule): nat {
    if r.bucketMillis == 0 then 0 else now / r.bucketMillis
  }

  lemma TickMonotone(a: nat, b: nat, r: Rule)
    requires a <= b
    ensures Tick(a, r) <= Tick(b, r)
  {
    if r.bucketMillis > 0 {
      DivMonotone(a, b, r.bucketMillis);
    }
  }

  /** Epochs stay within 32 bits. */
  ghost predicate Timely(s: Setup, now: nat) {
    forall r :: r in s.table ==> Tick(now, r) <= U32_MAX
  }

  lemma TickIsEpoch(now: nat, r: Rule)
    requires r.bucketMillis > 0 && Tick(now, r) <= U32_MAX
    ensures Epoch(now, r.bucketMillis) == Tick(now, r)
  {
    EpochFits(now, r.bucketMillis);
  }

  function RecordedCell(who: NodeDescriptor, p: Record): CellId {
    CellId(p.fingerprint, p.key, p.bucket, who.nodeId, who.incarnation)
  }

  function RecordBatch(who: NodeDescriptor, p: Record, max: nat): Batch {
    Absorbed([Update(RecordedCell(who, p), Accumulate(Min(p.hits, max)))], [true])
  }

  /** A store operation after which no total has overflowed 64 bits. */
  ghost predicate TakesFitting(n: Node, b: Batch, next: Node, max: nat) {
    && Takes(n, b, next, max)
    && forall k :: Share(n.counts, n.local, k) + Gained(StepDeltas(n.counts, b, max, n.local), k) <= U64_MAX
  }

  /** The hits admitted under every rule of the list. */
  ghost function Credit(admitted: Counts, who: NodeDescriptor, plan: seq<Record>): Counts {
    if plan == [] then admitted
    else
      var before := Credit(admitted, who, plan[..|plan| - 1]);
      var p := plan[|plan| - 1];
      before[RecordedCell(who, p) := CountOf(before, RecordedCell(who, p)) + p.hits]
  }

  ghost predicate ActStep(s: Setup, l: Limiter, a: Act, m: Limiter)
    requires Configured(s)
  {
    match a
    case Admit(req, decision, plan) =>
      var ms := Matching(s.table, req);
      && req.process == s.process && req.shape in s.shapes && l.pending == []
      && l.clock <= req.now == m.clock && Timely(s, req.now) && Usable(ms)
      && Decided(l.node.aggregate, ms, req, decision, plan) && m.node == l.node && m.pending == plan
      && m.admitted == (if decision.Allow? then Credit(l.admitted, s.who, RecordsOf(ms, req)) else l.admitted)
    case Store =>
      && l.pending != [] && TakesFitting(l.node, RecordBatch(s.who, l.pending[0], s.max), m.node, s.max)
      && m == l.(node := m.node, pending := l.pending[1..])
    case Merge(rows, took) =>
      && |rows| == |took| && TakesFitting(l.node, Absorbed(Merges(rows), took), m.node, s.max)
      && m == l.(node := m.node)
    case Expire(batch) =>
      && batch.Expiry? && (forall r :: r in s.table ==> Registered(r, batch.rules))
      && l.clock <= batch.now == m.clock && Timely(s, batch.now)
      && TakesFitting(l.node, batch, m.node, s.max) && m == l.(node := m.node, clock := m.clock)
  }

  ghost predicate Starts(s: Setup, l: Limiter) {
    && l.node.counts == map[] && l.node.aggregate == map[] && l.admitted == map[] && l.pending == []
    && (forall r :: r in s.table ==> r.fingerprint in l.node.local) && Timely(s, l.clock)
  }

  ghost predicate Steps(s: Setup, states: seq<Limiter>, acts: seq<Act>)
    requires Configured(s)
  {
    && |states| == |acts| + 1
    && forall i :: 0 <= i < |acts| ==> ActStep(s, states[i], acts[i], states[i + 1])
  }

  ghost predicate RunOf(s: Setup, states: seq<Limiter>, acts: seq<Act>)
    requires Configured(s)
  {
    Steps(s, states, acts) && Starts(s, states[0])
  }

  lemma StepFirst(s: Setup, l: Limiter, a: Act, rest: seq<Limiter>, more: seq<Act>)
    requires Configured(s) && Steps(s, rest, more) && ActStep(s, l, a, rest[0])
    ensures Steps(s, [l] + rest, [a] + more)
  {
    hide ActStep;
  }

  /** What was admitted for one (rule, key), bucket by bucket. */
  ghost function AdmittedBuckets(admitted: Counts, who: NodeDescriptor, fp: nat, key: nat): nat -> nat {
    (b: nat) => CountOf(admitted, CellId(fp, key, b, who.nodeId, who.incarnation))
  }

  /** The node's own cells of the rule's live buckets hold what was admitted, but for what is pending. */
  ghost predicate Remembers(s: Setup, l: Limiter, r: Rule, key: nat) {
    forall b: nat :: b + r.liveBuckets >= Tick(l.clock, r) ==> Holding(s, l, r, key, b)
  }

  ghost predicate Holding(s: Setup, l: Limiter, r: Rule, key: nat, b: nat) {
    var id := CellId(r.fingerprint, key, b, s.who.nodeId, s.who.incarnation);
    Min(AdmittedBuckets(l.admitted, s.who, r.fingerprint, key)(b), s.max)
    <= CountOf(l.node.counts, id) + PlanHits(s.who, l.pending, id)
  }

  /** No `liveBuckets` consecutive buckets of the rule and key hold more than the limit. */
  ghost predicate Bounded(admitted: Counts, who: NodeDescriptor, r: Rule, key: nat) {
    SpansWithin(AdmittedBuckets(admitted, who, r.fingerprint, key), r.liveBuckets, r.limit)
  }

  ghost predicate LimitKept(s: Setup, admitted: Counts, r: Rule) {
    forall key: nat :: Bounded(admitted, s.who, r, key)
  }

  /** An enforcing rule whose limit fits the counters and the 64-bit sum. */
  predicate Binding(r: Rule, max: nat) {
    r.mode == Enforce && r.limit <= max && r.limit < U64_MAX
  }

  /** The first matches, which are the ones recorded. */
  function Planned(ms: seq<Rule>): seq<Rule> {
    ms[..Min(|ms|, MAX_MATCHED_RULES)]
  }

  /** Whatever the request adds to the rule and key is recorded. */
  ghost predicate Counted(ms: seq<Rule>, req: Request, r: Rule, key: nat) {
    r in ms && req.KeyOf(r.id) == key ==> r in Planned(ms) || req.hits == 0
  }

  ghost predicate ActCounts(s: Setup, a: Act, r: Rule, key: nat) {
    a.Admit? && a.decision.Allow? ==> Counted(Matching(s.table, a.req), a.req, r, key)
  }

  ghost predicate NodeOk(s: Setup, n: Node) {
    && Within(n.counts, s.max) && Agrees(n.aggregate, n.counts, n.local)
    && forall r :: r in s.table ==> r.fingerprint in n.local
  }

  ghost predicate Inv(s: Setup, l: Limiter, r: Rule, key: nat) {
    && NodeOk(s, l.node) && Timely(s, l.clock) && Remembers(s, l, r, key)
    && Past(AdmittedBuckets(l.admitted, s.who, r.fingerprint, key), Tick(l.clock, r))
    && Bounded(l.admitted, s.who, r, key)
  }

  // -- Totals agree with cells ------------------------------------------------------------------

  lemma TakesAgrees(s: Setup, n: Node, b: Batch, next: Node)
    requires NodeOk(s, n) && TakesFitting(n, b, next, s.max)
    ensures NodeOk(s, next)
  {
    hide Share, Gained, Agrees, Within;
    AgreementStep(n, b, next, s.max);
  }

  /** A total is at least the node's own cell. */
  lemma OwnInTotal(n: Node, id: CellId)
    requires Agrees(n.aggregate, n.counts, n.local) && id.fingerprint in n.local
    ensures CountOf(n.counts, id) <= ReadIn(n.aggregate, id.Identity())
  {
    SumSet(n.counts, id, 0, id.Identity());
  }

  // -- One record -------------------------------------------------------------------------------

  lemma RecordRaises(who: NodeDescriptor, p: Record, n: Node, next: Node, max: nat, id: CellId)
    requires Takes(n, RecordBatch(who, p, max), next, max) && Within(n.counts, max)
    ensures CountOf(next.counts, id) ==
            if id == RecordedCell(who, p) then SatAdd(CountOf(n.counts, id), Min(p.hits, max), max)
            else CountOf(n.counts, id)
  {
    var u := Update(RecordedCell(who, p), Accumulate(Min(p.hits, max)));
    assert [u][..0] == [] && [true][..0] == [];
    assert Absorb(n.counts, [], [], max) == n.counts;
    assert next.counts == Upserted(n.counts, u, max);
  }

  // -- What a plan admits -----------------------------------------------------------------------

  ghost function PlanHits(who: NodeDescriptor, plan: seq<Record>, id: CellId): nat {
    if plan == [] then 0
    else
      var p := plan[|plan| - 1];
      PlanHits(who, plan[..|plan| - 1], id) + if RecordedCell(who, p) == id then p.hits else 0
  }

  lemma {:induction false} PlanHitsFirst(who: NodeDescriptor, plan: seq<Record>, id: CellId)
    requires plan != []
    ensures PlanHits(who, plan, id)
            == (if RecordedCell(who, plan[0]) == id then plan[0].hits else 0) + PlanHits(who, plan[1..], id)
  {
    var n := |plan| - 1;
    if n == 0 {
      assert plan[..0] == [] && plan[1..] == [];
    } else {
      PlanHitsFirst(who, plan[..n], id);
      assert plan[..n][1..] == plan[1..][..n - 1];
    }
  }

  lemma {:induction false} CreditAdds(admitted: Counts, who: NodeDescriptor, plan: seq<Record>, id: CellId)
    ensures CountOf(Credit(admitted, who, plan), id) == CountOf(admitted, id) + PlanHits(who, plan, id)
  {
    if plan != [] {
      CreditAdds(admitted, who, plan[..|plan| - 1], id);
    }
  }

  ghost predicate DistinctRules(rules: seq<Rule>) {
    forall i, j :: 0 <= i < j < |rules| ==> rules[i].fingerprint != rules[j].fingerprint && rules[i].id != rules[j].id
  }

  lemma {:induction false} MatchingDistinct(table: seq<Rule>, req: Request)
    requires DistinctRules(table)
    ensures DistinctRules(Matching(table, req))
  {
    if table != [] {
      var n := |table| - 1;
      MatchingDistinct(table[..n], req);
      var ms := Matching(table[..n], req);
      forall i | 0 <= i < |ms| ensures ms[i].fingerprint != table[n].fingerprint && ms[i].id != table[n].id {
        assert ms[i] in ms;
        var j :| 0 <= j < n && table[j] == ms[i];
      }
    }
  }

  /** Only a rule's own record touches its cells, and it adds the request's hits to the current bucket. */
  lemma {:induction false} RuleHits(who: NodeDescriptor, ms: seq<Rule>, req: Request, r: Rule, key: nat, b: nat)
    requires Usable(ms) && DistinctRules(ms) && r.bucketMillis > 0
    requires forall x :: x in ms && x.fingerprint == r.fingerprint ==> x == r
    ensures PlanHits(who, RecordsOf(ms, req), CellId(r.fingerprint, key, b, who.nodeId, who.incarnation))
            == if r in ms && key == req.KeyOf(r.id) && b == Epoch(req.now, r.bucketMillis) then req.hits else 0
  {
    if ms != [] {
      hide Usable, DistinctRules, Epoch;
      var n := |ms| - 1;
      LastOfDistinct(ms, r);
      RuleHits(who, ms[..n], req, r, key, b);
      assert RecordsOf(ms, req)[..n] == RecordsOf(ms[..n], req);
    }
  }

  lemma LastOfDistinct(ms: seq<Rule>, r: Rule)
    requires ms != [] && Usable(ms) && DistinctRules(ms)
    requires forall x :: x in ms && x.fingerprint == r.fingerprint ==> x == r
    ensures
      var n := |ms| - 1;
      && Usable(ms[..n]) && DistinctRules(ms[..n]) && ms[n].bucketMillis > 0
      && (ms[n].fingerprint == r.fingerprint <==> ms[n] == r) && (r in ms <==> r in ms[..n] || ms[n] == r)
      && !(r in ms[..n] && ms[n] == r) && forall x :: x in ms[..n] && x.fingerprint == r.fingerprint ==> x == r
  {
    var n := |ms| - 1;
    assert ms == ms[..n] + [ms[n]] && ms[n] in ms;
    if r in ms[..n] {
      var j :| 0 <= j < n && ms[..n][j] == r;
      assert ms[j].fingerprint != ms[n].fingerprint;
    }
  }

  // -- Room -------------------------------------------------------------------------------------

  /** A rule that does not reject has room, counted in hits really admitted, for the request. */
  lemma RoomIsReal(s: Setup, l: Limiter, r: Rule, req: Request)
    requires NodeOk(s, l.node) && Remembers(s, l, r, req.KeyOf(r.id)) && l.pending == []
    requires l.clock <= req.now && Tick(req.now, r) <= U32_MAX
    requires r in s.table && r.liveBuckets > 0 && r.bucketMillis > 0 && Binding(r, s.max)
    requires Bounded(l.admitted, s.who, r, req.KeyOf(r.id)) && !Over(l.node.aggregate, r, req)
    ensures WindowSum(AdmittedBuckets(l.admitted, s.who, r.fingerprint, req.KeyOf(r.id)), Tick(req.now, r),
                      r.liveBuckets)
            + req.hits <= r.limit
  {
    hide Tick;
    var key, cur := req.KeyOf(r.id), Tick(req.now, r);
    var mine := AdmittedBuckets(l.admitted, s.who, r.fingerprint, key);
    var seen := Buckets(l.node.aggregate, r.fingerprint, key);
    TickIsEpoch(req.now, r);
    TickMonotone(l.clock, req.now, r);
    forall b: nat | Oldest(cur, r.liveBuckets) <= b < cur + 1 ensures mine(b) <= seen(b) {
      BucketInSpan(mine, b, r.liveBuckets);
      assert Holding(s, l, r, key, b);
      OwnInTotal(l.node, CellId(r.fingerprint, key, b, s.who.nodeId, s.who.incarnation));
    }
    SumAtMost(mine, seen, Oldest(cur, r.liveBuckets), cur + 1);
  }

  // -- Every act keeps the invariant ------------------------------------------------------------

  lemma TableNames(s: Setup, x: Rule, r: Rule)
    requires Configured(s) && x in s.table && r in s.table && x.fingerprint == r.fingerprint
    ensures x == r && r.liveBuckets > 0 && r.bucketMillis > 0
    ensures Spans(r.liveBuckets, r.windowMillis, r.bucketMillis)
  {
    var i :| 0 <= i < |s.table| && s.table[i] == x;
    var j :| 0 <= j < |s.table| && s.table[j] == r;
    assert i == j;
  }

  /** What recording a prefix of the matches adds to one rule's cell. */
  lemma PrefixHits(s: Setup, req: Request, n: nat, r: Rule, key: nat, b: nat)
    requires Configured(s) && r in s.table && Tick(req.now, r) <= U32_MAX && n <= |Matching(s.table, req)|
    ensures Usable(Matching(s.table, req)[..n])
    ensures PlanHits(s.who, RecordsOf(Matching(s.table, req)[..n], req),
                     CellId(r.fingerprint, key, b, s.who.nodeId, s.who.incarnation))
            == if r in Matching(s.table, req)[..n] && key == req.KeyOf(r.id) && b == Tick(req.now, r)
               then req.hits else 0
  {
    hide Tick, PlanHits;
    var ms := Matching(s.table, req);
    MatchingUsable(s.table, req);
    TableNames(s, r, r);
    TickIsEpoch(req.now, r);
    MatchingDistinct(s.table, req);
    forall x | x in ms[..n] && x.fingerprint == r.fingerprint ensures x == r {
      assert x in ms;
      TableNames(s, x, r);
    }
    RuleHits(s.who, ms[..n], req, r, key, b);
  }

  /** What serving adds to one rule's buckets. */
  lemma ServeAdds(s: Setup, req: Request, admitted: Counts, r: Rule, key: nat, b: nat)
    requires Configured(s) && r in s.table && Usable(Matching(s.table, req)) && Tick(req.now, r) <= U32_MAX
    ensures
      var ms := Matching(s.table, req);
      AdmittedBuckets(Credit(admitted, s.who, RecordsOf(ms, req)), s.who, r.fingerprint, key)(b)
      == AdmittedBuckets(admitted, s.who, r.fingerprint, key)(b)
         + if r in ms && key == req.KeyOf(r.id) && b == Tick(req.now, r) then req.hits else 0
  {
    hide Tick, Credit, PlanHits, Matching;
    var ms := Matching(s.table, req);
    assert ms[..|ms|] == ms;
    PrefixHits(s, req, |ms|, r, key, b);
    CreditAdds(admitted, s.who, RecordsOf(ms, req), CellId(r.fingerprint, key, b, s.who.nodeId, s.who.incarnation));
  }

  /** An admitted request, one rule and one key. */
  lemma AllowedRule(s: Setup, l: Limiter, req: Request, admitted: Counts, r: Rule, key: nat)
    requires Configured(s) && Inv(s, l, r, key) && l.pending == [] && l.clock <= req.now && Timely(s, req.now)
    requires r in s.table && Binding(r, s.max) && Usable(Matching(s.table, req))
    requires admitted == Credit(l.admitted, s.who, RecordsOf(Matching(s.table, req), req))
    requires Counted(Matching(s.table, req), req, r, key)
    requires forall x :: x in Considered(Matching(s.table, req)) ==>
              x.bucketMillis > 0 && !Over(l.node.aggregate, x, req)
    ensures Past(AdmittedBuckets(admitted, s.who, r.fingerprint, key), Tick(req.now, r))
    ensures Bounded(admitted, s.who, r, key)
  {
    hide Tick, Credit, Matching, RecordsOf, Over, Remembers, NodeOk, Past, SpansWithin, AdmittedBuckets;
    var ms := Matching(s.table, req);
    var c := AdmittedBuckets(l.admitted, s.who, r.fingerprint, key);
    var d := AdmittedBuckets(admitted, s.who, r.fingerprint, key);
    var hits := if r in ms && key == req.KeyOf(r.id) then req.hits else 0;
    forall b: nat ensures d(b) == c(b) + if b == Tick(req.now, r) then hits else 0 {
      ServeAdds(s, req, l.admitted, r, key, b);
    }
    TickMonotone(l.clock, req.now, r);
    TableNames(s, r, r);
    if hits > 0 {
      PlannedIsConsidered(ms, r);
      RoomIsReal(s, l, r, req);
    }
    RuleKept(c, d, Tick(l.clock, r), Tick(req.now, r), r.liveBuckets, r.limit, hits);
  }

  lemma PlannedIsConsidered(ms: seq<Rule>, r: Rule)
    requires r in Planned(ms)
    ensures r in Considered(ms)
  {
    var i :| 0 <= i < |Planned(ms)| && Planned(ms)[i] == r;
    assert Considered(ms)[i] == r;
  }

  lemma ClockMoves(s: Setup, l: Limiter, now: nat, r: Rule, key: nat)
    requires Inv(s, l, r, key) && l.clock <= now && Timely(s, now)
    ensures Inv(s, l.(clock := now), r, key)
  {
    hide Tick, NodeOk, Bounded, AdmittedBuckets;
    var m := l.(clock := now);
    TickMonotone(l.clock, now, r);
    forall b: nat | b + r.liveBuckets >= Tick(now, r) ensures Holding(s, m, r, key, b) {
      assert Holding(s, l, r, key, b);
    }
  }

  /** An allowed request once the clock has moved. */
  lemma AllowKeeps(s: Setup, l: Limiter, a: Act, m: Limiter, r: Rule, key: nat)
    requires Configured(s) && Inv(s, l, r, key) && r in s.table && Binding(r, s.max)
    requires a.Admit? && ActStep(s, l, a, m) && a.decision.Allow? && ActCounts(s, a, r, key) && l.clock == a.req.now
    ensures Inv(s, m, r, key)
  {
    hide Tick, NodeOk, Credit, Bounded, AdmittedBuckets, Matching, RecordsOf, Remembers;
    AllowedRule(s, l, a.req, m.admitted, r, key);
    AllowRemembers(s, l, a.req, m, r, key);
  }

  /** What a counted rule is credited with is in the plan. */
  lemma AllowRemembers(s: Setup, l: Limiter, req: Request, m: Limiter, r: Rule, key: nat)
    requires Configured(s) && Remembers(s, l, r, key) && r in s.table && Timely(s, req.now)
    requires Usable(Matching(s.table, req)) && Counted(Matching(s.table, req), req, r, key)
    requires m.node == l.node && m.clock == l.clock && l.pending == []
    requires m.pending == RecordsOf(Planned(Matching(s.table, req)), req)
    requires m.admitted == Credit(l.admitted, s.who, RecordsOf(Matching(s.table, req), req))
    ensures Remembers(s, m, r, key)
  {
    hide Tick, Credit, Matching;
    var ms := Matching(s.table, req);
    forall b: nat | b + r.liveBuckets >= Tick(m.clock, r) ensures Holding(s, m, r, key, b) {
      assert Holding(s, l, r, key, b);
      PrefixHits(s, req, |Planned(ms)|, r, key, b);
      ServeAdds(s, req, l.admitted, r, key, b);
      assert r in Planned(ms) ==> r in ms;
    }
  }

  lemma AdmitKeeps(s: Setup, l: Limiter, a: Act, m: Limiter, r: Rule, key: nat)
    requires Configured(s) && Inv(s, l, r, key) && r in s.table && Binding(r, s.max)
    requires a.Admit? && ActStep(s, l, a, m) && ActCounts(s, a, r, key)
    ensures Inv(s, m, r, key)
  {
    hide Inv, Matching, Timely;
    ClockMoves(s, l, a.req.now, r, key);
    if a.decision.Allow? {
      AllowKeeps(s, l.(clock := a.req.now), a, m, r, key);
    } else {
      assert m == l.(clock := a.req.now);
    }
  }

  /** A recorded hit moves from the plan to the cell, up to the counter's width. */
  lemma StoreKeeps(s: Setup, l: Limiter, m: Limiter, r: Rule, key: nat)
    requires Configured(s) && Inv(s, l, r, key) && ActStep(s, l, Store, m)
    ensures Inv(s, m, r, key)
  {
    hide Tick, Bounded, AdmittedBuckets, Past, PlanHits, Takes;
    var p := l.pending[0];
    TakesAgrees(s, l.node, RecordBatch(s.who, p, s.max), m.node);
    forall b: nat | b + r.liveBuckets >= Tick(m.clock, r) ensures Holding(s, m, r, key, b) {
      var id := CellId(r.fingerprint, key, b, s.who.nodeId, s.who.incarnation);
      assert Holding(s, l, r, key, b);
      PlanHitsFirst(s.who, l.pending, id);
      RecordRaises(s.who, p, l.node, m.node, s.max, id);
    }
  }

  /** Counts that only grow remember what they remembered. */
  lemma GrowthRemembers(s: Setup, l: Limiter, m: Limiter, r: Rule, key: nat)
    requires Remembers(s, l, r, key) && AtMost(l.node.counts, m.node.counts) && m == l.(node := m.node)
    ensures Remembers(s, m, r, key)
  {
    hide Tick, PlanHits;
    forall b: nat | b + r.liveBuckets >= Tick(m.clock, r) ensures Holding(s, m, r, key, b) {
      assert Holding(s, l, r, key, b);
    }
  }

  lemma MergeKeeps(s: Setup, l: Limiter, a: Act, m: Limiter, r: Rule, key: nat)
    requires Configured(s) && Inv(s, l, r, key) && a.Merge? && ActStep(s, l, a, m)
    ensures Inv(s, m, r, key)
  {
    hide Remembers, Past, Bounded, Absorb, Share, Gained, Folds;
    TakesAgrees(s, l.node, Absorbed(Merges(a.rows), a.took), m.node);
    AbsorbGrows(l.node.counts, Merges(a.rows), a.took, s.max);
    GrowthRemembers(s, l, m, r, key);
  }

  /** A sweep no later than the clock drops nothing a live window still needs. */
  lemma SweepRemembers(s: Setup, l: Limiter, batch: Batch, m: Limiter, r: Rule, key: nat)
    requires Remembers(s, l, r, key) && batch.Expiry? && Registered(r, batch.rules) && batch.now == l.clock
    requires Tick(l.clock, r) <= U32_MAX && Spans(r.liveBuckets, r.windowMillis, r.bucketMillis)
    requires m == l.(node := m.node) && m.node.counts == Survivors(l.node.counts, batch.rules, l.clock)
    ensures Remembers(s, m, r, key)
  {
    RegisteredReads(r, batch.rules);
    hide PlanHits, RuleDescriptor.LiveBuckets, Spans;
    forall b: nat | b + r.liveBuckets >= Tick(m.clock, r) ensures Holding(s, m, r, key, b) {
      var id := CellId(r.fingerprint, key, b, s.who.nodeId, s.who.incarnation);
      assert Holding(s, l, r, key, b);
      assert !Expired(batch.rules, id, l.clock);
    }
  }

  lemma ExpireKeeps(s: Setup, l: Limiter, a: Act, m: Limiter, r: Rule, key: nat)
    requires Configured(s) && Inv(s, l, r, key) && r in s.table && a.Expire? && ActStep(s, l, a, m)
    ensures Inv(s, m, r, key)
  {
    hide Remembers, Past, Bounded, Survivors, Share, Gained, Folds, NodeOk;
    ClockMoves(s, l, a.batch.now, r, key);
    TableNames(s, r, r);
    TakesAgrees(s, l.node, a.batch, m.node);
    SweepRemembers(s, l.(clock := a.batch.now), a.batch, m, r, key);
  }

  lemma StartsOk(s: Setup, l: Limiter, r: Rule, key: nat)
    requires Starts(s, l)
    ensures Inv(s, l, r, key)
  {
    forall k ensures Share(l.node.counts, l.node.local, k) == 0 {
      assert Group(map[], k) == map[];
    }
    var c := AdmittedBuckets(l.admitted, s.who, r.fingerprint, key);
    forall lo: nat ensures Span(c, lo, r.liveBuckets) <= r.limit {
      SumOfNothing(c, lo, lo + r.liveBuckets);
    }
  }

  lemma {:induction false} RunOk(s: Setup, states: seq<Limiter>, acts: seq<Act>, i: nat, r: Rule, key: nat)
    requires Configured(s) && RunOf(s, states, acts) && i <= |acts| && r in s.table && Binding(r, s.max)
    requires forall j :: 0 <= j < i ==> ActCounts(s, acts[j], r, key)
    ensures Inv(s, states[i], r, key)
  {
    hide Inv, Configured, ActStep, Starts, ActCounts;
    if i == 0 {
      StartsOk(s, states[0], r, key);
    } else {
      RunOk(s, states, acts, i - 1, r, key);
      var l, a, m := states[i - 1], acts[i - 1], states[i];
      assert ActStep(s, l, a, m) && ActCounts(s, a, r, key);
      match a {
        case Admit(_, _, _) => AdmitKeeps(s, l, a, m, r, key);
        case Store => StoreKeeps(s, l, m, r, key);
        case Merge(_, _) => MergeKeeps(s, l, a, m, r, key);
        case Expire(_) => ExpireKeeps(s, l, a, m, r, key);
      }
    }
  }

  /** Sequential enforcement: in every state of every run that records what it admits for the rule and key,
      the hits admitted never exceed the limit in any `liveBuckets` consecutive buckets. */
  lemma SequentialEnforcement(s: Setup, states: seq<Limiter>, acts: seq<Act>, i: nat, r: Rule, key: nat, lo: nat)
    requires Configured(s) && RunOf(s, states, acts) && i <= |acts| && r in s.table && Binding(r, s.max)
    requires forall j :: 0 <= j < i ==> ActCounts(s, acts[j], r, key)
    ensures SumRange(AdmittedBuckets(states[i].admitted, s.who, r.fingerprint, key), lo, lo + r.liveBuckets) <= r.limit
  {
    RunOk(s, states, acts, i, r, key);
    assert Span(AdmittedBuckets(states[i].admitted, s.who, r.fingerprint, key), lo, r.liveBuckets) <= r.limit;
  }

  // -- When the conditions hold, and what happens without them ------------------------------------

  /** With 16- or 32-bit counts in a store of at most 2^30 cells no operation overflows a total. */
  lemma NarrowTakesFit(n: Node, b: Batch, next: Node, max: nat)
    requires Takes(n, b, next, max) && Within(n.counts, max) && max <= U32_MAX
    requires |n.counts| <= CELL_BOUND && |next.counts| <= CELL_BOUND
    ensures TakesFitting(n, b, next, max)
  {
    hide Fitting, Step, StepDeltas, StepExpirations, Share, Gained, Folds;
    forall k ensures Share(n.counts, n.local, k) + Gained(StepDeltas(n.counts, b, max, n.local), k) <= U64_MAX {
      NarrowCountsFit(n.counts, b, max, n.local, k);
    }
  }

  ghost predicate OwnOnly(m: Counts, who: NodeDescriptor) {
    forall id :: id in m ==> Origin(id) == who
  }

  lemma OwnShare(m: Counts, who: NodeDescriptor, max: nat, local: set<nat>, k: CellIdentity)
    requires OwnOnly(m, who) && Within(m, max)
    ensures Share(m, local, k) <= max
  {
    var id, g := OwnCell(who, k), Group(m, k);
    TotalWith(g, id, 0);
    assert g - {id} == map[];
  }

  /** A node without peers has one cell per total, so at any width no operation overflows one. */
  lemma LoneTakesFit(n: Node, b: Batch, next: Node, max: nat, who: NodeDescriptor)
    requires Takes(n, b, next, max) && Within(n.counts, max) && max <= U64_MAX && OwnOnly(n.counts, who)
    requires OwnOnly(next.counts, who)
    ensures TakesFitting(n, b, next, max)
  {
    hide Fitting, Step, StepDeltas, StepExpirations, Share, Gained, Lost, Folds;
    forall k ensures Share(n.counts, n.local, k) + Gained(StepDeltas(n.counts, b, max, n.local), k) <= U64_MAX {
      StepAccounts(n.counts, b, max, n.local, k);
      SinglesOnly(n.counts, b, max, n.local, k);
      OwnShare(n.counts, who, max, n.local, k);
      OwnShare(next.counts, who, max, n.local, k);
    }
  }

  /** An admitted request is recorded under a rule exactly when the rule is among the first sixteen that
      match; under a later one it leaves no trace. */
  lemma RecordedIffPlanned(who: NodeDescriptor, a: Aggregate, ms: seq<Rule>, req: Request, d: Decision,
                           plan: seq<Record>, i: nat)
    requires Usable(ms) && DistinctRules(ms) && Decided(a, ms, req, d, plan) && d.Allow? && req.hits > 0 && i < |ms|
    ensures
      var cell := RecordedCell(who, RecordOf(ms[i], req));
      PlanHits(who, plan, cell) == if i < MAX_MATCHED_RULES then req.hits else 0
  {
    var r, first := ms[i], ms[..Min(|ms|, MAX_MATCHED_RULES)];
    forall x | x in first && x.fingerprint == r.fingerprint ensures x == r {
      var j :| 0 <= j < |first| && first[j] == x;
      assert ms[j].fingerprint == ms[i].fingerprint;
    }
    RuleHits(who, first, req, r, req.KeyOf(r.id), Epoch(req.now, r.bucketMillis));
    if r in first {
      var j :| 0 <= j < |first| && first[j] == r;
      assert ms[j].fingerprint == ms[i].fingerprint;
    }
    if i < MAX_MATCHED_RULES {
      assert first[i] == r;
    }
  }
}
