/** The gossip protocol over the abstract counter map: nodes that come and go, hits, frames that may
    be lost, repeated and reordered, capacity rejects and expiry. */
module Clusters {
  import opened Base
  import opened Cells
  import opened Dictionary
  import opened Counters
  import opened Expiry
  import opened Sums
  import opened Aggregates

  /** One cell of a gossip frame. */
  datatype Row = Row(id: CellId, count: nat)

  /** A node's cell store, its aggregate, and the rules it enforces. */
  datatype Node = Node(counts: Counts, aggregate: Aggregate, local: set<nat>)

  /** `sent` is every row ever put on the wire, `recorded` the hits each origin really took in, and
      `used` the (node id, incarnation) pairs handed out so far. */
  datatype Cluster = Cluster(nodes: map<NodeDescriptor, Node>, sent: set<Row>, recorded: Counts,
                             used: set<NodeDescriptor>)

  datatype Event =
    | Join(who: NodeDescriptor, local: set<nat>)
    | Leave(who: NodeDescriptor)
    | Hit(who: NodeDescriptor, key: CellIdentity, hits: nat, taken: bool)
    | Send(who: NodeDescriptor, rows: set<Row>)
    | Deliver(who: NodeDescriptor, packet: seq<Row>, took: seq<bool>)
    | Sweep(who: NodeDescriptor, batch: Batch)

  function OwnCell(who: NodeDescriptor, key: CellIdentity): CellId {
    CellId(key.fingerprint, key.keyHash, key.bucket, who.nodeId, who.incarnation)
  }

  function Merges(rows: seq<Row>): (us: seq<Update>)
    ensures |us| == |rows| && forall i :: 0 <= i < |us| ==> us[i] == Update(rows[i].id, MaxMerge(rows[i].count))
  {
    seq(|rows|, i requires 0 <= i < |rows| => Update(rows[i].id, MaxMerge(rows[i].count)))
  }

  /** The store operation behind an event. */
  function BatchOf(e: Event, max: nat): Batch
    requires e.Hit? || e.Deliver? || e.Sweep?
  {
    match e
    case Hit(who, key, hits, taken) => Absorbed([Update(OwnCell(who, key), Accumulate(Min(hits, max)))], [taken])
    case Deliver(_, rows, took) => Absorbed(Merges(rows), took)
    case Sweep(_, batch) => batch
  }

  /** One store operation and the `apply` of its rows. */
  ghost predicate Takes(n: Node, b: Batch, next: Node, max: nat) {
    && Fitting(n.counts, b, max, n.local)
    && next.counts == Step(n.counts, b, max, n.local) && next.local == n.local
    && Folds(n.aggregate, next.aggregate, StepDeltas(n.counts, b, max, n.local), StepExpirations(b))
  }

  ghost predicate Stores(s: Cluster, e: Event, t: Cluster, max: nat)
    requires e.Hit? || e.Deliver? || e.Sweep?
  {
    && e.who in s.nodes && e.who in t.nodes && t.nodes == s.nodes[e.who := t.nodes[e.who]]
    && t.sent == s.sent && t.used == s.used
    && Takes(s.nodes[e.who], BatchOf(e, max), t.nodes[e.who], max)
  }

  ghost predicate Next(s: Cluster, e: Event, t: Cluster, max: nat) {
    match e
    case Join(who, local) =>
      who !in s.used && t == s.(nodes := s.nodes[who := Node(map[], map[], local)], used := s.used + {who})
    case Leave(who) =>
      t == s.(nodes := s.nodes - {who})
    case Hit(who, key, hits, taken) =>
      && Stores(s, e, t, max)
      && t.recorded ==
           if taken then s.recorded[OwnCell(who, key) := CountOf(s.recorded, OwnCell(who, key)) + Min(hits, max)]
           else s.recorded
    case Send(who, rows) =>
      && who in s.nodes && t == s.(sent := s.sent + rows)
      && forall r :: r in rows ==> r.id in s.nodes[who].counts && r.count == s.nodes[who].counts[r.id]
    case Deliver(who, rows, took) =>
      && Stores(s, e, t, max) && t.recorded == s.recorded && |rows| == |took|
      && forall r :: r in rows ==> r in s.sent
    case Sweep(who, batch) =>
      batch.Expiry? && Stores(s, e, t, max) && t.recorded == s.recorded
  }

  const EMPTY: Cluster := Cluster(map[], {}, map[], {})

  ghost predicate Run(states: seq<Cluster>, events: seq<Event>, max: nat) {
    && |states| == |events| + 1 && states[0] == EMPTY
    && forall i :: 0 <= i < |events| ==> Next(states[i], events[i], states[i + 1], max)
  }

  /** No count anywhere exceeds what its origin recorded, and no total exceeds its cells. */
  ghost predicate NodeSafe(n: Node, recorded: Counts, max: nat) {
    && AtMost(n.counts, recorded) && Within(n.counts, max) && Stored(n.aggregate)
    && forall k :: ReadIn(n.aggregate, k) <= Share(n.counts, n.local, k)
  }

  function Origin(id: CellId): NodeDescriptor {
    NodeDescriptor(id.nodeId, id.incarnation)
  }

  ghost predicate Safe(s: Cluster, max: nat) {
    && s.nodes.Keys <= s.used && (forall id :: id in s.recorded ==> Origin(id) in s.used)
    && (forall d :: d in s.nodes ==> NodeSafe(s.nodes[d], s.recorded, max))
    && (forall r :: r in s.sent ==> r.count <= CountOf(s.recorded, r.id) && r.count <= max)
  }

  lemma {:induction false} MergeAtMost(m: Counts, us: seq<Update>, taken: seq<bool>, recorded: Counts, max: nat)
    requires |us| == |taken| && AtMost(m, recorded)
    requires forall u :: u in us ==> u.mode.MaxMerge? && u.mode.observed <= CountOf(recorded, u.id)
    ensures AtMost(Absorb(m, us, taken, max), recorded)
  {
    if us != [] {
      var n := |us| - 1;
      assert us[n] in us;
      MergeAtMost(m, us[..n], taken[..n], recorded, max);
    }
  }

  lemma SurvivorsAtMost(m: Counts, rules: map<nat, RuleDescriptor>, now: nat, recorded: Counts)
    requires AtMost(m, recorded)
    ensures AtMost(Survivors(m, rules, now), recorded)
  {
  }

  lemma RecordedGrows(n: Node, recorded: Counts, more: Counts, max: nat)
    requires NodeSafe(n, recorded, max) && AtMost(recorded, more)
    ensures NodeSafe(n, more, max)
  {
    forall id | id in n.counts ensures n.counts[id] <= CountOf(more, id) {
      assert n.counts[id] <= CountOf(recorded, id);
    }
  }

  lemma TakesKeepsTotals(n: Node, b: Batch, next: Node, max: nat)
    requires Takes(n, b, next, max) && Within(n.counts, max)
    requires forall k :: ReadIn(n.aggregate, k) <= Share(n.counts, n.local, k)
    ensures Within(next.counts, max) && forall k :: ReadIn(next.aggregate, k) <= Share(next.counts, next.local, k)
  {
    hide Fitting, Step, StepDeltas, StepExpirations;
    StepAccounts(n.counts, b, max, n.local, CellIdentity(0, 0, 0));
    forall k ensures ReadIn(next.aggregate, k) <= Share(next.counts, next.local, k) {
      StepAccounts(n.counts, b, max, n.local, k);
    }
  }

  lemma HitSafe(n: Node, e: Event, next: Node, recorded: Counts, max: nat)
    requires e.Hit? && NodeSafe(n, recorded, max) && Takes(n, BatchOf(e, max), next, max)
    ensures
      var id := OwnCell(e.who, e.key);
      NodeSafe(next, if e.taken then recorded[id := CountOf(recorded, id) + Min(e.hits, max)] else recorded, max)
  {
    var id, u := OwnCell(e.who, e.key), Update(OwnCell(e.who, e.key), Accumulate(Min(e.hits, max)));
    TakesKeepsTotals(n, BatchOf(e, max), next, max);
    assert [u][..0] == [] && [e.taken][..0] == [];
    assert Absorb(n.counts, [], [], max) == n.counts;
    assert next.counts == if e.taken then Upserted(n.counts, u, max) else n.counts;
  }

  lemma DeliverSafe(n: Node, e: Event, next: Node, s: Cluster, max: nat)
    requires e.Deliver? && NodeSafe(n, s.recorded, max) && Takes(n, BatchOf(e, max), next, max)
    requires |e.packet| == |e.took|
    requires forall r :: r in e.packet ==> r.count <= CountOf(s.recorded, r.id)
    ensures NodeSafe(next, s.recorded, max)
  {
    TakesKeepsTotals(n, BatchOf(e, max), next, max);
    forall u | u in Merges(e.packet) ensures u.mode.MaxMerge? && u.mode.observed <= CountOf(s.recorded, u.id) {
      var i :| 0 <= i < |e.packet| && Merges(e.packet)[i] == u;
      assert e.packet[i] in e.packet;
    }
    MergeAtMost(n.counts, Merges(e.packet), e.took, s.recorded, max);
  }

  lemma SweepSafe(n: Node, e: Event, next: Node, recorded: Counts, max: nat)
    requires e.Sweep? && e.batch.Expiry? && NodeSafe(n, recorded, max) && Takes(n, BatchOf(e, max), next, max)
    ensures NodeSafe(next, recorded, max)
  {
    TakesKeepsTotals(n, BatchOf(e, max), next, max);
    SurvivorsAtMost(n.counts, e.batch.rules, e.batch.now, recorded);
  }

  /** Every event keeps the cluster safe. */
  lemma NextSafe(s: Cluster, e: Event, t: Cluster, max: nat)
    requires Safe(s, max) && Next(s, e, t, max)
    ensures Safe(t, max) && AtMost(s.recorded, t.recorded)
  {
    hide Takes, NodeSafe;
    match e {
      case Join(who, local) => EmptyNodeSafe(local, s.recorded, max);
      case Leave(_) =>
      case Hit(who, key, hits, taken) =>
        HitSafe(s.nodes[who], e, t.nodes[who], s.recorded, max);
        forall d | d in t.nodes && d != who ensures NodeSafe(t.nodes[d], t.recorded, max) {
          RecordedGrows(s.nodes[d], s.recorded, t.recorded, max);
        }
      case Send(who, rows) => SendSafe(s.nodes[who], rows, s.recorded, max);
      case Deliver(who, rows, _) => DeliverSafe(s.nodes[who], e, t.nodes[who], s, max);
      case Sweep(who, _) => SweepSafe(s.nodes[who], e, t.nodes[who], s.recorded, max);
    }
  }

  lemma EmptyNodeSafe(local: set<nat>, recorded: Counts, max: nat)
    ensures NodeSafe(Node(map[], map[], local), recorded, max)
  {
  }

  lemma SendSafe(n: Node, rows: set<Row>, recorded: Counts, max: nat)
    requires NodeSafe(n, recorded, max) && forall r :: r in rows ==> r.id in n.counts && r.count == n.counts[r.id]
    ensures forall r :: r in rows ==> r.count <= CountOf(recorded, r.id) && r.count <= max
  {
  }

  /** Protocol safety: in every state of every run, whatever was lost, repeated, reordered, refused or
      expired, and whatever an origin forgot and learned back from a peer. */
  lemma {:induction false} RunSafe(states: seq<Cluster>, events: seq<Event>, max: nat, i: nat)
    requires Run(states, events, max) && i <= |events|
    ensures Safe(states[i], max)
  {
    if i > 0 {
      RunSafe(states, events, max, i - 1);
      NextSafe(states[i - 1], events[i - 1], states[i], max);
    }
  }

  /** A store operation keeps a node's totals equal to the sums of its cells while none overflows. */
  lemma AgreementStep(n: Node, b: Batch, next: Node, max: nat)
    requires Takes(n, b, next, max) && Within(n.counts, max) && Agrees(n.aggregate, n.counts, n.local)
    requires forall k :: Share(n.counts, n.local, k) + Gained(StepDeltas(n.counts, b, max, n.local), k) <= U64_MAX
    ensures Within(next.counts, max) && Agrees(next.aggregate, next.counts, next.local)
  {
    hide Fitting, Step, StepDeltas, StepExpirations, Share, Gained, Lost;
    StepAccounts(n.counts, b, max, n.local, CellIdentity(0, 0, 0));
    forall k ensures ReadIn(next.aggregate, k) == Share(next.counts, next.local, k) {
      StepAccounts(n.counts, b, max, n.local, k);
    }
  }

  const CELL_BOUND: nat := 0x4000_0000

  lemma NarrowAgreementStep(n: Node, b: Batch, next: Node, max: nat)
    requires Takes(n, b, next, max) && Within(n.counts, max) && Agrees(n.aggregate, n.counts, n.local)
    requires max <= U32_MAX && |n.counts| <= CELL_BOUND && |next.counts| <= CELL_BOUND
    ensures Within(next.counts, max) && Agrees(next.aggregate, next.counts, next.local)
  {
    hide Fitting, Step, StepDeltas, StepExpirations, Share, Gained, Agrees, Folds;
    forall k ensures Share(n.counts, n.local, k) + Gained(StepDeltas(n.counts, b, max, n.local), k) <= U64_MAX {
      NarrowCountsFit(n.counts, b, max, n.local, k);
    }
    AgreementStep(n, b, next, max);
  }

  ghost predicate AllAgree(s: Cluster) {
    forall d :: d in s.nodes ==> Agrees(s.nodes[d].aggregate, s.nodes[d].counts, s.nodes[d].local)
  }

  ghost predicate Sized(s: Cluster) {
    forall d :: d in s.nodes ==> |s.nodes[d].counts| <= CELL_BOUND
  }

  lemma EmptyAgrees(local: set<nat>)
    ensures Agrees(map[], map[], local)
  {
    forall k ensures Share(map[], local, k) == 0 {
      assert Group(map[], k) == map[];
    }
  }

  /** Aggregate agreement over whole runs, for 16- and 32-bit counts. */
  lemma {:induction false} RunAgrees(states: seq<Cluster>, events: seq<Event>, max: nat, i: nat)
    requires Run(states, events, max) && i <= |events| && max <= U32_MAX
    requires forall j :: 0 <= j <= |events| ==> Sized(states[j])
    ensures AllAgree(states[i])
  {
    if i > 0 {
      RunAgrees(states, events, max, i - 1);
      RunSafe(states, events, max, i - 1);
      assert Sized(states[i - 1]) && Sized(states[i]);
      NextAgrees(states[i - 1], events[i - 1], states[i], max);
    }
  }

  lemma NextAgrees(s: Cluster, e: Event, t: Cluster, max: nat)
    requires Safe(s, max) && Next(s, e, t, max) && AllAgree(s) && Sized(s) && Sized(t) && max <= U32_MAX
    ensures AllAgree(t)
  {
    hide Takes, Agrees;
    match e {
      case Join(_, local) => EmptyAgrees(local);
      case Leave(_) =>
      case Send(_, _) =>
      case Hit(who, _, _, _) => NarrowAgreementStep(s.nodes[who], BatchOf(e, max), t.nodes[who], max);
      case Deliver(who, _, _) => NarrowAgreementStep(s.nodes[who], BatchOf(e, max), t.nodes[who], max);
      case Sweep(who, _) => NarrowAgreementStep(s.nodes[who], BatchOf(e, max), t.nodes[who], max);
    }
  }
}
