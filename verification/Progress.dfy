/** No event of the cluster is ever blocked: every hit, packet and sweep is possible in every state a run
    can reach, with any pattern of refusals. */
module Progress {
  import opened Base
  import opened Cells
  import opened Dictionary
  import opened Counters
  import opened Expiry
  import opened Aggregates
  import opened Clusters

  ghost function Gainer(a: Aggregate, rows: seq<CountChange>): Aggregate {
    if rows == [] then a
    else
      var before, row := Gainer(a, rows[..|rows| - 1]), rows[|rows| - 1];
      if row.appliesLocally && row.delta != 0
      then before[row.key := SatAdd(ReadIn(before, row.key), row.delta, U64_MAX)] else before
  }

  ghost function Loser(a: Aggregate, rows: seq<CellExpiration>): Aggregate {
    if rows == [] then a
    else
      var before, row := Loser(a, rows[..|rows| - 1]), rows[|rows| - 1];
      var left := SatSub(ReadIn(before, row.key), row.lastCount);
      if !row.appliesLocally || row.key !in before then before
      else if left == 0 then before - {row.key} else before[row.key := left]
  }

  lemma {:induction false} GainerGains(a: Aggregate, rows: seq<CountChange>)
    requires Stored(a)
    ensures Gains(a, Gainer(a, rows), rows)
  {
    if rows == [] {
      GainsStart(a);
    } else {
      var n := |rows| - 1;
      GainerGains(a, rows[..n]);
      GainsStep(a, Gainer(a, rows[..n]), rows, n);
      assert rows[..n + 1] == rows;
    }
  }

  lemma {:induction false} LoserLoses(a: Aggregate, rows: seq<CellExpiration>)
    requires Stored(a)
    ensures Losses(a, Loser(a, rows), rows)
  {
    if rows == [] {
      GainsStart(a);
    } else {
      var n := |rows| - 1;
      LoserLoses(a, rows[..n]);
      LossesStep(a, Loser(a, rows[..n]), rows, n);
      assert rows[..n + 1] == rows;
    }
  }

  lemma FoldExists(a: Aggregate, deltas: seq<CountChange>, expirations: seq<CellExpiration>) returns (next: Aggregate)
    requires Stored(a)
    ensures Folds(a, next, deltas, expirations)
  {
    hide Gained, Lost, Gainer, Loser;
    var mid := Gainer(a, deltas);
    GainerGains(a, deltas);
    next := Loser(mid, expirations);
    LoserLoses(mid, expirations);
  }

  lemma StepEnabled(n: Node, b: Batch, max: nat) returns (next: Node)
    requires Stored(n.aggregate) && Fitting(n.counts, b, max, n.local)
    ensures Takes(n, b, next, max)
  {
    var a := FoldExists(n.aggregate, StepDeltas(n.counts, b, max, n.local), StepExpirations(b));
    next := Node(Step(n.counts, b, max, n.local), a, n.local);
  }

  ghost function RowFor(id: CellId, m: Counts, local: set<nat>): CellExpiration {
    CellExpiration(CellHandle(0, 0), id.Identity(), CountOf(m, id), 0, id.fingerprint in local)
  }

  lemma {:induction false} Listed(ids: set<CellId>) returns (s: seq<CellId>)
    ensures Distinct(s) && forall id :: id in s <==> id in ids
    decreases |ids|
  {
    if ids == {} {
      s := [];
    } else {
      var id :| id in ids;
      var rest := Listed(ids - {id});
      s := rest + [id];
      assert forall x :: x in s <==> x in rest || x == id;
    }
  }

  /** Whatever has aged at `now` can be swept. */
  lemma SweepExists(m: Counts, rules: map<nat, RuleDescriptor>, now: nat, local: set<nat>, max: nat) returns (b: Batch)
    ensures b.Expiry? && b.rules == rules && b.now == now && Fitting(m, b, max, local)
  {
    var ids := Listed(set id | id in m && Expired(rules, id, now));
    var rows := seq(|ids|, i requires 0 <= i < |ids| => RowFor(ids[i], m, local));
    b := Expiry(rules, now, ids, rows);
    forall k | 0 <= k < |ids| ensures Tells(rows[k], ids[k], m, local) {}
  }

  /** Whether a store event fits the node it is for. */
  ghost predicate Offered(s: Cluster, e: Event, max: nat) {
    && (e.Hit? || e.Deliver? || (e.Sweep? && e.batch.Expiry?)) && e.who in s.nodes
    && (e.Deliver? ==> |e.packet| == |e.took| && forall r :: r in e.packet ==> r in s.sent)
    && (e.Sweep? ==> Fitting(s.nodes[e.who].counts, e.batch, max, s.nodes[e.who].local))
  }

  lemma OfferedFits(s: Cluster, e: Event, max: nat)
    requires Safe(s, max) && Offered(s, e, max)
    ensures Fitting(s.nodes[e.who].counts, BatchOf(e, max), max, s.nodes[e.who].local)
  {
    if e.Deliver? {
      var us := Merges(e.packet);
      forall i | 0 <= i < |us| ensures Fits(us[i], max) {
        assert e.packet[i] in e.packet;
      }
    }
  }

  /** Every hit, every delivery of rows ever sent, every sweep, with any refusals. */
  lemma EventEnabled(s: Cluster, e: Event, max: nat) returns (t: Cluster)
    requires Safe(s, max) && Offered(s, e, max)
    ensures Next(s, e, t, max)
  {
    OfferedFits(s, e, max);
    assert NodeSafe(s.nodes[e.who], s.recorded, max);
    var next := StepEnabled(s.nodes[e.who], BatchOf(e, max), max);
    hide Takes, Fitting;
    t := s.(nodes := s.nodes[e.who := next]);
    if e.Hit? && e.taken {
      var id := OwnCell(e.who, e.key);
      t := t.(recorded := s.recorded[id := CountOf(s.recorded, id) + Min(e.hits, max)]);
    }
    assert t.nodes == s.nodes[e.who := t.nodes[e.who]];
  }

  /** What a node may be asked to do at any moment. */
  datatype Wish =
    | TakeHit(who: NodeDescriptor, key: CellIdentity, hits: nat, taken: bool)
    | Receive(who: NodeDescriptor, packet: seq<Row>, took: seq<bool>)
    | SweepAt(who: NodeDescriptor, rules: map<nat, RuleDescriptor>, now: nat)

  /** The node is there, and a packet holds rows that were sent. */
  ghost predicate Sensible(s: Cluster, w: Wish) {
    w.who in s.nodes && (w.Receive? ==> |w.packet| == |w.took| && forall r :: r in w.packet ==> r in s.sent)
  }

  ghost predicate Grants(e: Event, w: Wish) {
    match w
    case TakeHit(who, key, hits, taken) => e == Hit(who, key, hits, taken)
    case Receive(who, packet, took) => e == Deliver(who, packet, took)
    case SweepAt(who, rules, now) =>
      e.Sweep? && e.who == who && e.batch.Expiry? && e.batch.rules == rules && e.batch.now == now
  }

  /** No hit, delivery or sweep is ever blocked, whatever the node refuses for capacity and whatever rules
      and time it sweeps with. */
  lemma WishGranted(s: Cluster, w: Wish, max: nat) returns (e: Event, t: Cluster)
    requires Safe(s, max) && Sensible(s, w)
    ensures Grants(e, w) && Next(s, e, t, max)
  {
    match w {
      case TakeHit(who, key, hits, taken) => e := Hit(who, key, hits, taken);
      case Receive(who, packet, took) => e := Deliver(who, packet, took);
      case SweepAt(who, rules, now) =>
        var b := SweepExists(s.nodes[who].counts, rules, now, s.nodes[who].local, max);
        e := Sweep(who, b);
    }
    hide Safe, Next, Fitting;
    t := EventEnabled(s, e, max);
  }

  /** So any run can go on in any way. */
  lemma RunExtends(states: seq<Cluster>, events: seq<Event>, max: nat, w: Wish) returns (e: Event, t: Cluster)
    requires Run(states, events, max) && Sensible(states[|events|], w)
    ensures Grants(e, w) && Run(states + [t], events + [e], max)
  {
    RunSafe(states, events, max, |events|);
    e, t := WishGranted(states[|events|], w, max);
    hide Next, Safe, Sensible, Grants;
  }
}
