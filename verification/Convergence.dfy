/** Merging is a join: order, batching and repetition do not matter, and nodes that have heard every
    origin's last word agree. */
module Convergence {
  import opened Base
  import opened Cells
  import opened Dictionary
  import opened Counters
  import opened Expiry
  import opened Sums
  import opened Windows
  import opened Aggregates
  import opened Clusters
  import opened Retention

  ghost predicate MergesOnly(us: seq<Update>) {
    forall i :: 0 <= i < |us| ==> us[i].mode.MaxMerge?
  }

  ghost function RowsOf(us: seq<Update>): set<Update> {
    set u | u in us
  }

  function AllTaken(n: nat): (taken: seq<bool>)
    ensures |taken| == n && forall i :: 0 <= i < n ==> taken[i]
  {
    seq(n, _ => true)
  }

  /** `r` is the least map above `m` and above every row. */
  ghost predicate IsJoin(m: Counts, us: set<Update>, r: Counts) {
    && (forall id :: id in r <==> id in m || exists u :: u in us && u.id == id)
    && (forall id :: id in m ==> m[id] <= CountOf(r, id))
    && (forall u :: u in us ==> u.mode.MaxMerge? && u.mode.observed <= CountOf(r, u.id))
    && (forall id :: id in r ==> r[id] == CountOf(m, id) || Update(id, MaxMerge(r[id])) in us)
  }

  lemma JoinUnique(m: Counts, us: set<Update>, r: Counts, q: Counts)
    requires IsJoin(m, us, r) && IsJoin(m, us, q)
    ensures r == q
  {
    forall id | id in r ensures r[id] == q[id] {
      JoinAtMost(m, us, r, q, id);
      JoinAtMost(m, us, q, r, id);
    }
  }

  lemma JoinAtMost(m: Counts, us: set<Update>, r: Counts, q: Counts, id: CellId)
    requires IsJoin(m, us, r) && IsJoin(m, us, q) && id in r
    ensures id in q && r[id] <= q[id]
  {
    if r[id] != CountOf(m, id) {
      assert Update(id, MaxMerge(r[id])) in us;
    }
  }

  lemma {:induction false} MergeIsJoin(m: Counts, us: seq<Update>, max: nat)
    requires MergesOnly(us)
    ensures IsJoin(m, RowsOf(us), Absorb(m, us, AllTaken(|us|), max))
  {
    hide IsJoin, RowsOf, Upserted;
    if us == [] {
      JoinOfNone(m);
    } else {
      var n := |us| - 1;
      MergeIsJoin(m, us[..n], max);
      assert AllTaken(|us|)[..n] == AllTaken(n);
      JoinStep(m, RowsOf(us[..n]), Absorb(m, us[..n], AllTaken(n), max), us[n], max);
      RowsOfMore(us);
    }
  }

  lemma JoinOfNone(m: Counts)
    ensures IsJoin(m, RowsOf([]), m)
  {
  }

  lemma RowsOfMore(us: seq<Update>)
    requires us != []
    ensures RowsOf(us) == RowsOf(us[..|us| - 1]) + {us[|us| - 1]}
  {
  }

  lemma JoinStep(m: Counts, us: set<Update>, r: Counts, u: Update, max: nat)
    requires IsJoin(m, us, r) && u.mode.MaxMerge?
    ensures IsJoin(m, us + {u}, Upserted(r, u, max))
  {
    var q := Upserted(r, u, max);
    assert CountOf(r, u.id) <= q[u.id];
    forall id ensures id in q <==> id in m || exists v :: v in us + {u} && v.id == id {
      if id == u.id {
        assert u in us + {u};
      } else if id in r && id !in m {
        var v :| v in us && v.id == id;
        assert v in us + {u};
      }
    }
    if q[u.id] != CountOf(r, u.id) {
      assert u == Update(u.id, MaxMerge(q[u.id]));
    }
    if u.id !in r {
      assert q[u.id] == u.mode.observed && u == Update(u.id, MaxMerge(q[u.id]));
    }
  }

  /** Strong convergence of one store: the same set of rows gives the same map, whatever the order and
      the number of times each row arrives. */
  lemma MergeOrderIrrelevant(m: Counts, us: seq<Update>, vs: seq<Update>, max: nat)
    requires MergesOnly(us) && RowsOf(us) == RowsOf(vs)
    ensures Absorb(m, us, AllTaken(|us|), max) == Absorb(m, vs, AllTaken(|vs|), max)
  {
    forall i | 0 <= i < |vs| ensures vs[i].mode.MaxMerge? {
      assert vs[i] in RowsOf(vs);
      assert vs[i] in us;
    }
    MergeIsJoin(m, us, max);
    MergeIsJoin(m, vs, max);
    JoinUnique(m, RowsOf(us), Absorb(m, us, AllTaken(|us|), max), Absorb(m, vs, AllTaken(|vs|), max));
  }

  /** However the rows are cut into batches. */
  lemma {:induction false} BatchingIrrelevant(m: Counts, us: seq<Update>, vs: seq<Update>, a: seq<bool>, b: seq<bool>,
                                              max: nat)
    requires |us| == |a| && |vs| == |b|
    ensures Absorb(Absorb(m, us, a, max), vs, b, max) == Absorb(m, us + vs, a + b, max)
  {
    if vs == [] {
      assert us + vs == us && a + b == a;
    } else {
      var n := |vs| - 1;
      BatchingIrrelevant(m, us, vs[..n], a, b[..n], max);
      assert (us + vs)[..|us| + n] == us + vs[..n] && (a + b)[..|us| + n] == a + b[..n];
    }
  }

  // -- Runs -------------------------------------------------------------------------------------

  lemma {:induction false} AbsorbGrows(m: Counts, us: seq<Update>, taken: seq<bool>, max: nat)
    requires |us| == |taken| && Within(m, max) && FitAll(us, max)
    ensures AtMost(m, Absorb(m, us, taken, max)) && Within(Absorb(m, us, taken, max), max)
  {
    if us != [] {
      var n := |us| - 1;
      AbsorbGrows(m, us[..n], taken[..n], max);
      assert Fits(us[n], max);
    }
  }

  /** A taken row leaves at least its count behind. */
  lemma {:induction false} MergeTeaches(m: Counts, us: seq<Update>, taken: seq<bool>, max: nat, i: nat)
    requires |us| == |taken| && Within(m, max) && FitAll(us, max) && i < |us| && taken[i] && us[i].mode.MaxMerge?
    ensures us[i].mode.observed <= CountOf(Absorb(m, us, taken, max), us[i].id)
  {
    var n := |us| - 1;
    AbsorbGrows(m, us[..n], taken[..n], max);
    assert Fits(us[n], max);
    if i < n {
      MergeTeaches(m, us[..n], taken[..n], max, i);
    }
  }

  ghost predicate Holds(s: Cluster, d: NodeDescriptor, row: Row) {
    d in s.nodes && row.count <= CountOf(s.nodes[d].counts, row.id)
  }

  /** The node leaves, or sweeps at a time at which this cell has aged out. */
  ghost predicate Drops(e: Event, d: NodeDescriptor, id: CellId) {
    e == Leave(d) || (e.Sweep? && e.who == d && e.batch.Expiry? && Expired(e.batch.rules, id, e.batch.now))
  }

  lemma NextKeeps(s: Cluster, e: Event, t: Cluster, max: nat, d: NodeDescriptor, row: Row)
    requires Safe(s, max) && Next(s, e, t, max) && Holds(s, d, row) && !Drops(e, d, row.id)
    ensures Holds(t, d, row)
  {
    hide Absorb, Folds, Share, Expired;
    if (e.Hit? || e.Deliver?) && e.who == d {
      var b := BatchOf(e, max);
      AbsorbGrows(s.nodes[d].counts, b.us, b.taken, max);
    }
  }

  /** A delivered row that is not refused is held. */
  lemma DeliverTeaches(s: Cluster, e: Event, t: Cluster, max: nat, i: nat)
    requires Safe(s, max) && Next(s, e, t, max) && e.Deliver? && i < |e.packet| && e.took[i]
    ensures Holds(t, e.who, e.packet[i])
  {
    hide Absorb, Folds, Share;
    var b := BatchOf(e, max);
    MergeTeaches(s.nodes[e.who].counts, b.us, b.taken, max, i);
  }

  lemma {:induction false} RunKeeps(states: seq<Cluster>, events: seq<Event>, max: nat, d: NodeDescriptor, row: Row,
                                    from: nat, until: nat)
    requires Run(states, events, max) && from <= until <= |events| && Holds(states[from], d, row)
    requires forall i :: from <= i < until ==> !Drops(events[i], d, row.id)
    ensures Holds(states[until], d, row)
    decreases until
  {
    if from < until {
      RunKeeps(states, events, max, d, row, from, until - 1);
      RunSafe(states, events, max, until - 1);
      NextKeeps(states[until - 1], events[until - 1], states[until], max, d, row);
    }
  }

  /** A delivered row that is not refused is held until the node leaves or the cell ages out of a sweep. */
  lemma DeliveredStays(states: seq<Cluster>, events: seq<Event>, max: nat, at: nat, i: nat, until: nat)
    requires Run(states, events, max) && at < until <= |events| && events[at].Deliver?
    requires i < |events[at].packet| && i < |events[at].took| && events[at].took[i]
    requires forall j :: at < j < until ==> !Drops(events[j], events[at].who, events[at].packet[i].id)
    ensures Holds(states[until], events[at].who, events[at].packet[i])
  {
    RunSafe(states, events, max, at);
    assert Next(states[at], events[at], states[at + 1], max);
    hide Next, Safe, Holds, Drops;
    DeliverTeaches(states[at], events[at], states[at + 1], max, i);
    RunKeeps(states, events, max, events[at].who, events[at].packet[i], at + 1, until);
  }

  /** The node came to hold `row` in state `from` and has not dropped its cell since. */
  ghost predicate Learned(states: seq<Cluster>, events: seq<Event>, d: NodeDescriptor, row: Row, from: nat) {
    && |states| == |events| + 1 && from <= |events| && Holds(states[from], d, row)
    && forall i :: from <= i < |events| ==> !Drops(events[i], d, row.id)
  }

  /** What the origins recorded, as far as their counters go. */
  ghost function Clipped(recorded: Counts, max: nat): Counts {
    map id | id in recorded :: Min(recorded[id], max)
  }

  /** The node has heard the origin's last word on the cell, if there is one, and still has it. */
  ghost predicate Heard(states: seq<Cluster>, events: seq<Event>, max: nat, d: NodeDescriptor, id: CellId)
    requires |states| == |events| + 1
  {
    id in states[|events|].recorded ==>
      exists from: nat :: Learned(states, events, d, Row(id, Min(states[|events|].recorded[id], max)), from)
  }

  /** Convergence, cell by cell: a node that has heard the origin's last word holds exactly the recorded
      hits, up to the counter's width, through all its sweeps that do not expire the cell. */
  lemma Converged(states: seq<Cluster>, events: seq<Event>, max: nat, d: NodeDescriptor, id: CellId)
    requires Run(states, events, max) && d in states[|events|].nodes && Heard(states, events, max, d, id)
    ensures CountOf(states[|events|].nodes[d].counts, id) == Min(CountOf(states[|events|].recorded, id), max)
  {
    hide Next, Drops, Share;
    var f := states[|events|];
    RunSafe(states, events, max, |events|);
    assert NodeSafe(f.nodes[d], f.recorded, max);
    if id in f.recorded {
      var row := Row(id, Min(f.recorded[id], max));
      var from: nat :| Learned(states, events, d, row, from);
      RunKeeps(states, events, max, d, row, from, |events|);
    }
  }

  /** Every cell of the rule and key in the buckets of the window has been heard. */
  ghost predicate HeardWindow(states: seq<Cluster>, events: seq<Event>, max: nat, d: NodeDescriptor,
                              fp: nat, key: nat, lo: nat, hi: nat)
    requires |states| == |events| + 1
  {
    forall id: CellId :: id.fingerprint == fp && id.keyHash == key && lo <= id.bucket < hi ==>
      Heard(states, events, max, d, id)
  }

  /** So nodes that have heard every cell of a window agree on its sum, whatever else they swept: it is the
      sum of the recorded hits, each cell up to the counter's width. */
  lemma WindowConverged(states: seq<Cluster>, events: seq<Event>, max: nat, d: NodeDescriptor,
                        fp: nat, key: nat, lo: nat, hi: nat)
    requires Run(states, events, max) && d in states[|events|].nodes
    requires HeardWindow(states, events, max, d, fp, key, lo, hi)
    ensures
      var f := states[|events|];
      SumRange(Column(f.nodes[d].counts, fp, key), lo, hi)
      == SumRange(Column(Clipped(f.recorded, max), fp, key), lo, hi)
  {
    hide Next, Heard;
    var f := states[|events|];
    var held, truth := Column(f.nodes[d].counts, fp, key), Column(Clipped(f.recorded, max), fp, key);
    forall b: nat | lo <= b < hi ensures held(b) == truth(b) {
      forall id: CellId | id.Identity() == CellIdentity(fp, key, b)
        ensures CountOf(f.nodes[d].counts, id) == CountOf(Clipped(f.recorded, max), id)
      {
        Converged(states, events, max, d, id);
      }
      SameGroups(f.nodes[d].counts, Clipped(f.recorded, max), CellIdentity(fp, key, b));
    }
    SumSame(held, truth, lo, hi);
  }

  /** What any two such nodes read in that window is then the same, totals included. */
  lemma ReadsConverge(states: seq<Cluster>, events: seq<Event>, max: nat, d: NodeDescriptor, e: NodeDescriptor,
                      fp: nat, key: nat, t: nat, bm: nat, live: nat)
    requires Run(states, events, max) && max <= U32_MAX && forall j :: 0 <= j <= |events| ==> Sized(states[j])
    requires d in states[|events|].nodes && e in states[|events|].nodes && bm > 0
    requires fp in states[|events|].nodes[d].local && fp in states[|events|].nodes[e].local
    requires
      var lo, hi := Oldest(Epoch(t, bm), live), Epoch(t, bm) + 1;
      && HeardWindow(states, events, max, d, fp, key, lo, hi) && HeardWindow(states, events, max, e, fp, key, lo, hi)
    ensures
      var nodes := states[|events|].nodes;
      Visible(Buckets(nodes[d].aggregate, fp, key), t, bm, live)
      == Visible(Buckets(nodes[e].aggregate, fp, key), t, bm, live)
  {
    hide Next, HeardWindow, Epoch;
    var f, lo, hi := states[|events|], Oldest(Epoch(t, bm), live), Epoch(t, bm) + 1;
    RunAgrees(states, events, max, |events|);
    WindowConverged(states, events, max, d, fp, key, lo, hi);
    WindowConverged(states, events, max, e, fp, key, lo, hi);
    ReadsTell(f.nodes[d], fp, key, lo, hi);
    ReadsTell(f.nodes[e], fp, key, lo, hi);
  }

  lemma ReadsTell(n: Node, fp: nat, key: nat, lo: nat, hi: nat)
    requires Agrees(n.aggregate, n.counts, n.local) && fp in n.local
    ensures SumRange(Buckets(n.aggregate, fp, key), lo, hi) == SumRange(Column(n.counts, fp, key), lo, hi)
  {
    SumSame(Buckets(n.aggregate, fp, key), Column(n.counts, fp, key), lo, hi);
  }

  lemma SameGroups(a: Counts, b: Counts, k: CellIdentity)
    requires forall id: CellId :: id.Identity() == k ==> CountOf(a, id) == CountOf(b, id)
    ensures Sum(a, k) == Sum(b, k)
  {
    SumMonotone(Group(a, k), b, k);
    SumMonotone(Group(b, k), a, k);
    assert Group(Group(a, k), k) == Group(a, k) && Group(Group(b, k), k) == Group(b, k);
  }

  /** A sweep that knows the rule with this window, at most one epoch ahead of the read, drops no cell the
      read still counts. */
  lemma LiveWindowStays(e: Event, d: NodeDescriptor, id: CellId, cur: nat, live: nat)
    requires e.Sweep? && e.batch.Expiry? && Oldest(cur, live) <= id.bucket
    requires
      id.fingerprint in e.batch.rules ==>
        var rule := e.batch.rules[id.fingerprint];
        rule.LiveBuckets() == live && rule.CurrentEpoch(e.batch.now) <= cur + 1
    ensures !Drops(e, d, id)
  {
  }

  /** Nodes that have heard everything agree on every cell and every sum, and the sums are those of the
      recorded hits when no counter was too narrow. */
  lemma AllConverged(states: seq<Cluster>, events: seq<Event>, max: nat, d: NodeDescriptor)
    requires Run(states, events, max) && d in states[|events|].nodes
    requires forall id :: Heard(states, events, max, d, id)
    ensures
      var f := states[|events|];
      && (forall k :: Sum(f.nodes[d].counts, k) == Sum(Clipped(f.recorded, max), k))
      && (Within(f.recorded, max) ==> forall k :: Sum(f.nodes[d].counts, k) == Sum(f.recorded, k))
  {
    hide Heard, Share, Next;
    var f := states[|events|];
    RunSafe(states, events, max, |events|);
    assert NodeSafe(f.nodes[d], f.recorded, max);
    forall id ensures CountOf(f.nodes[d].counts, id) == Min(CountOf(f.recorded, id), max) {
      Converged(states, events, max, d, id);
    }
    hide Run;
    ClippedSums(f.nodes[d].counts, f.recorded, max);
  }

  lemma ClippedSums(counts: Counts, recorded: Counts, max: nat)
    requires AtMost(counts, recorded) && Within(counts, max) && AtMost(Clipped(recorded, max), counts)
    ensures forall id :: CountOf(counts, id) == Min(CountOf(recorded, id), max)
    ensures forall k :: Sum(counts, k) == Sum(Clipped(recorded, max), k)
    ensures Within(recorded, max) ==> forall k :: Sum(counts, k) == Sum(recorded, k)
  {
    var all := Clipped(recorded, max);
    forall id ensures CountOf(counts, id) == Min(CountOf(recorded, id), max) {
      if id in recorded {
        assert all[id] <= CountOf(counts, id);
      }
    }
    forall k ensures Sum(counts, k) == Sum(all, k) {
      SumMonotone(counts, all, k);
      SumMonotone(all, counts, k);
    }
    if Within(recorded, max) {
      assert all == recorded;
    }
  }

  /** Where a final count comes from: a cell of the node's own that holds exactly what was recorded, up to
      the counter's width. */
  ghost predicate OwnExact(s: Cluster, id: CellId, max: nat) {
    && Origin(id) in s.nodes
    && CountOf(s.nodes[Origin(id)].counts, id) == Min(CountOf(s.recorded, id), max)
  }

  lemma HitExact(s: Cluster, e: Event, t: Cluster, max: nat, id: CellId)
    requires Safe(s, max) && Next(s, e, t, max) && e.Hit? && OwnExact(s, id, max)
    ensures OwnExact(t, id, max)
  {
    hide Folds, Share;
    var d := Origin(id);
    if e.who == d {
      var u := Update(OwnCell(d, e.key), Accumulate(Min(e.hits, max)));
      assert [u][..0] == [] && [e.taken][..0] == [];
      assert Absorb(s.nodes[d].counts, [], [], max) == s.nodes[d].counts;
      assert t.nodes[d].counts == if e.taken then Upserted(s.nodes[d].counts, u, max) else s.nodes[d].counts;
    }
  }

  lemma {:induction false} MergeLeaves(m: Counts, us: seq<Update>, taken: seq<bool>, max: nat, id: CellId)
    requires |us| == |taken| && MergesOnly(us)
    requires forall i :: 0 <= i < |us| && us[i].id == id ==> us[i].mode.observed <= CountOf(m, id)
    ensures CountOf(Absorb(m, us, taken, max), id) == CountOf(m, id)
  {
    if us != [] {
      MergeLeaves(m, us[..|us| - 1], taken[..|us| - 1], max, id);
    }
  }

  lemma DeliverExact(s: Cluster, e: Event, t: Cluster, max: nat, id: CellId)
    requires Safe(s, max) && Next(s, e, t, max) && e.Deliver? && OwnExact(s, id, max)
    ensures OwnExact(t, id, max)
  {
    hide Folds, Share, Absorb;
    if e.who == Origin(id) {
      var us, counts := Merges(e.packet), s.nodes[e.who].counts;
      forall i | 0 <= i < |us| && us[i].id == id ensures us[i].mode.observed <= CountOf(counts, id) {
        assert e.packet[i] in e.packet;
      }
      MergeLeaves(counts, us, e.took, max, id);
    }
  }

  lemma SweepExact(s: Cluster, e: Event, t: Cluster, max: nat, id: CellId)
    requires Next(s, e, t, max) && e.Sweep? && !Drops(e, Origin(id), id) && OwnExact(s, id, max)
    ensures OwnExact(t, id, max)
  {
    hide Folds, Share, Expired;
  }

  lemma NextExact(s: Cluster, e: Event, t: Cluster, max: nat, id: CellId)
    requires Safe(s, max) && Next(s, e, t, max) && !Drops(e, Origin(id), id) && OwnExact(s, id, max)
    ensures OwnExact(t, id, max)
  {
    hide Takes;
    match e {
      case Hit(_, _, _, _) => HitExact(s, e, t, max, id);
      case Deliver(_, _, _) => DeliverExact(s, e, t, max, id);
      case Sweep(_, _) => SweepExact(s, e, t, max, id);
      case Join(_, _) =>
      case Leave(_) =>
      case Send(_, _) =>
    }
  }

  /** From its join on, until it leaves or a sweep expires the cell, an origin holds exactly what it recorded
      in each cell of its own. Refused hits, lost, repeated and stale frames and other sweeps do not change
      that, so what it sends is exact. */
  lemma {:induction false} OriginExact(states: seq<Cluster>, events: seq<Event>, max: nat, id: CellId, from: nat,
                                       until: nat)
    requires Run(states, events, max) && from < until <= |events|
    requires events[from].Join? && events[from].who == Origin(id)
    requires forall i :: from <= i < until ==> !Drops(events[i], Origin(id), id)
    ensures OwnExact(states[until], id, max)
    decreases until
  {
    RunSafe(states, events, max, until - 1);
    if from + 1 == until {
      assert Next(states[from], events[from], states[until], max);
    } else {
      hide Drops, Next, Safe, OwnExact;
      OriginExact(states, events, max, id, from, until - 1);
      assert Next(states[until - 1], events[until - 1], states[until], max);
      NextExact(states[until - 1], events[until - 1], states[until], max, id);
    }
  }
}
