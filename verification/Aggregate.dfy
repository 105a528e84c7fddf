/** The aggregate store of the server (`server/src/store.rs`): per-bucket totals over all origins,
    maintained from delta and expiration rows only. */
module Aggregates {
  import opened Base
  import opened Cells
  import opened Dictionary
  import opened Counters
  import opened Expiry
  import opened Sums
  import opened Windows

  type Aggregate = map<CellIdentity, nat>

  function ReadIn(a: Aggregate, k: CellIdentity): nat {
    if k in a then a[k] else 0
  }

  /** Rows hold positive 64-bit totals; a total of zero has no row. */
  ghost predicate Stored(a: Aggregate) {
    forall k :: k in a ==> 0 < a[k] <= U64_MAX
  }

  /** What the rows of a delta sink add to one total. */
  ghost function Gained(rows: seq<CountChange>, k: CellIdentity): nat {
    if rows == [] then 0
    else
      var row := rows[|rows| - 1];
      Gained(rows[..|rows| - 1], k) + if row.appliesLocally && row.key == k then row.delta else 0
  }

  /** What the rows of an expiration sink take from one total. */
  ghost function Lost(rows: seq<CellExpiration>, k: CellIdentity): nat {
    if rows == [] then 0
    else
      var row := rows[|rows| - 1];
      Lost(rows[..|rows| - 1], k) + if row.appliesLocally && row.key == k then row.lastCount else 0
  }

  /** The total after one `apply`: everything gained first, then everything lost, both saturating. */
  ghost function Settled(before: nat, gained: nat, lost: nat): nat {
    SatSub(SatAdd(before, gained, U64_MAX), lost)
  }

  /** One `apply` call. */
  ghost predicate Folds(was: Aggregate, now: Aggregate, deltas: seq<CountChange>, expirations: seq<CellExpiration>) {
    Stored(now) && forall k :: ReadIn(now, k) == Settled(ReadIn(was, k), Gained(deltas, k), Lost(expirations, k))
  }

  ghost predicate Gains(was: Aggregate, a: Aggregate, rows: seq<CountChange>) {
    Stored(a) && forall k :: ReadIn(a, k) == SatAdd(ReadIn(was, k), Gained(rows, k), U64_MAX)
  }

  ghost predicate Losses(was: Aggregate, a: Aggregate, rows: seq<CellExpiration>) {
    Stored(a) && forall k :: ReadIn(a, k) == SatSub(ReadIn(was, k), Lost(rows, k))
  }

  lemma GainsStart(was: Aggregate)
    requires Stored(was)
    ensures Gains(was, was, []) && Losses(was, was, [])
  {
  }

  lemma GainsStep(was: Aggregate, a: Aggregate, rows: seq<CountChange>, i: nat)
    requires Stored(was) && i < |rows| && Gains(was, a, rows[..i])
    ensures
      var row := rows[i];
      var next :=
        if row.appliesLocally && row.delta != 0 then a[row.key := SatAdd(ReadIn(a, row.key), row.delta, U64_MAX)]
        else a;
      Gains(was, next, rows[..i + 1])
  {
    var row := rows[i];
    var next :=
      if row.appliesLocally && row.delta != 0 then a[row.key := SatAdd(ReadIn(a, row.key), row.delta, U64_MAX)] else a;
    assert rows[..i + 1][..i] == rows[..i];
    forall k ensures ReadIn(next, k) == SatAdd(ReadIn(was, k), Gained(rows[..i + 1], k), U64_MAX) {
      assert ReadIn(a, k) == SatAdd(ReadIn(was, k), Gained(rows[..i], k), U64_MAX);
    }
  }

  lemma LossesStep(was: Aggregate, a: Aggregate, rows: seq<CellExpiration>, i: nat)
    requires Stored(was) && i < |rows| && Losses(was, a, rows[..i])
    ensures
      var row := rows[i];
      var left := SatSub(ReadIn(a, row.key), row.lastCount);
      var next :=
        if !row.appliesLocally || row.key !in a then a else if left == 0 then a - {row.key} else a[row.key := left];
      Losses(was, next, rows[..i + 1])
  {
    var row := rows[i];
    var left := SatSub(ReadIn(a, row.key), row.lastCount);
    var next :=
      if !row.appliesLocally || row.key !in a then a else if left == 0 then a - {row.key} else a[row.key := left];
    assert rows[..i + 1][..i] == rows[..i];
    forall k ensures ReadIn(next, k) == SatSub(ReadIn(was, k), Lost(rows[..i + 1], k)) {
      assert ReadIn(a, k) == SatSub(ReadIn(was, k), Lost(rows[..i], k));
    }
  }

  class DashMapStore {
    var cells: Aggregate

    constructor ()
      ensures cells == map[] && Stored(cells)
    {
      cells := map[];
    }

    /** `window_total`: the saturating sum of the last `liveBuckets` buckets up to the current one. */
    method WindowTotal(fp: nat, key: nat, now: nat, bucketMillis: nat, liveBuckets: nat) returns (total: nat)
      requires bucketMillis > 0
      ensures total == Visible(Buckets(cells, fp, key), now, bucketMillis, liveBuckets)
    {
      ghost var c := Buckets(cells, fp, key);
      var current := Epoch(now, bucketMillis);
      total := 0;
      for offset := 0 to liveBuckets
        invariant offset <= current + 1
        invariant total == Min(SumRange(c, current + 1 - offset, current + 1), U64_MAX)
      {
        if current < offset {
          return;
        }
        var bucket := current - offset;
        SumSplits(c, bucket, bucket + 1, current + 1);
        if CellIdentity(fp, key, bucket) in cells {
          total := SatAdd(total, cells[CellIdentity(fp, key, bucket)], U64_MAX);
        }
      }
    }

    /** `time_until_admit_millis` over this store's totals. */
    method TimeUntilAdmitMillis(fp: nat, key: nat, now: nat, bucketMillis: nat, liveBuckets: nat, limit: nat,
                                total: nat, hits: nat)
      returns (delay: nat)
      ensures delay == AdmitDelay(Buckets(cells, fp, key), now, Max(bucketMillis, 1), Max(liveBuckets, 1), limit, total,
                                  hits)
    {
      delay := Windows.TimeUntilAdmitMillis(now, bucketMillis, liveBuckets, limit, total, hits,
                                            Buckets(cells, fp, key));
    }

    /** All deltas, then all expirations; a row whose total reaches zero goes. */
    method Apply(deltas: seq<CountChange>, expirations: seq<CellExpiration>)
      requires Stored(cells)
      modifies this
      ensures Folds(old(cells), cells, deltas, expirations)
    {
      hide Gains, Losses, Stored;
      GainsStart(cells);
      for i := 0 to |deltas|
        invariant Gains(old(cells), cells, deltas[..i])
      {
        GainsStep(old(cells), cells, deltas, i);
        var row := deltas[i];
        if row.appliesLocally {
          var v := row.delta;
          if v != 0 {
            cells := cells[row.key := SatAdd(ReadIn(cells, row.key), v, U64_MAX)];
          }
        }
      }
      assert deltas[..|deltas|] == deltas;
      ghost var mid := cells;
      GainsTell(old(cells), mid, deltas);
      GainsStart(mid);
      for i := 0 to |expirations|
        invariant Losses(mid, cells, expirations[..i])
      {
        LossesStep(mid, cells, expirations, i);
        var row := expirations[i];
        ghost var before := cells;
        if row.appliesLocally && row.key in cells {
          var next := SatSub(cells[row.key], row.lastCount);
          cells := cells[row.key := next];
          if next == 0 {
            assert cells - {row.key} == before - {row.key};
            cells := cells - {row.key};
          }
        }
      }
      assert expirations[..|expirations|] == expirations;
      LossesTell(mid, cells, expirations);
    }
  }

  /** The totals of one (rule, key), bucket by bucket. */
  function Buckets(a: Aggregate, fp: nat, key: nat): nat -> nat {
    (b: nat) => ReadIn(a, CellIdentity(fp, key, b))
  }

  lemma GainsTell(was: Aggregate, a: Aggregate, rows: seq<CountChange>)
    requires Gains(was, a, rows)
    ensures Stored(a) && forall k :: ReadIn(a, k) == SatAdd(ReadIn(was, k), Gained(rows, k), U64_MAX)
  {
  }

  lemma LossesTell(was: Aggregate, a: Aggregate, rows: seq<CellExpiration>)
    requires Losses(was, a, rows)
    ensures Stored(a) && forall k :: ReadIn(a, k) == SatSub(ReadIn(was, k), Lost(rows, k))
  {
  }

  /** What the aggregate is meant to hold for `k`: the sum over all origins of the cells of a rule
      enforced here. */
  ghost function Share(m: Counts, local: set<nat>, k: CellIdentity): nat {
    if k.fingerprint in local then Sum(m, k) else 0
  }

  ghost predicate Within(m: Counts, max: nat) {
    forall id :: id in m ==> m[id] <= max
  }

  /** Merged counts arrive in the counter's own width. */
  ghost predicate Fits(u: Update, max: nat) {
    u.mode.MaxMerge? ==> u.mode.observed <= max
  }

  ghost predicate FitAll(us: seq<Update>, max: nat) {
    forall i :: 0 <= i < |us| ==> Fits(us[i], max)
  }

  lemma UpsertAccounts(m: Counts, u: Update, max: nat, local: set<nat>, k: CellIdentity)
    requires Within(m, max) && Fits(u, max)
    ensures Within(Upserted(m, u, max), max)
    ensures
      var c := Change(m, u, max, local);
      && Share(Upserted(m, u, max), local, k)
         == Share(m, local, k) + (if c.appliesLocally && c.key == k then c.delta else 0)
      && (!Emits(m, u, max) ==> c.delta == 0)
  {
    SumSet(m, u.id, Raise(CountOf(m, u.id), u.mode, max), k);
  }

  /** The rows of a batch account for exactly what the batch changed. */
  lemma {:induction false} AbsorbAccounts(m: Counts, us: seq<Update>, taken: seq<bool>, max: nat, local: set<nat>,
                                          k: CellIdentity)
    requires Within(m, max) && FitAll(us, max) && |us| == |taken|
    ensures Within(Absorb(m, us, taken, max), max)
    ensures Share(Absorb(m, us, taken, max), local, k)
            == Share(m, local, k) + Gained(AbsorbRows(m, us, taken, max, local), k)
  {
    if us != [] {
      var n := |us| - 1;
      AbsorbAccounts(m, us[..n], taken[..n], max, local, k);
      var before := Absorb(m, us[..n], taken[..n], max);
      var rows := AbsorbRows(m, us[..n], taken[..n], max, local);
      assert Fits(us[n], max);
      UpsertAccounts(before, us[n], max, local, k);
      var row := Change(before, us[n], max, local);
      assert (rows + [row])[..|rows|] == rows;
    }
  }

  ghost function Without(m: Counts, ids: seq<CellId>): Counts {
    map id | id in m && id !in ids :: m[id]
  }

  lemma {:induction false} DropAccounts(m: Counts, ids: seq<CellId>, rows: seq<CellExpiration>, local: set<nat>,
                                        k: CellIdentity)
    requires Distinct(ids) && (forall id :: id in ids ==> id in m) && TellAll(rows, ids, m, local)
    ensures Share(Without(m, ids), local, k) + Lost(rows, k) == Share(m, local, k)
  {
    if ids == [] {
      assert Without(m, ids) == m;
    } else {
      var n := |ids| - 1;
      assert forall id :: id in ids <==> id == ids[n] || id in ids[..n];
      assert ids[n] !in ids[..n];
      DropAccounts(m, ids[..n], rows[..n], local, k);
      var before := Without(m, ids[..n]);
      SumDrop(before, ids[n], k);
      assert Without(m, ids) == before - {ids[n]};
      assert Tells(rows[n], ids[n], m, local);
    }
  }

  /** The rows of a sweep account for exactly the cells it dropped. */
  lemma ExpiryAccounts(m: Counts, rules: map<nat, RuleDescriptor>, now: nat, ids: seq<CellId>,
                       rows: seq<CellExpiration>,
                       local: set<nat>, k: CellIdentity)
    requires Distinct(ids) && (forall id :: id in ids <==> id in m && Expired(rules, id, now))
    requires TellAll(rows, ids, m, local)
    ensures Share(Survivors(m, rules, now), local, k) + Lost(rows, k) == Share(m, local, k)
  {
    DropAccounts(m, ids, rows, local, k);
    assert Survivors(m, rules, now) == Without(m, ids);
  }

  /** One store operation between two `apply` calls. */
  datatype Batch =
    | Absorbed(us: seq<Update>, taken: seq<bool>)
    | Expiry(rules: map<nat, RuleDescriptor>, now: nat, ids: seq<CellId>, rows: seq<CellExpiration>)

  ghost predicate Fitting(m: Counts, b: Batch, max: nat, local: set<nat>) {
    match b
    case Absorbed(us, taken) => |us| == |taken| && FitAll(us, max)
    case Expiry(rules, now, ids, rows) =>
      Distinct(ids) && (forall id :: id in ids <==> id in m && Expired(rules, id, now)) && TellAll(rows, ids, m, local)
  }

  ghost function Step(m: Counts, b: Batch, max: nat, local: set<nat>): Counts
    requires Fitting(m, b, max, local)
  {
    match b
    case Absorbed(us, taken) => Absorb(m, us, taken, max)
    case Expiry(rules, now, _, _) => Survivors(m, rules, now)
  }

  ghost function StepDeltas(m: Counts, b: Batch, max: nat, local: set<nat>): seq<CountChange>
    requires Fitting(m, b, max, local)
  {
    match b
    case Absorbed(us, taken) => AbsorbRows(m, us, taken, max, local)
    case Expiry(_, _, _, _) => []
  }

  ghost function StepExpirations(b: Batch): seq<CellExpiration> {
    match b
    case Absorbed(_, _) => []
    case Expiry(_, _, _, rows) => rows
  }

  /** A run of batches `maps[0] -> .. -> maps[n]` whose rows pile up in the two sinks. */
  ghost predicate Piles(maps: seq<Counts>, batches: seq<Batch>, deltas: seq<CountChange>,
                        expirations: seq<CellExpiration>,
                        max: nat, local: set<nat>)
    decreases |batches|
  {
    && |maps| == |batches| + 1
    && if batches == [] then deltas == [] && expirations == []
       else
         var n := |batches| - 1;
         && Fitting(maps[n], batches[n], max, local) && maps[n + 1] == Step(maps[n], batches[n], max, local)
         && exists d, e :: && deltas == d + StepDeltas(maps[n], batches[n], max, local)
                           && expirations == e + StepExpirations(batches[n])
                           && Piles(maps[..n + 1], batches[..n], d, e, max, local)
  }

  lemma {:induction false} GainedConcat(a: seq<CountChange>, b: seq<CountChange>, k: CellIdentity)
    ensures Gained(a + b, k) == Gained(a, k) + Gained(b, k)
  {
    if b == [] {
      assert a + b == a;
    } else {
      GainedConcat(a, b[..|b| - 1], k);
      assert (a + b)[..|a + b| - 1] == a + b[..|b| - 1];
    }
  }

  lemma {:induction false} LostConcat(a: seq<CellExpiration>, b: seq<CellExpiration>, k: CellIdentity)
    ensures Lost(a + b, k) == Lost(a, k) + Lost(b, k)
  {
    if b == [] {
      assert a + b == a;
    } else {
      LostConcat(a, b[..|b| - 1], k);
      assert (a + b)[..|a + b| - 1] == a + b[..|b| - 1];
    }
  }

  lemma StepAccounts(m: Counts, b: Batch, max: nat, local: set<nat>, k: CellIdentity)
    requires Within(m, max) && Fitting(m, b, max, local)
    ensures Within(Step(m, b, max, local), max)
    ensures Share(Step(m, b, max, local), local, k) + Lost(StepExpirations(b), k)
            == Share(m, local, k) + Gained(StepDeltas(m, b, max, local), k)
  {
    match b
    case Absorbed(us, taken) => AbsorbAccounts(m, us, taken, max, local, k);
    case Expiry(rules, now, ids, rows) => ExpiryAccounts(m, rules, now, ids, rows, local, k);
  }

  /** Over any run the sum moves by what the delta rows say minus what the expiration rows say. */
  lemma {:induction false} RunAccounts(maps: seq<Counts>, batches: seq<Batch>, deltas: seq<CountChange>,
                                       expirations: seq<CellExpiration>, max: nat, local: set<nat>, k: CellIdentity)
    requires Piles(maps, batches, deltas, expirations, max, local) && Within(maps[0], max)
    ensures Within(maps[|batches|], max)
    ensures Share(maps[|batches|], local, k) + Lost(expirations, k) == Share(maps[0], local, k) + Gained(deltas, k)
    decreases |batches|
  {
    if batches != [] {
      var n := |batches| - 1;
      var d, e :| && deltas == d + StepDeltas(maps[n], batches[n], max, local)
                  && expirations == e + StepExpirations(batches[n])
                  && Piles(maps[..n + 1], batches[..n], d, e, max, local);
      RunAccounts(maps[..n + 1], batches[..n], d, e, max, local, k);
      StepAccounts(maps[n], batches[n], max, local, k);
      GainedConcat(d, StepDeltas(maps[n], batches[n], max, local), k);
      LostConcat(e, StepExpirations(batches[n]), k);
    }
  }

  /** Every total agrees with the sum over the origins. */
  ghost predicate Agrees(a: Aggregate, m: Counts, local: set<nat>) {
    Stored(a) && forall k :: ReadIn(a, k) == Share(m, local, k)
  }

  /** Agreement through one `apply`, however batches and sweeps were mixed before it: a total that
      agreed still agrees exactly when the gains did not overflow 64 bits, or the cells are all gone. */
  lemma AggregateAgreement(maps: seq<Counts>, batches: seq<Batch>, deltas: seq<CountChange>,
                           expirations: seq<CellExpiration>,
                           max: nat, local: set<nat>, was: Aggregate, now: Aggregate, k: CellIdentity)
    requires Piles(maps, batches, deltas, expirations, max, local) && Within(maps[0], max)
    requires Folds(was, now, deltas, expirations) && ReadIn(was, k) == Share(maps[0], local, k)
    ensures ReadIn(now, k) == Share(maps[|batches|], local, k)
            <==> Share(maps[0], local, k) + Gained(deltas, k) <= U64_MAX || Share(maps[|batches|], local, k) == 0
  {
    RunAccounts(maps, batches, deltas, expirations, max, local, k);
  }

  /** A total never exceeds the sum over the origins, saturation or not. */
  lemma AggregateNeverOver(maps: seq<Counts>, batches: seq<Batch>, deltas: seq<CountChange>,
                           expirations: seq<CellExpiration>,
                           max: nat, local: set<nat>, was: Aggregate, now: Aggregate, k: CellIdentity)
    requires Piles(maps, batches, deltas, expirations, max, local) && Within(maps[0], max)
    requires Folds(was, now, deltas, expirations) && ReadIn(was, k) <= Share(maps[0], local, k)
    ensures ReadIn(now, k) <= Share(maps[|batches|], local, k)
  {
    RunAccounts(maps, batches, deltas, expirations, max, local, k);
  }

  /** 16- and 32-bit counts in a store of at most 2^30 cells never saturate a total, with one batch
      per `apply`. */
  lemma NarrowCountsFit(m: Counts, b: Batch, max: nat, local: set<nat>, k: CellIdentity)
    requires Within(m, max) && Fitting(m, b, max, local) && max <= U32_MAX
    requires |m| <= 0x4000_0000 && |Step(m, b, max, local)| <= 0x4000_0000
    ensures Share(m, local, k) + Gained(StepDeltas(m, b, max, local), k) <= U64_MAX
  {
    hide Fitting, Step, StepDeltas, StepExpirations;
    StepAccounts(m, b, max, local, k);
    if b.Absorbed? {
      ShareFits(Step(m, b, max, local), max, local, k);
    } else {
      ShareFits(m, max, local, k);
    }
    SinglesOnly(m, b, max, local, k);
  }

  lemma SinglesOnly(m: Counts, b: Batch, max: nat, local: set<nat>, k: CellIdentity)
    requires Fitting(m, b, max, local)
    ensures if b.Absorbed? then Lost(StepExpirations(b), k) == 0 else Gained(StepDeltas(m, b, max, local), k) == 0
  {
  }

  lemma ShareFits(m: Counts, max: nat, local: set<nat>, k: CellIdentity)
    requires Within(m, max) && max <= U32_MAX && |m| <= 0x4000_0000
    ensures Share(m, local, k) <= U64_MAX
  {
    SumBounded(m, max, k);
    MulMonotone(|m|, 0x4000_0000, max);
  }

  /** With 64-bit counts a total can saturate, and expiry then takes off more than was put on: two
      origins of one bucket, one at the 64-bit maximum. Once that one expires the other's hit is
      missing from the total. */
  lemma WideCountsDrift()
    ensures
      var a, b := CellId(1, 2, 3, 4, 5), CellId(1, 2, 3, 6, 7);
      var m := map[a := U64_MAX, b := 1];
      var k := a.Identity();
      && Share(m, {1}, k) == U64_MAX + 1 && Share(m - {a}, {1}, k) == 1
      && Settled(Settled(U64_MAX, 1, 0), 0, U64_MAX) == 0
  {
    var a, b := CellId(1, 2, 3, 4, 5), CellId(1, 2, 3, 6, 7);
    var m := map[a := U64_MAX, b := 1];
    var k := a.Identity();
    SumDrop(m, a, k);
    SumDrop(m - {a}, b, k);
    assert Group(m - {a} - {b}, k) == map[];
  }
}
