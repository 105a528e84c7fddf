/** The abstract object a cell store implements: a map from portable cell identity to count, under
    saturating local hits, max-merge of remote counts, and expiry. */
module Counters {
  import opened Base
  import opened Cells

  type Counts = map<CellId, nat>

  datatype Mode = Accumulate(hits: nat) | MaxMerge(observed: nat)

  datatype Update = Update(id: CellId, mode: Mode)

  /** `saturating_add_hits` for a local hit, the larger count for a remote observation. */
  function Raise(previous: nat, mode: Mode, max: nat): nat {
    match mode
    case Accumulate(hits) => SatAdd(previous, hits, max)
    case MaxMerge(observed) => if observed > previous then observed else previous
  }

  ghost function CountOf(m: Counts, id: CellId): nat {
    if id in m then m[id] else 0
  }

  ghost function Upserted(m: Counts, u: Update, max: nat): Counts {
    m[u.id := Raise(CountOf(m, u.id), u.mode, max)]
  }

  /** A row is emitted for a new cell and for a count that rose. */
  ghost predicate Emits(m: Counts, u: Update, max: nat) {
    u.id !in m || Raise(m[u.id], u.mode, max) != m[u.id]
  }

  ghost function Change(m: Counts, u: Update, max: nat, local: set<nat>): CountChange {
    var previous := CountOf(m, u.id);
    var current := Raise(previous, u.mode, max);
    CountChange(u.id.Identity(), previous, current, SatSub(current, previous), u.id.fingerprint in local)
  }

  /** A row is emitted exactly when the map changes, and tells the count before and after and their difference. */
  lemma RowTellsChange(m: Counts, u: Update, max: nat, local: set<nat>)
    requires CountOf(m, u.id) <= max
    ensures Emits(m, u, max) <==> Upserted(m, u, max) != m
    ensures
      var row := Change(m, u, max, local);
      && row.previous == CountOf(m, u.id) && row.current == CountOf(Upserted(m, u, max), u.id)
      && row.previous + row.delta == row.current && (row.appliesLocally <==> u.id.fingerprint in local)
      && row.key == CellIdentity(u.id.fingerprint, u.id.keyHash, u.id.bucket)
    ensures forall id :: id != u.id ==> CountOf(Upserted(m, u, max), id) == CountOf(m, id)
  {
  }

  /** The hits of a local batch row are credited to the local node whatever origin the row names. */
  function LocalUpdate(o: Observation, nodeId: nat, incarnation: nat): Update {
    Update(o.id.(nodeId := nodeId, incarnation := incarnation), Accumulate(o.count))
  }

  function RemoteUpdate(o: Observation): Update {
    Update(o.id, MaxMerge(o.count))
  }

  function LocalUpdates(obs: seq<Observation>, nodeId: nat, incarnation: nat): (us: seq<Update>)
    ensures |us| == |obs| && forall i :: 0 <= i < |us| ==> us[i] == LocalUpdate(obs[i], nodeId, incarnation)
  {
    seq(|obs|, i requires 0 <= i < |obs| => LocalUpdate(obs[i], nodeId, incarnation))
  }

  function RemoteUpdates(obs: seq<Observation>): (us: seq<Update>)
    ensures |us| == |obs| && forall i :: 0 <= i < |us| ==> us[i] == RemoteUpdate(obs[i])
  {
    seq(|obs|, i requires 0 <= i < |obs| => RemoteUpdate(obs[i]))
  }

  function Stamps(obs: seq<Observation>): (ts: seq<nat>)
    ensures |ts| == |obs| && forall i :: 0 <= i < |ts| ==> ts[i] == obs[i].lastUpdateMillis
  {
    seq(|obs|, i requires 0 <= i < |obs| => obs[i].lastUpdateMillis)
  }

  /** A batch in order; rows refused for lack of capacity are dropped. */
  ghost function Absorb(m: Counts, us: seq<Update>, taken: seq<bool>, max: nat): Counts
    requires |us| == |taken|
  {
    if us == [] then m
    else
      var n := |us| - 1;
      var before := Absorb(m, us[..n], taken[..n], max);
      if taken[n] then Upserted(before, us[n], max) else before
  }

  ghost function AbsorbRows(m: Counts, us: seq<Update>, taken: seq<bool>, max: nat, local: set<nat>): seq<CountChange>
    requires |us| == |taken|
  {
    if us == [] then []
    else
      var n := |us| - 1;
      var before := Absorb(m, us[..n], taken[..n], max);
      var rows := AbsorbRows(m, us[..n], taken[..n], max, local);
      if taken[n] && Emits(before, us[n], max) then rows + [Change(before, us[n], max, local)] else rows
  }

  /** When each cell last changed: a row that raises a count or starts a cell leaves its own time. */
  ghost function AbsorbTimes(m: Counts, times: Counts, us: seq<Update>, stamps: seq<nat>, taken: seq<bool>,
                             max: nat): Counts
    requires |us| == |taken| == |stamps|
  {
    if us == [] then times
    else
      var n := |us| - 1;
      var before := Absorb(m, us[..n], taken[..n], max);
      var t := AbsorbTimes(m, times, us[..n], stamps[..n], taken[..n], max);
      if taken[n] && Emits(before, us[n], max) then t[us[n].id := stamps[n]] else t
  }

  lemma AbsorbTimesStep(m: Counts, times: Counts, us: seq<Update>, stamps: seq<nat>, taken: seq<bool>, i: nat,
                        took: bool, max: nat)
    requires i == |taken| < |us| == |stamps|
    ensures AbsorbTimes(m, times, us[..i + 1], stamps[..i + 1], taken + [took], max) ==
            var t := AbsorbTimes(m, times, us[..i], stamps[..i], taken, max);
            if took && Emits(Absorb(m, us[..i], taken, max), us[i], max) then t[us[i].id := stamps[i]] else t
  {
    assert us[..i + 1][..i] == us[..i] && stamps[..i + 1][..i] == stamps[..i] && (taken + [took])[..i] == taken;
  }

  /** The row changes its cell when its turn comes. */
  ghost predicate ChangesAt(m: Counts, us: seq<Update>, taken: seq<bool>, max: nat, i: nat)
    requires |us| == |taken|
  {
    i < |us| && taken[i] && Emits(Absorb(m, us[..i], taken[..i], max), us[i], max)
  }

  lemma ChangesBefore(m: Counts, us: seq<Update>, taken: seq<bool>, max: nat, n: nat, i: nat)
    requires i < n <= |us| == |taken|
    ensures ChangesAt(m, us[..n], taken[..n], max, i) <==> ChangesAt(m, us, taken, max, i)
  {
    assert us[..n][..i] == us[..i] && taken[..n][..i] == taken[..i];
  }

  /** Some row of the batch from `from` on changes the cell. */
  ghost predicate ChangedFrom(m: Counts, us: seq<Update>, taken: seq<bool>, max: nat, id: CellId, from: nat)
    requires |us| == |taken|
  {
    exists i: nat :: from <= i < |us| && ChangesAt(m, us, taken, max, i) && us[i].id == id
  }

  lemma ChangedFromPrefix(m: Counts, us: seq<Update>, taken: seq<bool>, max: nat, id: CellId, from: nat)
    requires us != [] && |us| == |taken|
    requires !ChangedFrom(m, us, taken, max, id, from)
    ensures !ChangedFrom(m, us[..|us| - 1], taken[..|us| - 1], max, id, from)
  {
    var n := |us| - 1;
    forall i: nat | from <= i < n && ChangesAt(m, us[..n], taken[..n], max, i) ensures us[..n][i].id != id {
      ChangesBefore(m, us, taken, max, n, i);
    }
  }

  /** A batch none of whose rows changes a cell leaves it the time it had. */
  lemma {:induction false} UnchangedKeepsTime(m: Counts, times: Counts, us: seq<Update>, stamps: seq<nat>,
                                              taken: seq<bool>, max: nat, id: CellId)
    requires |us| == |taken| == |stamps|
    requires !ChangedFrom(m, us, taken, max, id, 0)
    ensures var after := AbsorbTimes(m, times, us, stamps, taken, max);
            (id in after <==> id in times) && (id in times ==> after[id] == times[id])
  {
    if us != [] {
      var n := |us| - 1;
      ChangedFromPrefix(m, us, taken, max, id, 0);
      UnchangedKeepsTime(m, times, us[..n], stamps[..n], taken[..n], max, id);
      assert !(ChangesAt(m, us, taken, max, n) && us[n].id == id);
    }
  }

  /** A cell's time is that of the last row of the batch that changed it. */
  lemma {:induction false} TimeOfLastChange(m: Counts, times: Counts, us: seq<Update>, stamps: seq<nat>,
                                            taken: seq<bool>, max: nat, i: nat)
    requires |us| == |taken| == |stamps|
    requires ChangesAt(m, us, taken, max, i) && !ChangedFrom(m, us, taken, max, us[i].id, i + 1)
    ensures var after := AbsorbTimes(m, times, us, stamps, taken, max);
            us[i].id in after && after[us[i].id] == stamps[i]
  {
    var n := |us| - 1;
    if i < n {
      ChangesBefore(m, us, taken, max, n, i);
      ChangedFromPrefix(m, us, taken, max, us[i].id, i + 1);
      TimeOfLastChange(m, times, us[..n], stamps[..n], taken[..n], max, i);
      assert !(ChangesAt(m, us, taken, max, n) && us[n].id == us[i].id);
    }
  }

  lemma AbsorbNothing(m: Counts, max: nat, local: set<nat>)
    ensures Absorb(m, [], [], max) == m && AbsorbRows(m, [], [], max, local) == []
    ensures forall times :: AbsorbTimes(m, times, [], [], [], max) == times
  {
  }

  lemma AbsorbStep(m: Counts, us: seq<Update>, taken: seq<bool>, i: nat, took: bool, max: nat, local: set<nat>)
    requires i == |taken| < |us|
    ensures Absorb(m, us[..i + 1], taken + [took], max) ==
            if took then Upserted(Absorb(m, us[..i], taken, max), us[i], max) else Absorb(m, us[..i], taken, max)
    ensures AbsorbRows(m, us[..i + 1], taken + [took], max, local) ==
            AbsorbRows(m, us[..i], taken, max, local)
            + if took && Emits(Absorb(m, us[..i], taken, max), us[i], max)
              then [Change(Absorb(m, us[..i], taken, max), us[i], max, local)] else []
  {
    assert us[..i + 1][..i] == us[..i] && (taken + [took])[..i] == taken;
  }

  /** The rows of a delta sink without their handles. */
  function Changes(rows: seq<CellDelta>): (cs: seq<CountChange>)
    ensures |cs| == |rows|
  {
    seq(|rows|, i requires 0 <= i < |rows| => rows[i].change)
  }
}
