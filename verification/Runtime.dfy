/** The per-event handlers of the gossip runtime (`gossip/runtime.rs`): one store operation, then one
    `apply` of its rows. Each handler is one step of the abstract node. */
module Runtimes {
  import opened Base
  import opened Cells
  import opened Dictionary
  import opened StoreImage
  import opened Counters
  import opened Expiry
  import opened Sums
  import opened Aggregates
  import opened CellStores
  import Handles
  import Sweeping
  import opened RobinHood
  import opened FreeList
  import Frames
  import opened Clusters
  import opened Retention
  import opened Rooms

  /** The rows of an inbound packet. */
  function PacketOf(obs: seq<Observation>): (rows: seq<Row>)
    ensures |rows| == |obs| && forall i :: 0 <= i < |rows| ==> rows[i] == Row(obs[i].id, obs[i].count)
  {
    seq(|obs|, i requires 0 <= i < |obs| => Row(obs[i].id, obs[i].count))
  }

  class Runtime {
    const store: CellStore
    const aggregates: DashMapStore

    constructor (store: CellStore, aggregates: DashMapStore)
      requires store.Valid() && Stored(aggregates.cells) && store.countMax <= U64_MAX && aggregates !in store.Repr()
      ensures this.store == store && this.aggregates == aggregates && Valid()
    {
      hide CellStore.Valid;
      this.store, this.aggregates := store, aggregates;
    }

    ghost predicate Valid()
      reads store.Repr(), aggregates
    {
      store.Valid() && Stored(aggregates.cells) && store.countMax <= U64_MAX && aggregates !in store.Repr()
    }

    /** The abstract node this runtime implements. */
    ghost function AsNode(): Node
      requires Valid()
      reads store.Repr(), aggregates
    {
      Node(store.Cells(), aggregates.cells, store.LocalRules())
    }

    /** Every total is the sum over the origins of the cells behind it. */
    ghost predicate Agreed()
      requires Valid()
      reads store.Repr(), aggregates
    {
      Agrees(aggregates.cells, store.Cells(), store.LocalRules())
    }

    lemma CellsFit()
      requires Valid()
      ensures Within(store.Cells(), store.countMax) && |store.Cells()| <= CELL_BOUND
    {
      hide CellIndex.Valid, Dictionary.Valid, CellStore.LanesOk, CellStore.OriginsIsolated, IsFreeList, Coherent;
      store.Plain();
      store.SizeIs();
    }

    /** Every rule enforced here holds a pin. */
    ghost predicate RulesPinned()
      requires Valid()
      reads store.Repr(), aggregates
    {
      store.LocalRules() <= store.PinnedRules().Keys
    }

    /** One `apply` per event, skipped when there is nothing to tell. */
    method Flush(deltas: seq<CellDelta>, expirations: seq<CellExpiration>)
      requires Valid()
      modifies aggregates
      ensures Valid() && store.Cells() == old(store.Cells())
      ensures store.LocalRules() == old(store.LocalRules()) && store.PinnedRules() == old(store.PinnedRules())
      ensures store.RoomNow() == old(store.RoomNow())
      ensures Folds(old(aggregates.cells), aggregates.cells, Changes(deltas), expirations)
    {
      hide CellStore.Valid, CellStore.Repr, CellStore.Cells, CellStore.LocalRules, CellStore.PinnedRules,
        CellStore.RoomNow, Folds;
      PartsExist(store);
      if deltas != [] || expirations != [] {
        aggregates.Apply(Changes(deltas), expirations);
        FoldsStored(old(aggregates.cells), aggregates.cells, Changes(deltas), expirations);
      } else {
        NothingToTell(aggregates.cells);
        assert Changes(deltas) == [];
      }
    }

    /** The store's half of a batch. */
    method StoreHits(obs: seq<Observation>) returns (rows: seq<CellDelta>, ghost took: seq<bool>)
      requires Valid()
      modifies store, store.index, store.index.slotIndexes, store.index.hashes
      modifies store.ruleDictionary, store.ruleDictionary.index, store.ruleDictionary.index.slotIndexes
      modifies store.ruleDictionary.index.hashes
      modifies store.nodeDictionary, store.nodeDictionary.index, store.nodeDictionary.index.slotIndexes
      modifies store.nodeDictionary.index.hashes
      modifies store.localDirty, store.localDirty.entries, store.forwardedDirty, store.forwardedDirty.entries
      ensures Valid() && aggregates.cells == old(aggregates.cells) && |took| == |obs|
      ensures store.LocalRules() == old(store.LocalRules()) && store.PinnedRules() == old(store.PinnedRules())
      ensures store.Cells() == Absorb(old(store.Cells()), LocalUpdates(obs, store.self.nodeId, store.self.incarnation),
                                      took, store.countMax)
      ensures Changes(rows)
                == AbsorbRows(old(store.Cells()), LocalUpdates(obs, store.self.nodeId, store.self.incarnation), took,
                                          store.countMax, old(store.LocalRules()))
      ensures took == Accepted(old(store.RoomNow()), LocalUpdates(obs, store.self.nodeId, store.self.incarnation))
    {
      hide CellStore.Valid, Absorb, AbsorbRows, CellStore.RoomNow, CellStore.Cells, CellStore.LocalRules,
        CellStore.PinnedRules;
      rows, took := store.IngestLocal(obs);
    }

    /** `handle_limit_request`: the node takes one hit of its own, clipped to the counter's width. */
    method HandleLimitRequest(key: CellIdentity, hits: nat, now: nat) returns (ghost taken: bool)
      requires Valid()
      modifies store, store.index, store.index.slotIndexes, store.index.hashes
      modifies store.ruleDictionary, store.ruleDictionary.index, store.ruleDictionary.index.slotIndexes
      modifies store.ruleDictionary.index.hashes
      modifies store.nodeDictionary, store.nodeDictionary.index, store.nodeDictionary.index.slotIndexes
      modifies store.nodeDictionary.index.hashes
      modifies store.localDirty, store.localDirty.entries, store.forwardedDirty, store.forwardedDirty.entries
      modifies aggregates
      ensures Valid() && store.PinnedRules() == old(store.PinnedRules()) && (old(RulesPinned()) ==> RulesPinned())
      ensures Takes(old(AsNode()), BatchOf(Hit(store.self, key, hits, taken), store.countMax), AsNode(), store.countMax)
      ensures taken == HasRoom(old(store.RoomNow()), OwnCell(store.self, key))
      ensures old(Agreed()) && store.countMax <= U32_MAX ==> Agreed()
    {
      hide CellStore.Valid, CellStore.Repr, Absorb, AbsorbRows, CellStore.RoomNow, CellStore.Cells,
        CellStore.LocalRules,
        CellStore.PinnedRules, Folds;
      CellsFit();
      ghost var before := AsNode();
      var count: nat := Min(hits, store.countMax);
      var obs := [Observation(CellId(key.fingerprint, key.keyHash, key.bucket, 0, 0), count, now)];
      var rows, took := StoreHits(obs);
      taken := took[0];
      assert took == [taken];
      assert LocalUpdates(obs, store.self.nodeId, store.self.incarnation)
        == [Update(OwnCell(store.self, key), Accumulate(count))];
      Flush(rows, []);
      CellsFit();
      StepKeepsAgreement(before, BatchOf(Hit(store.self, key, hits, taken), store.countMax), AsNode(), store.countMax);
    }

    method StoreMerge(obs: seq<Observation>) returns (rows: seq<CellDelta>, ghost took: seq<bool>)
      requires Valid() && forall i :: 0 <= i < |obs| ==> obs[i].count <= store.countMax
      modifies store, store.index, store.index.slotIndexes, store.index.hashes
      modifies store.ruleDictionary, store.ruleDictionary.index, store.ruleDictionary.index.slotIndexes
      modifies store.ruleDictionary.index.hashes
      modifies store.nodeDictionary, store.nodeDictionary.index, store.nodeDictionary.index.slotIndexes
      modifies store.nodeDictionary.index.hashes
      modifies store.localDirty, store.localDirty.entries, store.forwardedDirty, store.forwardedDirty.entries
      ensures Valid() && aggregates.cells == old(aggregates.cells) && |took| == |obs|
      ensures store.LocalRules() == old(store.LocalRules()) && store.PinnedRules() == old(store.PinnedRules())
      ensures store.Cells() == Absorb(old(store.Cells()), RemoteUpdates(obs), took, store.countMax)
      ensures Changes(rows)
                == AbsorbRows(old(store.Cells()), RemoteUpdates(obs), took, store.countMax, old(store.LocalRules()))
      ensures took == Accepted(old(store.RoomNow()), RemoteUpdates(obs))
    {
      hide CellStore.Valid, Absorb, AbsorbRows, CellStore.RoomNow, CellStore.Cells, CellStore.LocalRules,
        CellStore.PinnedRules;
      rows, took := store.MergeRemote(obs);
    }

    /** The store half of `handle_inbound`: the rows of a decoded packet, already in the counter's width. */
    method HandleInbound(obs: seq<Observation>) returns (ghost took: seq<bool>)
      requires Valid() && forall i :: 0 <= i < |obs| ==> obs[i].count <= store.countMax
      modifies store, store.index, store.index.slotIndexes, store.index.hashes
      modifies store.ruleDictionary, store.ruleDictionary.index, store.ruleDictionary.index.slotIndexes
      modifies store.ruleDictionary.index.hashes
      modifies store.nodeDictionary, store.nodeDictionary.index, store.nodeDictionary.index.slotIndexes
      modifies store.nodeDictionary.index.hashes
      modifies store.localDirty, store.localDirty.entries, store.forwardedDirty, store.forwardedDirty.entries
      modifies aggregates
      ensures Valid() && store.PinnedRules() == old(store.PinnedRules()) && (old(RulesPinned()) ==> RulesPinned())
      ensures |took| == |obs|
      ensures Takes(old(AsNode()), BatchOf(Deliver(store.self, PacketOf(obs), took), store.countMax), AsNode(),
                    store.countMax)
      ensures took == Accepted(old(store.RoomNow()), RemoteUpdates(obs))
      ensures old(Agreed()) && store.countMax <= U32_MAX ==> Agreed()
    {
      hide CellStore.Valid, CellStore.Repr, Absorb, AbsorbRows, CellStore.RoomNow, CellStore.Cells,
        CellStore.LocalRules, CellStore.PinnedRules, Folds;
      CellsFit();
      ghost var before := AsNode();
      var rows;
      rows, took := StoreMerge(obs);
      assert Merges(PacketOf(obs)) == RemoteUpdates(obs);
      Flush(rows, []);
      CellsFit();
      StepKeepsAgreement(before, BatchOf(Deliver(store.self, PacketOf(obs), took), store.countMax), AsNode(),
                         store.countMax);
    }

    method StoreSweep(now: nat) returns (rows: seq<CellExpiration>, ghost ids: seq<CellId>)
      requires Valid()
      modifies store, store.index, store.index.slotIndexes, store.index.hashes
      modifies store.ruleDictionary, store.ruleDictionary.index, store.ruleDictionary.index.slotIndexes
      modifies store.ruleDictionary.index.hashes
      modifies store.nodeDictionary, store.nodeDictionary.index, store.nodeDictionary.index.slotIndexes
      modifies store.nodeDictionary.index.hashes
      modifies store.peerFrontiers.lastAcked, store.peerFrontiers.lastSent
      ensures Valid() && aggregates.cells == old(aggregates.cells) && store.PinnedRules() == old(store.PinnedRules())
      ensures store.LocalRules() <= old(store.LocalRules())
      ensures old(RulesPinned()) ==> store.LocalRules() == old(store.LocalRules())
      ensures SameFor(store.Cells(), old(store.LocalRules()), store.LocalRules())
      ensures store.Cells() == Survivors(old(store.Cells()), old(store.KnownRules()), now)
      ensures Distinct(ids)
      ensures forall id :: id in ids <==> id in old(store.Cells()) && Expired(old(store.KnownRules()), id, now)
      ensures TellAll(rows, ids, old(store.Cells()), old(store.LocalRules()))
    {
      hide CellStore.Valid, CellStore.Cells, Survivors, Expired, TellAll, Known, PinnedKnown, Handles.Lifetimes,
        Sweeping.OriginsKept, CellStore.OriginState;
      PinnedAreKnown(store);
      rows, ids := store.ExpireAt(now);
      PinnedAreKnown(store);
      CellsKnown(store);
    }

    /** The expiry step of `handle_gossip_tick`: the totals lose exactly what the cells lose. A rule
        enforced here may be forgotten only when no cell of it is left, and never while it is pinned. */
    method HandleTick(now: nat) returns (ghost batch: Batch)
      requires Valid()
      modifies store, store.index, store.index.slotIndexes, store.index.hashes
      modifies store.ruleDictionary, store.ruleDictionary.index, store.ruleDictionary.index.slotIndexes
      modifies store.ruleDictionary.index.hashes
      modifies store.nodeDictionary, store.nodeDictionary.index, store.nodeDictionary.index.slotIndexes
      modifies store.nodeDictionary.index.hashes
      modifies store.peerFrontiers.lastAcked, store.peerFrontiers.lastSent, aggregates
      ensures Valid() && store.PinnedRules() == old(store.PinnedRules())
      ensures batch.Expiry? && batch.rules == old(store.KnownRules()) && batch.now == now
      ensures Takes(old(AsNode()), batch, AsNode().(local := old(store.LocalRules())), store.countMax)
      ensures store.LocalRules() <= old(store.LocalRules())
      ensures SameFor(store.Cells(), old(store.LocalRules()), store.LocalRules())
      ensures old(RulesPinned()) ==> RulesPinned() && store.LocalRules() == old(store.LocalRules())
      ensures old(Agreed()) && store.countMax <= U32_MAX ==>
                Agreed() && Unnoticed(old(aggregates.cells), aggregates.cells, old(store.KnownRules()),
                                      old(store.LocalRules()), now)
    {
      hide CellStore.Valid, CellStore.Repr, Survivors, Expired, TellAll, Known, PinnedKnown, CellStore.RoomNow,
        CellStore.Cells, CellStore.LocalRules, CellStore.PinnedRules, Folds, SameFor, Agrees, Unnoticed;
      CellsFit();
      ghost var before, rules := AsNode(), store.KnownRules();
      var rows, ids := StoreSweep(now);
      batch := Expiry(rules, now, ids, rows);
      assert Changes([]) == [];
      Flush([], rows);
      CellsFit();
      StepKeepsAgreement(before, batch, AsNode().(local := before.local), store.countMax);
      if old(Agreed()) && store.countMax <= U32_MAX {
        SweepUnnoticed(before.aggregate, aggregates.cells, before.counts, rules, before.local, now);
      }
      SameForAgrees(aggregates.cells, store.Cells(), before.local, store.LocalRules());
    }

    /** Registering a rule: totals that agreed still agree exactly when the rule is enforced if and only if
        it was before, or every count stored for it is zero. */
    method RegisterRule(d: RuleDescriptor) returns (r: Option<nat>)
      requires Valid()
      modifies store`rulePins, store`ruleDictionaryFullRejects
      modifies store.ruleDictionary, store.ruleDictionary.index, store.ruleDictionary.index.slotIndexes
      modifies store.ruleDictionary.index.hashes
      ensures Valid() && aggregates.cells == old(aggregates.cells) && store.Cells() == old(store.Cells())
      ensures r.None? ==> store.LocalRules() == old(store.LocalRules())
      ensures r.Some? ==> store.KnownRules() == old(store.KnownRules())[d.fingerprint := d]
      ensures old(Agreed()) ==>
                (Agreed() <==> || r.None? || (d.fingerprint in old(store.LocalRules()) <==> d.AppliesLocally())
                               || AllZero(store.Cells(), d.fingerprint))
      ensures r.Some? && (d.fingerprint !in old(store.KnownRules()) || d.fingerprint in old(store.PinnedRules())) ==>
                d.fingerprint in store.PinnedRules() && (old(RulesPinned()) ==> RulesPinned())
    {
      hide CellStore.Valid, CellStore.Cells, Agrees, PinnedKnown, AllZero;
      ghost var known, pinned := store.KnownRules(), store.PinnedRules();
      ghost var m, local := store.Cells(), store.LocalRules();
      KnownSlots(store);
      r := store.InternRule(d);
      if r.Some? {
        assert store.LocalRules() - {d.fingerprint} == local - {d.fingerprint};
        RegistrationIff(aggregates.cells, m, local, store.LocalRules(), d.fingerprint);
      }
    }

    /** The row a live slot puts on the wire. */
    ghost function RowAt(slot: nat): Row
      requires Valid()
      reads store.Repr(), aggregates
    {
      if Live(store.View(), slot) && slot < |store.keys| && slot < |store.counts|
        && KeyResolves(store.View(), store.keys[slot])
      then Row(Portable(store.View(), store.keys[slot]), store.counts[slot])
      else Row(CellId(0, 0, 0, 0, 0), 0)
    }

    lemma RowAtIsStored(slot: nat)
      requires Valid() && Live(store.View(), slot)
      ensures RowAt(slot).id in store.Cells() && store.Cells()[RowAt(slot).id] == RowAt(slot).count
    {
      hide CellIndex.Valid, Dictionary.Valid, CellStore.LanesOk, CellStore.OriginsIsolated, IsFreeList, Partitioned,
        RefsCoherent,
        NamesCoherent;
    }

    /** One outgoing frame: every row is a cell of the node at its current count, which is what the
        protocol's send step allows, and the node itself does not change. The cells named are those of one
        step of the repair series, whose cursor moves on. */
    method ComposePacket(max: nat, peer: Option<nat>) returns (handles: seq<CellHandle>, ghost rows: set<Row>)
      requires Valid() && (peer.Some? ==> peer.value < store.peerFrontiers.peerCapacity)
      modifies store`selectionEpoch, store`selectionMarks, store`repairCursor
      ensures Valid() && AsNode() == old(AsNode()) && |handles| == Min(max, |store.Cells()|)
      ensures rows == (set h | h in handles :: RowAt(h.index))
      ensures forall r :: r in rows ==> r.id in AsNode().counts && r.count == AsNode().counts[r.id]
      ensures store.Composable(peer)
      ensures Frames.RepairStep(store.FrameInput(max, peer), old(store.repairCursor), store.repairCursor,
                                store.capacity)
      ensures forall slot: nat :: Frames.Emits(store.FrameInput(max, peer), old(store.repairCursor), slot) ==>
                RowAt(slot) in rows
    {
      hide CellStore.Valid, CellStore.Cells, CellStore.LocalRules, RowAt, Frames.NextCursor, Frames.FrameOf,
        CellStore.FrameInput, CellStore.Composable, Frames.RepairStep, CellStore.Repr;
      handles := store.FillGossipFrame(max, peer);
      store.SizeIs();
      rows := set h | h in handles :: RowAt(h.index);
      forall h | h in handles
        ensures RowAt(h.index).id in store.Cells() && store.Cells()[RowAt(h.index).id] == RowAt(h.index).count
      {
        assert Live(store.View(), h.index);
        RowAtIsStored(h.index);
      }
    }
  }

  lemma FoldsStored(was: Aggregate, now: Aggregate, deltas: seq<CountChange>, expirations: seq<CellExpiration>)
    requires Folds(was, now, deltas, expirations)
    ensures Stored(now)
  {
  }

  lemma KnownSlots(store: CellStore)
    requires store.Valid()
    ensures store.KnownRules().Keys == store.ruleDictionary.slotOf.Keys
  {
    hide CellIndex.Valid, Coherent, CellStore.LanesOk, CellStore.OriginsIsolated, IsFreeList, CellStore.Rings,
      CellStore.Shapes;
    store.ruleDictionary.SlotNames(0);
  }

  /** A cell's rule is always known. */
  lemma CellsKnown(store: CellStore)
    requires store.Valid()
    ensures forall id :: id in store.Cells() ==> id.fingerprint in store.KnownRules()
  {
    hide CellStore.Valid, Known;
    store.EveryCellLives();
    forall id | id in store.Cells() ensures id.fingerprint in store.KnownRules() {
      store.NamedSlot(store.slotOf[id]);
      store.RuleKnown(store.slotOf[id]);
    }
  }

  /** The two rule sets tell the same of every cell there is. */
  ghost predicate SameFor(m: Counts, local: set<nat>, now: set<nat>) {
    forall id :: id in m ==> (id.fingerprint in local <==> id.fingerprint in now)
  }

  /** Whether a rule counts makes no difference while it has no cells. */
  lemma SameForAgrees(a: Aggregate, m: Counts, local: set<nat>, now: set<nat>)
    requires SameFor(m, local, now)
    ensures Agrees(a, m, local) <==> Agrees(a, m, now)
  {
    forall k ensures Share(m, now, k) == Share(m, local, k) {
      if Group(m, k) != map[] {
        var id :| id in Group(m, k);
      }
    }
  }

  ghost predicate AllZero(m: Counts, fp: nat) {
    forall id :: id in m && id.fingerprint == fp ==> m[id] == 0
  }

  lemma AllZeroSums(m: Counts, fp: nat)
    ensures AllZero(m, fp) <==> forall k: CellIdentity :: k.fingerprint == fp ==> Sum(m, k) == 0
  {
    forall k: CellIdentity | k.fingerprint == fp && AllZero(m, fp) ensures Sum(m, k) == 0 {
      SumMonotone(Group(m, k), map[], k);
      assert Group(Group(m, k), k) == Group(m, k) && Group(map[], k) == map[];
    }
    forall id | id in m && id.fingerprint == fp ensures m[id] <= Sum(m, id.Identity()) {
      SumSet(m, id, 0, id.Identity());
    }
  }

  /** A rule's enforcement changes over stored counts: its totals do not, so they agree afterwards exactly
      when nothing changed for the rule or those counts are all zero. */
  lemma RegistrationIff(a: Aggregate, m: Counts, local: set<nat>, now: set<nat>, fp: nat)
    requires now - {fp} == local - {fp}
    ensures Agrees(a, m, local) ==> (Agrees(a, m, now) <==> (fp in local <==> fp in now) || AllZero(m, fp))
  {
    AllZeroSums(m, fp);
    if Agrees(a, m, local) {
      forall k: CellIdentity | k.fingerprint != fp ensures Share(m, now, k) == Share(m, local, k) {
        assert k.fingerprint in now <==> k.fingerprint in now - {fp};
        assert k.fingerprint in local <==> k.fingerprint in local - {fp};
      }
      if AllZero(m, fp) || (fp in local <==> fp in now) {
        forall k ensures ReadIn(a, k) == Share(m, now, k) {
          assert ReadIn(a, k) == Share(m, local, k);
        }
      } else {
        var k: CellIdentity :| k.fingerprint == fp && Sum(m, k) != 0;
        assert ReadIn(a, k) == Share(m, local, k) != Share(m, now, k);
      }
    }
  }

  lemma StepKeepsAgreement(n: Node, b: Batch, next: Node, max: nat)
    requires Takes(n, b, next, max) && Within(n.counts, max) && |n.counts| <= CELL_BOUND && |next.counts| <= CELL_BOUND
    ensures Agrees(n.aggregate, n.counts, n.local) && max <= U32_MAX ==> Agrees(next.aggregate, next.counts, next.local)
  {
    if Agrees(n.aggregate, n.counts, n.local) && max <= U32_MAX {
      NarrowAgreementStep(n, b, next, max);
    }
  }

  lemma PartsExist(store: CellStore)
    ensures forall o :: o in store.Repr() ==> allocated(o)
  {
  }

  /** A pinned rule is known under its pinned descriptor. */
  lemma PinnedAreKnown(store: CellStore)
    ensures forall fp :: fp in store.PinnedRules() ==>
              fp in store.KnownRules() && store.KnownRules()[fp] == store.PinnedRules()[fp].descriptor
  {
  }

  lemma NothingToTell(a: Aggregate)
    requires Stored(a)
    ensures Folds(a, a, [], [])
  {
  }
}
