/** The cell store (`crdt.rs`): slots, interning, index and gossip lanes implementing the map of
    `Counters`. Columns are sequence fields: the boxed slices of the source are owned and unaliased. */
module CellStores {
  import opened Base
  import opened Cells
  import opened RobinHood
  import opened FreeList
  import opened Dictionary
  import opened DirtyRings
  import opened PeerFrontier
  import opened StoreImage
  import opened Counters
  import opened Expiry
  import Lanes = DirtyLanes
  import Frames
  import opened Handles
  import opened Sweeping
  import opened Rooms

  const NO_FREE: nat := U32_MAX

  type Rules = Dictionary<RuleDescriptor, nat>
  type Nodes = Dictionary<NodeDescriptor, NodeDescriptor>

  datatype Config = Config(
    cellCapacity: nat, ruleCapacity: nat, nodeCapacity: nat,
    localDirtyCapacity: nat, forwardedDirtyCapacity: nat, peerCapacity: nat)

  datatype UpdateOutcome = UpdateOutcome(handle: CellHandle, changed: bool, delta: Option<CellDelta>)
  datatype UpsertResult = Applied(outcome: UpdateOutcome) | Rejected(reason: InsertReject)

  /** No two parts of the same kind share an object. */
  ghost predicate Apart(index: CellIndex, rules: Rules, nodes: Nodes, localDirty: DirtyRing,
                        forwardedDirty: DirtyRing) {
    && index != rules.index && index != nodes.index && rules.index != nodes.index
    && rules as object != nodes
    && index.slotIndexes !in {rules.index.slotIndexes, rules.index.hashes, nodes.index.slotIndexes, nodes.index.hashes}
    && index.hashes !in {rules.index.slotIndexes, rules.index.hashes, nodes.index.slotIndexes, nodes.index.hashes}
    && rules.index.slotIndexes !in {nodes.index.slotIndexes, nodes.index.hashes}
    && rules.index.hashes !in {nodes.index.slotIndexes, nodes.index.hashes}
    && localDirty != forwardedDirty && localDirty.entries != forwardedDirty.entries
  }

  /** What an update of a stored cell reports: its handle, and a row exactly when the count changed. */
  ghost predicate OutcomeTells(o: UpdateOutcome, u: Update, m: Counts, max: nat, local: set<nat>, slotOf: map<CellId,
                               nat>,
                               generations: seq<nat>)
  {
    && o.changed == Emits(m, u, max)
    && u.id in slotOf && slotOf[u.id] < |generations| && o.handle == CellHandle(slotOf[u.id], generations[slotOf[u.id]])
    && o.delta == if o.changed then Some(CellDelta(o.handle, Change(m, u, max, local))) else None
  }

  lemma CellBorn(slotOf: map<CellId, nat>, counts: seq<nat>, times: seq<nat>, u: Update, slot: nat, max: nat, now: nat)
    requires u.id !in slotOf && slot < |counts| == |times|
    requires forall x :: x in slotOf ==> slotOf[x] < |counts| && slotOf[x] != slot
    ensures
      var m := CellsOf(slotOf, counts);
      && u.id !in m && Emits(m, u, max)
      && CellsOf(slotOf[u.id := slot], counts[slot := Raise(0, u.mode, max)]) == Upserted(m, u, max)
      && CellsOf(slotOf[u.id := slot], times[slot := now]) == CellsOf(slotOf, times)[u.id := now]
  {
  }

  class CellStore {
    const capacity: nat
    const countMax: nat
    const hashKey: CompactKey -> nat
    const self: NodeDescriptor
    const localNodeSlot: nat
    const index: CellIndex
    const ruleDictionary: Rules
    const nodeDictionary: Nodes
    const localDirty: DirtyRing
    const forwardedDirty: DirtyRing
    const peerFrontiers: PeerFrontierTable

    // The five identity columns, always read and written together.
    var keys: seq<CompactKey>
    var counts: seq<nat>
    var lastUpdateMillis: seq<nat>
    var originSequences: seq<nat>

    // Slot lifecycle.
    var generations: seq<nat>
    var freeNext: seq<nat>
    var freeHead: nat
    var activeLen: nat

    // Frame composition.
    var repairCursor: nat
    var selectionMarks: seq<nat>
    var selectionEpoch: nat

    var nextSequence: seq<nat>
    var cellStoreFullRejects: nat
    var ruleDictionaryFullRejects: nat
    var nodeDictionaryFullRejects: nat

    ghost var free: seq<nat>
    ghost var slotOf: map<CellId, nat>
    /** Allocations and releases of each slot so far. */
    ghost var steps: seq<nat>
    ghost var rulePins: set<nat>
    ghost var tidy: bool
    ghost var complete: bool

    ghost function Repr(): set<object> {
      {this} + index.Repr() + ruleDictionary.Repr() + nodeDictionary.Repr()
      + localDirty.Repr() + forwardedDirty.Repr() + peerFrontiers.Repr()
    }

    ghost predicate Tables()
      reads index, index.slotIndexes, index.hashes
      reads ruleDictionary, ruleDictionary.index, ruleDictionary.index.slotIndexes, ruleDictionary.index.hashes
      reads nodeDictionary, nodeDictionary.index, nodeDictionary.index.slotIndexes, nodeDictionary.index.hashes
    {
      index.Valid() && ruleDictionary.Valid() && nodeDictionary.Valid()
    }

    ghost predicate Rings()
      reads localDirty, localDirty.entries, forwardedDirty, forwardedDirty.entries
    {
      localDirty.Valid() && forwardedDirty.Valid()
    }

    ghost predicate Configured() {
      && 0 < capacity <= 0x4000_0000 && capacity < index.capacity
      && (forall d :: ruleDictionary.keyOf(d) == d.fingerprint)
      && (forall d :: nodeDictionary.keyOf(d) == d)
      && peerFrontiers.nodeCapacity == nodeDictionary.capacity
      && localNodeSlot < nodeDictionary.capacity
    }

    ghost predicate Shapes()
      reads `keys, `counts, `lastUpdateMillis, `originSequences, `selectionMarks, `nextSequence, `repairCursor
    {
      && |keys| == |counts| == |lastUpdateMillis| == |originSequences| == |selectionMarks| == capacity
      && |nextSequence| == nodeDictionary.capacity
      && (forall n: nat :: n < |nextSequence| ==> nextSequence[n] <= U64_MAX)
      && (forall i: nat :: i < capacity ==> counts[i] <= countMax)
      && repairCursor < capacity
    }

    ghost function View(): Image
      reads `keys, `generations, `free, `slotOf, `rulePins, index`entries
      reads ruleDictionary`descriptors, ruleDictionary`refcounts, ruleDictionary`slotOf
      reads nodeDictionary`descriptors, nodeDictionary`refcounts, nodeDictionary`slotOf
    {
      Image(keys, generations, free, index.entries, slotOf,
            ruleDictionary.descriptors, ruleDictionary.refcounts, ruleDictionary.slotOf, rulePins,
            nodeDictionary.descriptors, nodeDictionary.refcounts, nodeDictionary.slotOf, localNodeSlot)
    }

    ghost function Columns(): Lanes.Columns
      reads `generations, `keys, `originSequences, `nextSequence, `tidy
    {
      Lanes.Columns(generations, keys, originSequences, nextSequence, localNodeSlot, tidy)
    }

    ghost predicate LanesOk()
      reads `generations, `keys, `originSequences, `nextSequence, `tidy, `complete, localDirty`pushed
      reads forwardedDirty`pushed
    {
      && Lanes.Shaped(Columns()) && Lanes.SequencesOk(Columns())
      && Lanes.LaneOk(Columns(), localDirty.pushed, true, complete)
      && Lanes.LaneOk(Columns(), forwardedDirty.pushed, false, complete)
    }

    /** A node slot nobody is interned under has no sequence and no watermark to inherit. */
    ghost predicate OriginsIsolated()
      requires peerFrontiers.Valid() && peerFrontiers.nodeCapacity == nodeDictionary.capacity == |nextSequence|
      reads `nextSequence, nodeDictionary`free
      reads peerFrontiers, peerFrontiers.peerIds, peerFrontiers.lastAcked, peerFrontiers.lastSent
    {
      forall n: nat :: n < nodeDictionary.capacity && n in nodeDictionary.free ==>
        nextSequence[n] == 0 && peerFrontiers.Blank(n)
    }

    ghost predicate MarksOk()
      reads `selectionEpoch, `selectionMarks
    {
      selectionEpoch <= U32_MAX && forall i: nat :: i < |selectionMarks| ==> selectionMarks[i] <= selectionEpoch
    }

    ghost predicate Lives()
      reads `generations, `steps
    {
      Stepped(generations, steps)
    }

    ghost predicate Valid()
      reads Repr()
    {
      && Apart(index, ruleDictionary, nodeDictionary, localDirty, forwardedDirty) && Configured()
      && Tables() && Rings() && peerFrontiers.Clean() && Shapes()
      && IsFreeList(freeHead, freeNext, free, NO_FREE) && |freeNext| == |generations| == capacity
      && activeLen + |free| == capacity && index.len == activeLen
      && Coherent(View(), hashKey)
      && LanesOk() && OriginsIsolated() && MarksOk() && Lives()
      && self in nodeDictionary.slotOf && nodeDictionary.slotOf[self] == localNodeSlot
    }

    /** The abstract contents. */
    ghost function Cells(): Counts
      requires Valid()
      reads Repr()
    {
      CellsOf(slotOf, counts)
    }

    /** When each cell last changed. */
    ghost function Touched(): Counts
      requires Valid()
      reads Repr()
    {
      CellsOf(slotOf, lastUpdateMillis)
    }

    /** What decides which rows are stored. */
    ghost function RoomNow(): Room
      reads `slotOf, ruleDictionary`slotOf, ruleDictionary`free, nodeDictionary`slotOf, nodeDictionary`free
    {
      Room(capacity, slotOf.Keys, ruleDictionary.slotOf.Keys, |ruleDictionary.free|,
           nodeDictionary.slotOf.Keys, |nodeDictionary.free|)
    }

    ghost function OriginState(): Origins
      requires peerFrontiers.Valid()
      reads nodeDictionary`free, nodeDictionary`descriptors, `nextSequence
      reads peerFrontiers, peerFrontiers.peerIds, peerFrontiers.lastAcked, peerFrontiers.lastSent
    {
      Origins(nodeDictionary.free, nodeDictionary.descriptors, nextSequence, peerFrontiers.Watermarks())
    }

    ghost function KnownRules(): map<nat, RuleDescriptor>
      reads ruleDictionary`descriptors, ruleDictionary`slotOf
    {
      Known(ruleDictionary.slotOf, ruleDictionary.descriptors)
    }

    ghost function LocalRules(): set<nat>
      reads ruleDictionary`descriptors, ruleDictionary`slotOf
    {
      Enforced(KnownRules())
    }

    /** Configured rules whose first registration took a pin, with their slot and their last registered
        descriptor. */
    ghost function PinnedRules(): map<nat, PinnedRule>
      reads ruleDictionary`descriptors, ruleDictionary`slotOf, `rulePins
    {
      PinnedKnown(ruleDictionary.slotOf, ruleDictionary.descriptors, rulePins)
    }

    /** The store built from freshly allocated, empty parts. */
    constructor FromParts(
      capacity: nat, countMax: nat, hashKey: CompactKey -> nat, self: NodeDescriptor, slot: nat,
      index: CellIndex, rules: Rules, nodes: Nodes, localDirty: DirtyRing, forwardedDirty: DirtyRing,
      frontiers: PeerFrontierTable)
      requires 0 < capacity <= 0x4000_0000 && capacity < index.capacity
      requires index.Valid() && index.entries == map[] && index.len == 0
      requires rules.Valid() && rules.slotOf == map[] && (forall d :: rules.keyOf(d) == d.fingerprint)
      requires forall r: nat :: r < rules.capacity ==> rules.refcounts[r] == 0
      requires nodes.Valid() && nodes.slotOf == map[self := slot] && (forall d :: nodes.keyOf(d) == d)
      requires slot < nodes.capacity && nodes.descriptors[slot] == self
      requires forall n: nat :: n < nodes.capacity ==> nodes.refcounts[n] == if n == slot then 1 else 0
      requires localDirty.Valid() && localDirty.pushed == [] && forwardedDirty.Valid() && forwardedDirty.pushed == []
      requires frontiers.Clean() && frontiers.nodeCapacity == nodes.capacity
      requires forall n: nat :: n < nodes.capacity ==> frontiers.Blank(n)
      requires Apart(index, rules, nodes, localDirty, forwardedDirty)
      ensures Valid() && Cells() == map[] && KnownRules() == map[] && rulePins == {} && tidy && complete
      ensures this.index == index && this.ruleDictionary == rules && this.nodeDictionary == nodes
      ensures this.localDirty == localDirty && this.forwardedDirty == forwardedDirty && this.peerFrontiers == frontiers
      ensures this.capacity == capacity && this.self == self && this.countMax == countMax && this.hashKey == hashKey
    {
      hide CellIndex.Valid, IsFreeList, Coherent, DirtyRing.Valid, Tied, Lanes.LaneOk, Lanes.SequencesOk;
      this.capacity, this.countMax, this.hashKey, this.self, localNodeSlot := capacity, countMax, hashKey, self, slot;
      this.index, ruleDictionary, nodeDictionary := index, rules, nodes;
      this.localDirty, this.forwardedDirty, peerFrontiers := localDirty, forwardedDirty, frontiers;
      keys := seq(capacity, _ => CompactKey(0, 0, 0, 0, 0));
      counts, lastUpdateMillis, originSequences := Zeros(capacity), Zeros(capacity), Zeros(capacity);
      generations, freeNext, freeHead, activeLen := Zeros(capacity), Chain(capacity, NO_FREE), 0, 0;
      repairCursor, selectionMarks, selectionEpoch := 0, Zeros(capacity), 0;
      nextSequence := Zeros(nodes.capacity);
      cellStoreFullRejects, ruleDictionaryFullRejects, nodeDictionaryFullRejects := 0, 0, 0;
      free, slotOf, rulePins, tidy, complete := seq(capacity, i => i), map[], {}, true, true;
      steps := Zeros(capacity);
      SteppedStart(Zeros(capacity));
      ChainIsFreeList(capacity, NO_FREE);
      AllFree(capacity);
      new;
      EmptyCoherent(View(), hashKey);
      Lanes.EmptyLane(Columns(), true);
      Lanes.EmptyLane(Columns(), false);
    }

    /** Finds a live cell exactly when one has this interned key. */
    method LookupIndex(key: CompactKey) returns (r: Option<nat>)
      requires Valid()
      ensures Valid()
      ensures r.Some? ==> Live(View(), r.value) && keys[r.value] == key
      ensures r.None? ==> forall i: nat :: Live(View(), i) ==> keys[i] != key
    {
      hide CellIndex.Valid, Dictionary.Valid, LanesOk, OriginsIsolated, IsFreeList, Named, RefsCoherent, NamesCoherent;
      var ks := keys;
      r := index.Find(hashKey(key), (s: nat) => s < |ks| && ks[s] == key);
    }

    /** The cell carries the sequence after the one its origin's counter had. */
    ghost predicate Restamped(slot: nat, counters: seq<nat>)
      reads `keys, `originSequences
    {
      && slot < |keys| && slot < |originSequences| && keys[slot].origin < |counters|
      && originSequences[slot] == SatAdd(counters[keys[slot].origin], 1, U64_MAX)
    }

    /** The ring of the cell's origin class got its entry last. */
    ghost predicate QueuedLast(slot: nat)
      reads `keys, `generations, `originSequences, localDirty`pushed, forwardedDirty`pushed
    {
      && slot < |keys| && slot < |generations| && slot < |originSequences|
      && var pushed := if keys[slot].origin == localNodeSlot then localDirty.pushed else forwardedDirty.pushed;
         pushed != [] && pushed[|pushed| - 1] == EntryFor(slot)
    }

    lemma QueuedBy(slot: nat, local: seq<DirtyEntry>, forwarded: seq<DirtyEntry>)
      requires slot < |keys| && slot < |generations| && slot < |originSequences|
      requires localDirty.pushed == Lanes.Routed(local, EntryFor(slot), keys[slot].origin == localNodeSlot)
      requires forwardedDirty.pushed == Lanes.Routed(forwarded, EntryFor(slot), keys[slot].origin != localNodeSlot)
      ensures QueuedLast(slot)
    {
    }

    method PushDirty(origin: nat, handle: CellHandle, sequence: nat)
      requires Rings() && localDirty != forwardedDirty && localDirty.entries != forwardedDirty.entries
      modifies localDirty, localDirty.entries, forwardedDirty, forwardedDirty.entries
      ensures Rings()
      ensures localDirty.pushed ==
                Lanes.Routed(old(localDirty.pushed), DirtyEntry(handle, sequence), origin == localNodeSlot)
      ensures forwardedDirty.pushed ==
                Lanes.Routed(old(forwardedDirty.pushed), DirtyEntry(handle, sequence), origin != localNodeSlot)
    {
      hide DirtyRing.Valid;
      if origin == localNodeSlot {
        localDirty.Push(DirtyEntry(handle, sequence));
      } else {
        forwardedDirty.Push(DirtyEntry(handle, sequence));
      }
    }

    method NextOriginSequence(origin: nat) returns (sequence: nat)
      requires Configured() && Shapes() && peerFrontiers.Valid() && OriginsIsolated() && nodeDictionary.Interned(origin)
      modifies `nextSequence, `tidy
      ensures Shapes() && OriginsIsolated()
      ensures sequence == SatAdd(old(nextSequence)[origin], 1, U64_MAX)
      ensures nextSequence == old(nextSequence)[origin := sequence]
      ensures sequence >= old(nextSequence)[origin] && tidy == (old(tidy) && old(nextSequence)[origin] < sequence)
    {
      sequence := SatAdd(nextSequence[origin], 1, U64_MAX);
      tidy := tidy && nextSequence[origin] < sequence;
      nextSequence := nextSequence[origin := sequence];
    }

    /** A live cell's origin is interned. */
    lemma OriginInterned(i: nat)
      requires Valid() && Live(View(), i)
      ensures i < capacity && KeyResolves(View(), keys[i])
      ensures nodeDictionary.Interned(keys[i].origin) && ruleDictionary.Interned(keys[i].rule)
      ensures generations[i] <= U32_MAX
    {
      hide CellIndex.Valid, LanesOk, OriginsIsolated, IsFreeList, Named, RefsCoherent, NamesCoherent;
      UserKeepsSlots(View(), hashKey, i);
    }

    method Restamp(slot: nat) returns (sequence: nat)
      requires Configured() && Shapes() && peerFrontiers.Valid() && OriginsIsolated()
      requires Lanes.Shaped(Columns()) && slot < capacity && Odd(generations[slot])
      requires nodeDictionary.Interned(keys[slot].origin)
      modifies `nextSequence, `originSequences, `tidy
      ensures Shapes() && OriginsIsolated()
      ensures sequence >= old(nextSequence)[keys[slot].origin] && originSequences[slot] == sequence
      ensures Restamped(slot, old(nextSequence))
      ensures Columns() == Lanes.Stamped(old(Columns()), slot, sequence)
    {
      hide OriginsIsolated, PeerFrontierTable.Valid, PeerFrontierTable.VacantBlank;
      sequence := NextOriginSequence(keys[slot].origin);
      originSequences := originSequences[slot := sequence];
    }

    /** Stamps a live cell with its origin's next sequence and marks it dirty in its lane. */
    method MarkDirty(slot: nat)
      requires Configured() && Shapes() && peerFrontiers.Valid() && OriginsIsolated() && LanesOk() && Rings()
      requires slot < capacity == |generations| && Odd(generations[slot]) && nodeDictionary.Interned(keys[slot].origin)
      requires localDirty != forwardedDirty && localDirty.entries != forwardedDirty.entries
      modifies `nextSequence, `originSequences, `tidy
      modifies localDirty, localDirty.entries, forwardedDirty, forwardedDirty.entries
      ensures Shapes() && OriginsIsolated() && LanesOk() && Rings()
      ensures Restamped(slot, old(nextSequence)) && QueuedLast(slot)
    {
      hide DirtyRing.Valid, PeerFrontierTable.Valid, Rings, Lanes.LaneOk, Lanes.SequencesOk, Lanes.Routed,
        OriginsIsolated, Shapes, QueuedLast, Restamped, Configured;
      Widths();
      ghost var c, local, forwarded := Columns(), localDirty.pushed, forwardedDirty.pushed;
      var sequence := Restamp(slot);
      Lanes.StampedLane(c, localDirty.pushed, true, complete, slot, sequence);
      Lanes.StampedLane(c, forwardedDirty.pushed, false, complete, slot, sequence);
      PushDirty(keys[slot].origin, CellHandle(slot, generations[slot]), sequence);
      Widths();
      QueuedBy(slot, local, forwarded);
    }

    method Stamp(slot: nat)
      requires Valid() && Live(View(), slot)
      modifies `nextSequence, `originSequences, `tidy
      modifies localDirty, localDirty.entries, forwardedDirty, forwardedDirty.entries
      ensures Valid()
      ensures Restamped(slot, old(nextSequence)) && QueuedLast(slot)
    {
      hide CellIndex.Valid, Dictionary.Valid, DirtyRing.Valid, PeerFrontierTable.Valid, PeerFrontierTable.VacantBlank,
        Tables, Rings, IsFreeList, Coherent, LanesOk, OriginsIsolated, MarksOk, Shapes, QueuedLast, Restamped, Lives,
        Configured;
      OriginInterned(slot);
      MarkDirty(slot);
    }

    /** The update half of `upsert`: a live cell takes a new count and is stamped and marked dirty. */
    method UpdateCell(slot: nat, next: nat, now: nat)
      requires Valid() && Live(View(), slot) && next <= countMax
      modifies `counts, `lastUpdateMillis, `nextSequence, `originSequences, `tidy
      modifies localDirty, localDirty.entries, forwardedDirty, forwardedDirty.entries
      ensures Valid() && counts == old(counts)[slot := next]
      ensures lastUpdateMillis == old(lastUpdateMillis)[slot := now]
      ensures Restamped(slot, old(nextSequence)) && QueuedLast(slot)
    {
      hide CellIndex.Valid, Dictionary.Valid, DirtyRing.Valid, PeerFrontierTable.Valid, PeerFrontierTable.VacantBlank,
        IsFreeList, Coherent,
        Lanes.LaneOk, Lanes.SequencesOk, QueuedLast, Restamped;
      counts, lastUpdateMillis := counts[slot := next], lastUpdateMillis[slot := now];
      Stamp(slot);
    }

    /** Pops the freelist and flips the slot to active. */
    method AllocSlot() returns (r: Option<nat>)
      requires IsFreeList(freeHead, freeNext, free, NO_FREE)
      requires |generations| == |freeNext| == capacity && Lives()
      modifies `freeHead, `freeNext, `generations, `steps, `activeLen, `free, `tidy
      ensures IsFreeList(freeHead, freeNext, free, NO_FREE) && |freeNext| == capacity && Lives()
      ensures r.None? <==> old(free) == []
      ensures r.None? ==> unchanged(this)
      ensures r.Some? ==> r.value == old(free)[0] && r.value < capacity && r.value !in free && free == old(free)[1..]
      ensures r.Some? ==> generations == old(generations)[r.value := Bump(old(generations)[r.value])]
      ensures r.Some? ==> r.value < |old(steps)| && steps == old(steps)[r.value := old(steps)[r.value] + 1]
      ensures r.Some? ==> activeLen == old(activeLen) + 1 && tidy == (old(tidy) && old(generations)[r.value] < U32_MAX)
    {
      hide IsFreeList, Stepped;
      StepsLong();
      HeadTells(freeHead, freeNext, free, NO_FREE);
      if freeHead == NO_FREE {
        return None;
      }
      var slot := freeHead;
      Pop(freeHead, freeNext, free, NO_FREE, NO_FREE);
      freeHead := freeNext[slot];
      freeNext := freeNext[slot := NO_FREE];
      tidy := tidy && generations[slot] < U32_MAX;
      SteppedOn(generations, steps, slot);
      generations := generations[slot := Bump(generations[slot])];
      steps := steps[slot := steps[slot] + 1];
      activeLen := activeLen + 1;
      free := free[1..];
      return Some(slot);
    }

    lemma StepsLong()
      requires Lives()
      ensures |steps| == |generations|
    {
    }

    /** A new cell takes its dictionary references and its index entry. */
    method LinkCell(slot: nat, key: CompactKey)
      requires Apart(index, ruleDictionary, nodeDictionary, localDirty, forwardedDirty) && Tables()
      requires ruleDictionary.Interned(key.rule) && nodeDictionary.Interned(key.origin)
      requires slot !in index.entries && slot != EMPTY && index.len < index.capacity
      requires ruleDictionary.refcounts[key.rule] < U32_MAX && nodeDictionary.refcounts[key.origin] < U32_MAX
      modifies ruleDictionary`refcounts, nodeDictionary`refcounts, index, index.slotIndexes, index.hashes
      ensures Tables()
      ensures index.entries == old(index.entries)[slot := hashKey(key)] && index.len == old(index.len) + 1
      ensures ruleDictionary.refcounts
                == old(ruleDictionary.refcounts)[key.rule := old(ruleDictionary.refcounts)[key.rule] + 1]
      ensures nodeDictionary.refcounts
                == old(nodeDictionary.refcounts)[key.origin := old(nodeDictionary.refcounts)[key.origin] + 1]
    {
      hide CellIndex.Valid, Tied, IsFreeList;
      ruleDictionary.IncRef(key.rule);
      nodeDictionary.IncRef(key.origin);
      index.InsertUnchecked(hashKey(key), slot);
    }

    /** A key whose rule and origin slots are interned under their own names. */
    ghost predicate Resolved(key: CompactKey)
      reads this, ruleDictionary, nodeDictionary, index
    {
      && KeyResolves(View(), key)
      && ruleDictionary.Interned(key.rule) && nodeDictionary.Interned(key.origin)
      && View().rules[key.rule].fingerprint in View().ruleSlotOf
      && View().ruleSlotOf[View().rules[key.rule].fingerprint] == key.rule
      && View().nodes[key.origin] in View().nodeSlotOf && View().nodeSlotOf[View().nodes[key.origin]] == key.origin
    }

    /** Writes every column of a new cell and hands out its first sequence. */
    method WriteRow(slot: nat, key: CompactKey, initial: nat, now: nat) returns (sequence: nat)
      requires Configured() && Shapes() && peerFrontiers.Valid() && OriginsIsolated()
      requires slot < capacity && initial <= countMax && nodeDictionary.Interned(key.origin)
      modifies `keys, `counts, `lastUpdateMillis, `originSequences, `nextSequence, `tidy
      ensures Shapes() && OriginsIsolated()
      ensures sequence == SatAdd(old(nextSequence)[key.origin], 1, U64_MAX) >= old(nextSequence)[key.origin]
      ensures keys == old(keys)[slot := key] && counts == old(counts)[slot := initial]
      ensures lastUpdateMillis == old(lastUpdateMillis)[slot := now]
      ensures originSequences == old(originSequences)[slot := sequence]
      ensures nextSequence == old(nextSequence)[key.origin := sequence]
      ensures tidy == (old(tidy) && old(nextSequence)[key.origin] < sequence)
      ensures Restamped(slot, old(nextSequence))
    {
      hide OriginsIsolated, PeerFrontierTable.Valid, PeerFrontierTable.VacantBlank;
      sequence := NextOriginSequence(key.origin);
      originSequences := originSequences[slot := sequence];
      keys := keys[slot := key];
      counts := counts[slot := initial];
      lastUpdateMillis := lastUpdateMillis[slot := now];
    }

    /** Takes a free slot and fills it, recording it as the slot of `id`. */
    method TakeSlot(key: CompactKey, initial: nat, now: nat, ghost id: CellId) returns (r: Option<nat>)
      requires Configured() && Shapes() && peerFrontiers.Valid() && OriginsIsolated()
      requires IsFreeList(freeHead, freeNext, free, NO_FREE) && |freeNext| == |generations| == capacity
      requires initial <= countMax && nodeDictionary.Interned(key.origin) && Lanes.Shaped(Columns()) && Lives()
      modifies `keys, `counts, `lastUpdateMillis, `originSequences, `generations, `steps, `freeNext, `freeHead
      modifies `activeLen
      modifies `nextSequence, `free, `slotOf, `tidy
      ensures Shapes() && OriginsIsolated() && Lives()
      ensures IsFreeList(freeHead, freeNext, free, NO_FREE) && |freeNext| == |generations| == capacity
      ensures r.None? <==> old(free) == []
      ensures r.None? ==> unchanged(this)
      ensures r.Some? ==>
                r.value == old(free)[0] && r.value < capacity && r.value !in free && activeLen == old(activeLen) + 1
      ensures r.Some? ==> key.origin < |nextSequence| == |old(nextSequence)|
      ensures r.Some? ==> originSequences[r.value] >= old(nextSequence)[key.origin]
      ensures r.Some? ==> Restamped(r.value, old(nextSequence))
      ensures r.Some? ==> Columns() == Lanes.Born(old(Columns()), r.value, key, originSequences[r.value])
      ensures r.Some? ==>
                View() == old(View()).(keys := keys, generations := generations, free := free, slotOf := slotOf)
      ensures r.Some? ==>
                && free == old(free)[1..] && slotOf == old(slotOf)[id := r.value]
                && counts == old(counts)[r.value := initial]
      ensures r.Some? ==> r.value < |old(steps)| && steps == old(steps)[r.value := old(steps)[r.value] + 1]
      ensures r.Some? ==> r.value < |old(lastUpdateMillis)| && lastUpdateMillis == old(lastUpdateMillis)[r.value := now]
    {
      hide IsFreeList, OriginsIsolated, PeerFrontierTable.Valid, PeerFrontierTable.VacantBlank, Configured,
        Lanes.Shaped, Shapes, Lives, SatAdd, Bump,
        Restamped;
      Widths();
      ghost var c := Columns();
      r := AllocSlot();
      if r.Some? {
        var sequence := WriteRow(r.value, key, initial, now);
        slotOf := slotOf[id := r.value];
        assert Columns() == Lanes.Born(c, r.value, key, sequence);
      }
    }

    lemma Widths()
      requires Shapes()
      ensures |keys| == |counts| == |originSequences| == |lastUpdateMillis| == capacity
      ensures |nextSequence| == nodeDictionary.capacity
    {
    }

    /** The store while a new cell has its slot and columns but not yet its references, its index
        entry and its dirty entry; `v` is the store before. */
    ghost predicate Pending(v: Image, slot: nat, key: CompactKey)
      reads Repr()
    {
      && Apart(index, ruleDictionary, nodeDictionary, localDirty, forwardedDirty) && Configured()
      && Tables() && Rings() && peerFrontiers.Clean() && Shapes()
      && IsFreeList(freeHead, freeNext, free, NO_FREE) && |freeNext| == |generations| == capacity
      && activeLen + |free| == capacity && index.len + 1 == activeLen
      && OriginsIsolated() && MarksOk() && Lives()
      && self in nodeDictionary.slotOf && nodeDictionary.slotOf[self] == localNodeSlot
      && slot < capacity && slot !in index.entries && slot < |originSequences|
      && ruleDictionary.Interned(key.rule) && nodeDictionary.Interned(key.origin)
      && ruleDictionary.refcounts[key.rule] < U32_MAX && nodeDictionary.refcounts[key.origin] < U32_MAX
      && |v.keys| == |v.generations| && slot < |v.keys| && KeyResolves(v, key) && v.free != []
      && |v.rules| == |v.ruleRefs| && |v.nodes| == |v.nodeRefs|
      && Coherent(Inserted(v, hashKey, slot, key), hashKey)
      && View()
         == Inserted(v, hashKey, slot, key).(entries := v.entries, ruleRefs := v.ruleRefs, nodeRefs := v.nodeRefs)
      && Lanes.Shaped(Columns()) && Lanes.SequencesOk(Columns())
      && Lanes.LaneOk(Columns(), Lanes.Routed(localDirty.pushed, EntryFor(slot), key.origin == localNodeSlot), true,
                      complete)
      && Lanes.LaneOk(Columns(), Lanes.Routed(forwardedDirty.pushed, EntryFor(slot), key.origin != localNodeSlot),
                      false, complete)
    }

    ghost function EntryFor(slot: nat): DirtyEntry
      requires slot < |generations| && slot < |originSequences|
      reads `generations, `originSequences
    {
      DirtyEntry(CellHandle(slot, generations[slot]), originSequences[slot])
    }

    method FinishInsert(slot: nat, key: CompactKey, ghost v: Image)
      requires Pending(v, slot, key)
      modifies ruleDictionary`refcounts, nodeDictionary`refcounts, index, index.slotIndexes, index.hashes
      modifies localDirty, localDirty.entries, forwardedDirty, forwardedDirty.entries
      ensures Valid()
      ensures QueuedLast(slot)
    {
      hide CellIndex.Valid, Dictionary.Valid, DirtyRing.Valid, PeerFrontierTable.Valid, PeerFrontierTable.VacantBlank,
        Tables, Rings, IsFreeList,
        Coherent;
      hide Lanes.LaneOk, Lanes.SequencesOk, Lanes.Shaped, Lanes.Routed, OriginsIsolated, MarksOk, Shapes, QueuedLast;
      ghost var local, forwarded := localDirty.pushed, forwardedDirty.pushed;
      LinkCell(slot, key);
      PushDirty(key.origin, CellHandle(slot, generations[slot]), originSequences[slot]);
      QueuedBy(slot, local, forwarded);
      assert View() == Inserted(v, hashKey, slot, key);
    }

    method BeginInsert(key: CompactKey, initial: nat, now: nat) returns (r: Option<nat>)
      requires Valid() && Resolved(key) && Portable(View(), key) !in slotOf && initial <= countMax
      modifies `keys, `counts, `lastUpdateMillis, `originSequences, `generations, `steps, `freeNext, `freeHead
      modifies `activeLen
      modifies `nextSequence, `free, `slotOf, `tidy
      ensures r.None? <==> old(free) == []
      ensures r.None? ==> unchanged(this) && Valid()
      ensures r.Some? ==> Pending(old(View()), r.value, key)
      ensures r.Some? ==> r.value < capacity && counts == old(counts)[r.value := initial]
      ensures r.Some? ==> r.value < |old(steps)| && steps == old(steps)[r.value := old(steps)[r.value] + 1]
      ensures r.Some? ==> r.value < |old(lastUpdateMillis)| && lastUpdateMillis == old(lastUpdateMillis)[r.value := now]
      ensures r.Some? ==> slotOf == old(slotOf)[old(Portable(View(), key)) := r.value]
      ensures r.Some? ==> forall id :: id in old(slotOf) ==> old(slotOf)[id] != r.value
      ensures r.Some? ==> Restamped(r.value, old(nextSequence))
    {
      hide CellIndex.Valid, Dictionary.Valid, DirtyRing.Valid, PeerFrontierTable.Valid, PeerFrontierTable.VacantBlank,
        Tables, Rings, IsFreeList,
        Coherent;
      hide Lanes.LaneOk, Lanes.SequencesOk, Lanes.Routed, OriginsIsolated, MarksOk, Shapes, Lives, Restamped;
      ghost var v := View();
      ghost var c := Columns();
      r := TakeSlot(key, initial, now, Portable(v, key));
      if r.Some? {
        FreeSlotFacts(v, hashKey, r.value);
        RefsBounded(v, hashKey, key.rule, key.origin);
        InsertedCoherent(v, hashKey, r.value, key);
        Lanes.BornLane(c, localDirty.pushed, true, complete, r.value, key, originSequences[r.value]);
        Lanes.BornLane(c, forwardedDirty.pushed, false, complete, r.value, key, originSequences[r.value]);
      }
    }

    /** The insert half of `upsert`. */
    method InsertCell(key: CompactKey, initial: nat, now: nat) returns (r: Option<nat>)
      requires Valid() && Resolved(key) && Portable(View(), key) !in slotOf && initial <= countMax
      modifies `keys, `counts, `lastUpdateMillis, `originSequences, `generations, `steps, `freeNext, `freeHead
      modifies `activeLen
      modifies `nextSequence, `free, `slotOf, `tidy
      modifies ruleDictionary`refcounts, nodeDictionary`refcounts, index, index.slotIndexes, index.hashes
      modifies localDirty, localDirty.entries, forwardedDirty, forwardedDirty.entries
      ensures Valid()
      ensures r.None? <==> old(free) == []
      ensures r.None? ==> unchanged(this)
      ensures r.Some? ==> r.value < capacity && counts == old(counts)[r.value := initial]
      ensures r.Some? ==> r.value < |old(steps)| && steps == old(steps)[r.value := old(steps)[r.value] + 1]
      ensures r.Some? ==> r.value < |old(lastUpdateMillis)| && lastUpdateMillis == old(lastUpdateMillis)[r.value := now]
      ensures r.Some? ==> slotOf == old(slotOf)[old(Portable(View(), key)) := r.value]
      ensures r.Some? ==> forall id :: id in old(slotOf) ==> old(slotOf)[id] != r.value
      ensures r.Some? ==> Restamped(r.value, old(nextSequence)) && QueuedLast(r.value)
    {
      hide Valid, Pending, Restamped, QueuedLast;
      r := BeginInsert(key, initial, now);
      if r.Some? {
        FinishInsert(r.value, key, old(View()));
      }
    }

    /** Flips the slot to inactive and pushes it on the freelist. */
    method FreeSlot(slot: nat)
      requires IsFreeList(freeHead, freeNext, free, NO_FREE) && |generations| == |freeNext| == capacity && Lives()
      requires slot < capacity && slot !in free && activeLen > 0
      modifies `freeHead, `freeNext, `generations, `steps, `activeLen, `free, `tidy
      ensures IsFreeList(freeHead, freeNext, free, NO_FREE) && |freeNext| == capacity && Lives()
      ensures free == [slot] + old(free) && activeLen == old(activeLen) - 1
      ensures generations == old(generations)[slot := Bump(old(generations)[slot])]
      ensures slot < |old(steps)| && steps == old(steps)[slot := old(steps)[slot] + 1]
      ensures tidy == (old(tidy) && old(generations)[slot] < U32_MAX)
    {
      hide IsFreeList, Stepped;
      StepsLong();
      Push(freeHead, freeNext, free, NO_FREE, slot);
      tidy := tidy && generations[slot] < U32_MAX;
      SteppedOn(generations, steps, slot);
      generations := generations[slot := Bump(generations[slot])];
      steps := steps[slot := steps[slot] + 1];
      freeNext := freeNext[slot := freeHead];
      freeHead := slot;
      activeLen := activeLen - 1;
      free := [slot] + free;
    }

    /** One reference to an origin fewer. */
    method ReleaseNode(origin: nat) returns (freed: bool)
      requires peerFrontiers.Clean() && nodeDictionary.Valid()
      requires origin < nodeDictionary.capacity == |nodeDictionary.refcounts| == |nodeDictionary.descriptors|
      requires nodeDictionary.refcounts[origin] > 0
      modifies nodeDictionary, nodeDictionary.index, nodeDictionary.index.slotIndexes, nodeDictionary.index.hashes
      ensures nodeDictionary.Valid() && peerFrontiers.Clean() && OriginsKept(old(OriginState()), OriginState())
      ensures nodeDictionary.refcounts
                == old(nodeDictionary.refcounts)[origin := old(nodeDictionary.refcounts)[origin] - 1]
      ensures freed <==> old(nodeDictionary.refcounts)[origin] == 1
      ensures nodeDictionary.descriptors ==
                if freed then old(nodeDictionary.descriptors)[origin := nodeDictionary.blank]
                else old(nodeDictionary.descriptors)
      ensures nodeDictionary.slotOf ==
                if freed
                then old(nodeDictionary.slotOf) - {nodeDictionary.keyOf(old(nodeDictionary.descriptors)[origin])}
                else old(nodeDictionary.slotOf)
      ensures nodeDictionary.free == if freed then [origin] + old(nodeDictionary.free) else old(nodeDictionary.free)
    {
      hide Dictionary.Valid, OriginsKept, PeerFrontierTable.Watermarks;
      ghost var was := OriginState();
      freed := nodeDictionary.DecRef(origin);
      if freed {
        SameMarks(was.marks, origin);
        OriginsDrop(was, OriginState(), origin);
      } else {
        OriginsSelf(was);
      }
    }

    method UnlinkTables(slot: nat, key: CompactKey) returns (freedNode: bool)
      requires Apart(index, ruleDictionary, nodeDictionary, localDirty, forwardedDirty) && Tables()
      requires peerFrontiers.Clean()
      requires key.rule < ruleDictionary.capacity == |ruleDictionary.refcounts| == |ruleDictionary.descriptors|
      requires key.origin < nodeDictionary.capacity == |nodeDictionary.refcounts| == |nodeDictionary.descriptors|
      requires ruleDictionary.refcounts[key.rule] > 0 && nodeDictionary.refcounts[key.origin] > 0
      requires slot in index.entries && index.entries[slot] == hashKey(key)
      modifies index, index.slotIndexes, index.hashes
      modifies ruleDictionary, ruleDictionary.index, ruleDictionary.index.slotIndexes, ruleDictionary.index.hashes
      modifies nodeDictionary, nodeDictionary.index, nodeDictionary.index.slotIndexes, nodeDictionary.index.hashes
      ensures Tables() && peerFrontiers.Clean() && OriginsKept(old(OriginState()), OriginState())
      ensures index.entries == old(index.entries) - {slot} && index.len + 1 == old(index.len)
      ensures ruleDictionary.refcounts
                == old(ruleDictionary.refcounts)[key.rule := old(ruleDictionary.refcounts)[key.rule] - 1]
      ensures
        var last := old(ruleDictionary.refcounts)[key.rule] == 1;
        && ruleDictionary.descriptors == (if last then old(ruleDictionary.descriptors)[key.rule := ruleDictionary.blank]
                                          else old(ruleDictionary.descriptors))
        && ruleDictionary.slotOf ==
           (if last then old(ruleDictionary.slotOf) - {ruleDictionary.keyOf(old(ruleDictionary.descriptors)[key.rule])}
                                     else old(ruleDictionary.slotOf))
      ensures nodeDictionary.refcounts
                == old(nodeDictionary.refcounts)[key.origin := old(nodeDictionary.refcounts)[key.origin] - 1]
      ensures freedNode <==> old(nodeDictionary.refcounts)[key.origin] == 1
      ensures
        && nodeDictionary.descriptors ==
           (if freedNode then old(nodeDictionary.descriptors)[key.origin := nodeDictionary.blank]
                                          else old(nodeDictionary.descriptors))
        && nodeDictionary.slotOf ==
           (if freedNode
            then old(nodeDictionary.slotOf) - {nodeDictionary.keyOf(old(nodeDictionary.descriptors)[key.origin])}
                                     else old(nodeDictionary.slotOf))
        && nodeDictionary.free ==
           (if freedNode then [key.origin] + old(nodeDictionary.free) else old(nodeDictionary.free))
    {
      hide CellIndex.Valid, Dictionary.Valid, OriginsKept, OriginState;
      index.Remove(hashKey(key), slot);
      var _ := ruleDictionary.DecRef(key.rule);
      freedNode := ReleaseNode(key.origin);
    }

    /** No peer has a watermark for a node slot nobody is interned under. */
    ghost predicate BlankWhereFree()
      reads nodeDictionary`free, peerFrontiers, peerFrontiers.peerIds, peerFrontiers.lastAcked, peerFrontiers.lastSent
    {
      && peerFrontiers.Clean() && peerFrontiers.nodeCapacity == nodeDictionary.capacity
      && forall n: nat :: n < nodeDictionary.capacity && n in nodeDictionary.free ==> peerFrontiers.Blank(n)
    }

    /** What giving up a live cell's references relies on. */
    ghost predicate Releasable(slot: nat)
      reads this, Repr()
    {
      && Apart(index, ruleDictionary, nodeDictionary, localDirty, forwardedDirty) && Tables() && BlankWhereFree()
      && Configured()
      && Coherent(View(), hashKey) && Live(View(), slot) && slot < |keys|
      && |ruleDictionary.refcounts| == |ruleDictionary.descriptors| == ruleDictionary.capacity
      && |nodeDictionary.refcounts| == |nodeDictionary.descriptors| == nodeDictionary.capacity
      && keys[slot].rule < ruleDictionary.capacity && keys[slot].origin < nodeDictionary.capacity
      && ruleDictionary.refcounts[keys[slot].rule] > 0 && nodeDictionary.refcounts[keys[slot].origin] > 0
      && slot in index.entries && index.entries[slot] == hashKey(keys[slot])
    }

    lemma CanRelease(slot: nat)
      requires Valid() && Live(View(), slot)
      ensures Releasable(slot)
    {
      hide CellIndex.Valid, Dictionary.Valid, Rings, IsFreeList, LanesOk, MarksOk, Coherent, Lives, Tied;
      LiveFacts(slot);
    }

    /** A dying cell gives up its index entry and its dictionary references; a node slot freed by
        that loses every peer's watermark. */
    method UnlinkCell(slot: nat) returns (freedNode: bool)
      requires Releasable(slot)
      modifies index, index.slotIndexes, index.hashes
      modifies ruleDictionary, ruleDictionary.index, ruleDictionary.index.slotIndexes, ruleDictionary.index.hashes
      modifies nodeDictionary, nodeDictionary.index, nodeDictionary.index.slotIndexes, nodeDictionary.index.hashes
      modifies peerFrontiers.lastAcked, peerFrontiers.lastSent
      ensures Tables() && peerFrontiers.Clean() && OriginsKept(old(OriginState()), OriginState())
      ensures index.len + 1 == old(index.len)
      ensures freedNode <==> old(nodeDictionary.refcounts)[keys[slot].origin] == 1
      ensures nodeDictionary.free ==
                if freedNode then [keys[slot].origin] + old(nodeDictionary.free) else old(nodeDictionary.free)
      ensures View() == old(Released(View(), hashKey, slot, ruleDictionary.blank, nodeDictionary.blank))
                .(generations := generations, free := free, slotOf := slotOf)
      ensures BlankWhereFree()
    {
      hide CellIndex.Valid, Tables, Coherent, OriginsKept, PeerFrontierTable.Watermarks;
      var key := keys[slot];
      freedNode := UnlinkTables(slot, key);
      if freedNode {
        ghost var mid := OriginState();
        peerFrontiers.ClearNodeSlot(key.origin);
        OriginsDrop(mid, OriginState(), key.origin);
        OriginsThrough(old(OriginState()), mid, OriginState());
      }
    }

    lemma LiveFacts(slot: nat)
      requires Valid() && Live(View(), slot)
      ensures slot < capacity == |keys| == |generations| && KeyResolves(View(), keys[slot]) && slot !in free
      ensures |ruleDictionary.refcounts| == |ruleDictionary.descriptors| == ruleDictionary.capacity
      ensures |nodeDictionary.refcounts| == |nodeDictionary.descriptors| == nodeDictionary.capacity
      ensures ruleDictionary.refcounts[keys[slot].rule] > 0 && nodeDictionary.refcounts[keys[slot].origin] > 0
      ensures slot in index.entries && index.entries[slot] == hashKey(keys[slot])
      ensures keys[slot].origin !in nodeDictionary.free && keys[slot].rule !in ruleDictionary.free
    {
      hide CellIndex.Valid, LanesOk, OriginsIsolated, IsFreeList, Named, RefsCoherent, NamesCoherent, Tied;
      UserKeepsSlots(View(), hashKey, slot);
    }

    method RetireSlot(slot: nat, freedNode: bool, ghost id: CellId)
      requires Configured() && Shapes() && Lanes.Shaped(Columns()) && Lives()
      requires IsFreeList(freeHead, freeNext, free, NO_FREE) && |generations| == |freeNext| == capacity
      requires slot < capacity && slot !in free && activeLen > 0 && keys[slot].origin < nodeDictionary.capacity
      requires peerFrontiers.Valid() && forall n: nat :: n < nodeDictionary.capacity && n in nodeDictionary.free ==>
                 peerFrontiers.Blank(n) && (nextSequence[n] == 0 || (freedNode && n == keys[slot].origin))
      modifies `freeHead, `freeNext, `generations, `steps, `activeLen, `free, `tidy, `nextSequence, `slotOf
      ensures Shapes() && OriginsIsolated() && Lives()
      ensures slot < |old(steps)| && steps == old(steps)[slot := old(steps)[slot] + 1]
      ensures IsFreeList(freeHead, freeNext, free, NO_FREE) && |generations| == |freeNext| == capacity
      ensures free == [slot] + old(free) && activeLen == old(activeLen) - 1 && slotOf == old(slotOf) - {id}
      ensures Columns() == Lanes.Buried(old(Columns()), slot, freedNode)
    {
      hide IsFreeList, Stepped;
      if freedNode {
        nextSequence := nextSequence[keys[slot].origin := 0];
      }
      FreeSlot(slot);
      slotOf := slotOf - {id};
    }

    /** The store while a dying cell has given up its references but still holds its slot; `v` is
        the store before. */
    ghost predicate Leaving(v: Image, slot: nat, freedNode: bool)
      reads Repr()
    {
      && Apart(index, ruleDictionary, nodeDictionary, localDirty, forwardedDirty) && Configured()
      && Tables() && Rings() && peerFrontiers.Clean() && Shapes()
      && IsFreeList(freeHead, freeNext, free, NO_FREE) && |freeNext| == |generations| == capacity
      && activeLen + |free| == capacity && index.len + 1 == activeLen && MarksOk() && Lives()
      && self in nodeDictionary.slotOf && nodeDictionary.slotOf[self] == localNodeSlot
      && slot < capacity == |keys| && slot !in free && keys[slot].origin < nodeDictionary.capacity
      && (freedNode ==> keys[slot].origin in nodeDictionary.free) && BlankBut(keys[slot].origin, freedNode)
      && Coherent(v, hashKey) && Live(v, slot) && KeyResolves(v, keys[slot]) && GoneButSlot(v, slot)
      && Lanes.Shaped(Columns()) && LanesBuried(slot, freedNode)
    }

    /** Free node slots are blank, but for the sequence of the one just freed. */
    ghost predicate BlankBut(node: nat, freedNode: bool)
      requires peerFrontiers.Valid() && peerFrontiers.nodeCapacity == nodeDictionary.capacity == |nextSequence|
      reads `nextSequence, nodeDictionary`free
      reads peerFrontiers, peerFrontiers.peerIds, peerFrontiers.lastAcked, peerFrontiers.lastSent
    {
      forall n: nat :: n < nodeDictionary.capacity && n in nodeDictionary.free ==>
        peerFrontiers.Blank(n) && (nextSequence[n] == 0 || (freedNode && n == node))
    }

    /** What is left of `v` without the cell, except that the slot itself is not back yet. */
    ghost predicate GoneButSlot(v: Image, slot: nat)
      requires Coherent(v, hashKey) && Live(v, slot)
      reads `keys, `generations, `free, `slotOf, `rulePins, index`entries
      reads ruleDictionary`descriptors, ruleDictionary`refcounts, ruleDictionary`slotOf
      reads nodeDictionary`descriptors, nodeDictionary`refcounts, nodeDictionary`slotOf
    {
      var gone := Gone(v, slot);
      && gone == View().(generations := gone.generations, free := gone.free, slotOf := gone.slotOf)
      && v.generations == generations && v.free == free && v.slotOf == slotOf && Coherent(gone, hashKey)
    }

    ghost predicate LanesBuried(slot: nat, freedNode: bool)
      requires Lanes.Shaped(Columns()) && slot < |keys| && keys[slot].origin < |nextSequence|
      reads `generations, `keys, `originSequences, `nextSequence, `tidy, `complete, localDirty`pushed
      reads forwardedDirty`pushed
    {
      var d := Lanes.Buried(Columns(), slot, freedNode);
      && Lanes.Shaped(d) && Lanes.SequencesOk(d)
      && Lanes.LaneOk(d, localDirty.pushed, true, complete) && Lanes.LaneOk(d, forwardedDirty.pushed, false, complete)
    }

    ghost function Gone(v: Image, slot: nat): Image
      requires Coherent(v, hashKey) && Live(v, slot)
    {
      Released(v, hashKey, slot, ruleDictionary.blank, nodeDictionary.blank)
    }

    method Detach(slot: nat) returns (freedNode: bool)
      requires Valid() && Live(View(), slot)
      modifies index, index.slotIndexes, index.hashes
      modifies ruleDictionary, ruleDictionary.index, ruleDictionary.index.slotIndexes, ruleDictionary.index.hashes
      modifies nodeDictionary, nodeDictionary.index, nodeDictionary.index.slotIndexes, nodeDictionary.index.hashes
      modifies peerFrontiers.lastAcked, peerFrontiers.lastSent
      ensures Leaving(old(View()), slot, freedNode) && OriginsKept(old(OriginState()), OriginState())
    {
      hide CellIndex.Valid, Dictionary.Valid, DirtyRing.Valid, PeerFrontierTable.Valid, PeerFrontierTable.VacantBlank,
        Tables, Rings, IsFreeList,
        Coherent;
      hide Lanes.LaneOk, Lanes.SequencesOk, Lanes.Shaped, MarksOk, Shapes, Lives, OriginsKept, Releasable, OriginState,
        Repr, KeyResolves;
      ghost var v := View();
      LiveFacts(slot);
      CanRelease(slot);
      OriginInterned(slot);
      ReleasedCoherent(v, hashKey, slot, ruleDictionary.blank, nodeDictionary.blank);
      LocalNodeStays(v, hashKey, slot, ruleDictionary.blank, nodeDictionary.blank, self);
      freedNode := UnlinkCell(slot);
      if freedNode {
        SoleUser(v, hashKey, slot);
      }
      forall j: nat | j < |keys| && Odd(generations[j]) && j != slot
        ensures freedNode ==> keys[j].origin != keys[slot].origin
      {
        assert Live(v, j);
      }
      Lanes.BuriedLane(Columns(), localDirty.pushed, true, complete, slot, freedNode);
      Lanes.BuriedLane(Columns(), forwardedDirty.pushed, false, complete, slot, freedNode);
    }

    method Retire(slot: nat, freedNode: bool, ghost v: Image)
      requires Leaving(v, slot, freedNode)
      modifies `freeHead, `freeNext, `generations, `steps, `activeLen, `free, `tidy, `nextSequence, `slotOf
      ensures Valid() && View() == Gone(v, slot) && OriginsKept(old(OriginState()), OriginState())
      ensures slot < |old(steps)| && steps == old(steps)[slot := old(steps)[slot] + 1]
    {
      hide CellIndex.Valid, Dictionary.Valid, DirtyRing.Valid, PeerFrontierTable.Valid, PeerFrontierTable.VacantBlank,
        Tables, Rings, IsFreeList,
        Coherent;
      hide Lanes.LaneOk, Lanes.SequencesOk, Lanes.Shaped, MarksOk, Shapes, OriginsIsolated, Lives, OriginsKept;
      ghost var was := OriginState();
      Widths();
      RetireSlot(slot, freedNode, Portable(v, keys[slot]));
      if freedNode {
        SameMarks(was.marks, keys[slot].origin);
        OriginsDrop(was, OriginState(), keys[slot].origin);
      } else {
        OriginsSelf(was);
      }
    }

    lemma FrontiersAre()
      requires Valid()
      ensures peerFrontiers.Valid()
    {
    }

    lemma LeavingFrontiers(v: Image, slot: nat, freedNode: bool)
      requires Leaving(v, slot, freedNode)
      ensures peerFrontiers.Valid()
    {
    }

    lemma IsCoherent()
      requires Valid()
      ensures Coherent(View(), hashKey)
    {
      hide Coherent, Tables, Rings, LanesOk, OriginsIsolated, IsFreeList, Shapes;
    }

    /** Frees one live cell; nothing else about the abstract contents changes. */
    method FreeCellAt(slot: nat)
      requires Valid() && Live(View(), slot)
      modifies `freeHead, `freeNext, `generations, `steps, `activeLen, `free, `tidy, `nextSequence, `slotOf
      modifies index, index.slotIndexes, index.hashes
      modifies ruleDictionary, ruleDictionary.index, ruleDictionary.index.slotIndexes, ruleDictionary.index.hashes
      modifies nodeDictionary, nodeDictionary.index, nodeDictionary.index.slotIndexes, nodeDictionary.index.hashes
      modifies peerFrontiers.lastAcked, peerFrontiers.lastSent
      ensures Valid() && OriginsKept(old(OriginState()), OriginState())
      ensures slot < |old(steps)| && steps == old(steps)[slot := old(steps)[slot] + 1]
      ensures old(Coherent(View(), hashKey)) && View() == Gone(old(View()), slot)
    {
      hide Valid, Leaving, Coherent, OriginsKept, OriginState;
      ghost var v := View();
      IsCoherent();
      FrontiersAre();
      var freedNode := Detach(slot);
      LeavingFrontiers(v, slot, freedNode);
      ghost var mid := OriginState();
      Retire(slot, freedNode, v);
      FrontiersAre();
      OriginsThrough(old(OriginState()), mid, OriginState());
    }

    lemma NamedSlot(slot: nat)
      requires Valid() && Live(View(), slot)
      ensures KeyResolves(View(), keys[slot])
      ensures Portable(View(), keys[slot]) in slotOf && slotOf[Portable(View(), keys[slot])] == slot
      ensures forall id :: id in slotOf && slotOf[id] == slot ==> id == Portable(View(), keys[slot])
    {
      hide CellIndex.Valid, Dictionary.Valid, LanesOk, OriginsIsolated, IsFreeList, Partitioned, RefsCoherent,
        NamesCoherent;
    }

    lemma NotStored(key: CompactKey)
      requires Valid() && Resolved(key) && forall i: nat :: Live(View(), i) ==> keys[i] != key
      ensures Portable(View(), key) !in slotOf && Portable(View(), key) !in Cells()
    {
      hide CellIndex.Valid, Dictionary.Valid, LanesOk, OriginsIsolated, IsFreeList, Partitioned, RefsCoherent,
        NamesCoherent;
      if Portable(View(), key) in slotOf {
        PortableInjective(View(), hashKey, key);
      }
    }

    method NoteCellStoreFull()
      requires Valid()
      modifies `cellStoreFullRejects
      ensures Valid() && cellStoreFullRejects == SatAdd(old(cellStoreFullRejects), 1, U64_MAX)
    {
      hide CellIndex.Valid, Dictionary.Valid, DirtyRing.Valid, PeerFrontierTable.Valid, PeerFrontierTable.VacantBlank,
        IsFreeList, Coherent, LanesOk;
      cellStoreFullRejects := SatAdd(cellStoreFullRejects, 1, U64_MAX);
    }

    lemma Plain()
      requires Valid()
      ensures |counts| == |keys| == |generations| == |lastUpdateMillis| == |steps| == capacity
      ensures forall id :: id in slotOf ==> slotOf[id] < capacity
      ensures forall i: nat :: i < capacity ==> counts[i] <= countMax
      ensures |ruleDictionary.descriptors| == ruleDictionary.capacity
    {
      hide CellIndex.Valid, LanesOk, OriginsIsolated, IsFreeList, Partitioned, RefsCoherent, NamesCoherent, Tied;
    }

    /** `active_len` is the number of cells, that is of odd generations. */
    lemma SizeIs()
      requires Valid()
      ensures |Cells()| == activeLen == |Frames.LiveSlots(generations)| && (free == [] <==> activeLen == capacity)
    {
      hide Dictionary.Valid, LanesOk, OriginsIsolated, IsFreeList, RefsCoherent, NamesCoherent, Ordered, Represents;
      forall i | i in index.entries ensures exists id :: id in slotOf && slotOf[id] == i {
        assert Live(View(), i) && slotOf[Portable(View(), keys[i])] == i;
      }
      BijectionCardinality(slotOf, index.entries.Keys);
      assert Cells().Keys == slotOf.Keys;
      assert index.entries.Keys == Frames.LiveSlots(generations);
    }

    lemma CellsAre()
      requires Valid()
      ensures |Cells()| == |slotOf.Keys| && forall id :: id in Cells() <==> id in slotOf
    {
      hide Valid;
      Plain();
      assert Cells().Keys == slotOf.Keys;
      assert |Cells()| == |Cells().Keys|;
    }

    /** The row that tells the aggregate store of a raised count. */
    function DeltaRow(slot: nat, key: CompactKey, previous: nat, current: nat): CellDelta
      requires slot < |generations| && key.rule < |ruleDictionary.descriptors|
      reads `generations, ruleDictionary`descriptors
    {
      var d := ruleDictionary.descriptors[key.rule];
      CellDelta(CellHandle(slot, generations[slot]),
                CountChange(CellIdentity(d.fingerprint, key.keyHash, key.bucket),
                            previous, current, SatSub(current, previous), d.AppliesLocally()))
    }

    method RaiseCell(slot: nat, key: CompactKey, mode: Mode, now: nat) returns (o: UpdateOutcome)
      requires Valid() && Live(View(), slot) && keys[slot] == key && Resolved(key)
      requires mode.MaxMerge? ==> mode.observed <= countMax
      modifies `counts, `lastUpdateMillis, `nextSequence, `originSequences, `tidy
      modifies localDirty, localDirty.entries, forwardedDirty, forwardedDirty.entries
      ensures Valid()
      ensures old(Portable(View(), key)) in old(Cells())
      ensures Cells() == Upserted(old(Cells()), Update(old(Portable(View(), key)), mode), countMax)
      ensures slotOf == old(slotOf)
      ensures
        var u := Update(old(Portable(View(), key)), mode);
        && OutcomeTells(o, u, old(Cells()), countMax, old(LocalRules()), slotOf, generations)
        && Touched() == if o.changed then old(Touched())[u.id := now] else old(Touched())
      ensures o.changed ==> Restamped(slot, old(nextSequence)) && QueuedLast(slot)
    {
      hide Restamped, QueuedLast;
      hide Valid;
      NamedSlot(slot);
      Plain();
      var previous := counts[slot];
      var next := Raise(previous, mode, countMax);
      if next == previous {
        return UpdateOutcome(CellHandle(slot, generations[slot]), false, None);
      }
      UpdateCell(slot, next, now);
      var row := DeltaRow(slot, key, previous, next);
      return UpdateOutcome(row.handle, true, Some(row));
    }

    method AddCell(key: CompactKey, mode: Mode, now: nat) returns (r: UpsertResult)
      requires Valid() && Resolved(key) && Portable(View(), key) !in slotOf
      requires mode.MaxMerge? ==> mode.observed <= countMax
      modifies `keys, `counts, `lastUpdateMillis, `originSequences, `generations, `steps, `freeNext, `freeHead
      modifies `activeLen
      modifies `nextSequence, `free, `slotOf, `tidy, `cellStoreFullRejects
      modifies ruleDictionary`refcounts, nodeDictionary`refcounts, index, index.slotIndexes, index.hashes
      modifies localDirty, localDirty.entries, forwardedDirty, forwardedDirty.entries
      ensures Valid()
      ensures r.Rejected? <==> |old(Cells())| == capacity
      ensures r.Rejected? ==> r.reason == CellStoreFull && Cells() == old(Cells()) && Touched() == old(Touched())
      ensures r.Rejected? ==> cellStoreFullRejects == SatAdd(old(cellStoreFullRejects), 1, U64_MAX)
      ensures r.Applied? ==> Cells() == Upserted(old(Cells()), Update(old(Portable(View(), key)), mode), countMax)
      ensures r.Applied? ==>
                var u := Update(old(Portable(View(), key)), mode);
                && OutcomeTells(r.outcome, u, old(Cells()), countMax, old(LocalRules()), slotOf, generations)
                && r.outcome.changed && Touched() == old(Touched())[u.id := now]
      ensures if r.Applied? then slotOf.Keys == old(slotOf).Keys + {old(Portable(View(), key))}
              else slotOf == old(slotOf)
      ensures OnlyBirths(old(slotOf), old(steps), slotOf, steps)
      ensures r.Applied? ==>
                var slot := slotOf[old(Portable(View(), key))];
                Restamped(slot, old(nextSequence)) && QueuedLast(slot)
    {
      hide Restamped, QueuedLast;
      hide Valid, Lifetimes, OnlyBirths, Repr, CellsOf, Upserted, Emits;
      SizeIs();
      Plain();
      ghost var u := Update(Portable(View(), key), mode);
      var initial := Raise(0, mode, countMax);
      var placed := InsertCell(key, initial, now);
      if placed.None? {
        SameLives(slotOf, steps);
        NoteCellStoreFull();
        return Rejected(CellStoreFull);
      }
      BornLife(old(slotOf), old(steps), u.id, placed.value);
      CellBorn(old(slotOf), old(counts), old(lastUpdateMillis), u, placed.value, countMax, now);
      Plain();
      var row := DeltaRow(placed.value, key, 0, initial);
      return Applied(UpdateOutcome(row.handle, true, Some(row)));
    }

    /** `upsert`: a known cell takes the raised count, a new cell takes a free slot, and a row tells
        of it exactly when the stored count changed or the cell is new. Only a new cell in a full
        store is refused. */
    method Upsert(key: CompactKey, mode: Mode, now: nat) returns (r: UpsertResult)
      requires Valid() && Resolved(key)
      requires mode.MaxMerge? ==> mode.observed <= countMax
      modifies `keys, `counts, `lastUpdateMillis, `originSequences, `generations, `steps, `freeNext, `freeHead
      modifies `activeLen
      modifies `nextSequence, `free, `slotOf, `tidy, `cellStoreFullRejects
      modifies ruleDictionary`refcounts, nodeDictionary`refcounts, index, index.slotIndexes, index.hashes
      modifies localDirty, localDirty.entries, forwardedDirty, forwardedDirty.entries
      ensures Valid() && PinnedRules() == old(PinnedRules()) && LocalRules() == old(LocalRules())
      ensures r.Rejected? <==> old(Portable(View(), key)) !in old(Cells()) && |old(Cells())| == capacity
      ensures r.Rejected? ==> r.reason == CellStoreFull && Cells() == old(Cells()) && Touched() == old(Touched())
      ensures r.Rejected? ==> cellStoreFullRejects == SatAdd(old(cellStoreFullRejects), 1, U64_MAX)
      ensures r.Applied? ==> Cells() == Upserted(old(Cells()), Update(old(Portable(View(), key)), mode), countMax)
      ensures r.Applied? ==>
                var u := Update(old(Portable(View(), key)), mode);
                && OutcomeTells(r.outcome, u, old(Cells()), countMax, old(LocalRules()), slotOf, generations)
                && Touched() == if r.outcome.changed then old(Touched())[u.id := now] else old(Touched())
      ensures RoomNow() == if r.Applied? then Housed(old(RoomNow()), old(Portable(View(), key))) else old(RoomNow())
      ensures OnlyBirths(old(slotOf), old(steps), slotOf, steps)
      ensures r.Applied? && r.outcome.changed ==>
                var slot := slotOf[old(Portable(View(), key))];
                Restamped(slot, old(nextSequence)) && QueuedLast(slot)
    {
      hide Restamped, QueuedLast;
      hide Valid, Upserted, Known, PinnedKnown, Enforced, Lifetimes, OnlyBirths, OutcomeTells, CellsOf, Repr, Emits;
      Plain();
      var found := LookupIndex(key);
      if found.Some? {
        SameLives(slotOf, steps);
        NamedSlot(found.value);
        HousedAlready(RoomNow(), Portable(View(), key));
        var outcome := RaiseCell(found.value, key, mode, now);
        return Applied(outcome);
      }
      NotStored(key);
      r := AddCell(key, mode, now);
    }

    /** Interns a rule descriptor without touching any reference or cell. */
    method WriteRule(d: RuleDescriptor) returns (r: Option<nat>)
      requires Valid()
      modifies ruleDictionary, ruleDictionary.index, ruleDictionary.index.slotIndexes, ruleDictionary.index.hashes
      ensures Valid()
      ensures r.None? <==> d.fingerprint !in old(ruleDictionary.slotOf) && old(ruleDictionary.free) == []
      ensures r.None? ==> View() == old(View()) && ruleDictionary.free == old(ruleDictionary.free)
      ensures Took(old(ruleDictionary.slotOf), |old(ruleDictionary.free)|, ruleDictionary.slotOf, |ruleDictionary.free|,
                   d.fingerprint)
      ensures r.Some? ==> r.value < |old(View()).rules| && View() == RuleWritten(old(View()), r.value, d)
      ensures r.Some? ==> ruleDictionary.Interned(r.value)
      ensures r.Some? ==> if d.fingerprint in old(ruleDictionary.slotOf)
                then r.value == old(ruleDictionary.slotOf)[d.fingerprint]
                          else r.value < |old(View()).ruleRefs| && old(View()).ruleRefs[r.value] == 0
      ensures r.Some? ==> KnownRules() == old(KnownRules())[d.fingerprint := d]
      ensures PinnedRules() == Rewritten(old(PinnedRules()), d)
    {
      hide CellIndex.Valid, Dictionary.Valid, DirtyRing.Valid, PeerFrontierTable.Valid, PeerFrontierTable.VacantBlank,
        IsFreeList, Coherent;
      hide LanesOk, MarksOk, Shapes, OriginsIsolated, Took;
      ruleDictionary.SlotNames(d.fingerprint);
      ghost var v := View();
      r := ruleDictionary.Intern(d);
      if r.Some? {
        RuleWrittenPins(v, hashKey, r.value, d);
        RuleWrittenCoherent(v, hashKey, r.value, d);
        ruleDictionary.SlotNames(d.fingerprint);
      }
    }

    method WriteNode(d: NodeDescriptor) returns (r: Option<nat>)
      requires Valid()
      modifies nodeDictionary, nodeDictionary.index, nodeDictionary.index.slotIndexes, nodeDictionary.index.hashes
      ensures Valid()
      ensures r.None? <==> d !in old(nodeDictionary.slotOf) && old(nodeDictionary.free) == []
      ensures r.None? ==> View() == old(View()) && nodeDictionary.free == old(nodeDictionary.free)
      ensures Took(old(nodeDictionary.slotOf), |old(nodeDictionary.free)|, nodeDictionary.slotOf,
                   |nodeDictionary.free|, d)
      ensures r.Some? ==> r.value < |old(View()).nodes| && View() == NodeWritten(old(View()), r.value, d)
      ensures r.Some? ==> nodeDictionary.Interned(r.value)
    {
      hide CellIndex.Valid, Dictionary.Valid, DirtyRing.Valid, PeerFrontierTable.Valid, PeerFrontierTable.VacantBlank,
        IsFreeList, Coherent;
      hide LanesOk, MarksOk, Shapes, Took;
      nodeDictionary.SlotNames(d);
      nodeDictionary.SlotNames(self);
      ghost var v := View();
      r := nodeDictionary.Intern(d);
      if r.Some? {
        NodeWrittenCoherent(v, hashKey, r.value, d);
        nodeDictionary.SlotNames(d);
      }
    }

    method PinRule(slot: nat)
      requires Valid() && slot < |View().rules| && slot < |View().ruleRefs| && View().ruleRefs[slot] == 0
      requires ruleDictionary.Interned(slot)
      requires View().rules[slot].fingerprint in View().ruleSlotOf
      requires View().ruleSlotOf[View().rules[slot].fingerprint] == slot
      modifies ruleDictionary`refcounts, `rulePins
      ensures Valid() && View() == RulePinned(old(View()), slot)
      ensures PinnedRules()
                == old(PinnedRules())[View().rules[slot].fingerprint := PinnedRule(slot, View().rules[slot])]
    {
      hide CellIndex.Valid, Dictionary.Valid, DirtyRing.Valid, PeerFrontierTable.Valid, PeerFrontierTable.VacantBlank,
        IsFreeList, Coherent;
      hide LanesOk, MarksOk, Shapes, OriginsIsolated;
      ghost var v := View();
      ruleDictionary.SlotNames(v.rules[slot].fingerprint);
      RulePinnedPins(v, slot, v.rules[slot].fingerprint);
      RulePinnedCoherent(v, hashKey, slot);
      ruleDictionary.IncRef(slot);
      rulePins := rulePins + {slot};
    }

    method NoteRuleDictionaryFull()
      requires Valid()
      modifies `ruleDictionaryFullRejects
      ensures Valid() && ruleDictionaryFullRejects == SatAdd(old(ruleDictionaryFullRejects), 1, U64_MAX)
    {
      hide CellIndex.Valid, Dictionary.Valid, DirtyRing.Valid, PeerFrontierTable.Valid, PeerFrontierTable.VacantBlank,
        IsFreeList, Coherent, LanesOk;
      ruleDictionaryFullRejects := SatAdd(ruleDictionaryFullRejects, 1, U64_MAX);
    }

    method NoteNodeDictionaryFull()
      requires Valid()
      modifies `nodeDictionaryFullRejects
      ensures Valid() && nodeDictionaryFullRejects == SatAdd(old(nodeDictionaryFullRejects), 1, U64_MAX)
    {
      hide CellIndex.Valid, Dictionary.Valid, DirtyRing.Valid, PeerFrontierTable.Valid, PeerFrontierTable.VacantBlank,
        IsFreeList, Coherent, LanesOk;
      nodeDictionaryFullRejects := SatAdd(nodeDictionaryFullRejects, 1, U64_MAX);
    }

    lemma PinsNamed()
      ensures forall fp :: fp in PinnedRules() ==> fp in ruleDictionary.slotOf
    {
    }

    /** Registers a configured rule. The first registration of an unknown fingerprint takes a pin;
        registering a known one replaces its descriptor and takes none. */
    method InternRule(d: RuleDescriptor) returns (r: Option<nat>)
      requires Valid()
      modifies ruleDictionary, ruleDictionary.index, ruleDictionary.index.slotIndexes, ruleDictionary.index.hashes
      modifies `rulePins, `ruleDictionaryFullRejects
      ensures Valid() && Cells() == old(Cells())
      ensures r.None? <==> d.fingerprint !in old(ruleDictionary.slotOf) && old(ruleDictionary.free) == []
      ensures r.None? ==>
                View() == old(View()) && ruleDictionaryFullRejects == SatAdd(old(ruleDictionaryFullRejects), 1, U64_MAX)
      ensures r.Some? ==> KnownRules() == old(KnownRules())[d.fingerprint := d]
      ensures r.Some? ==> ruleDictionary.slotOf == old(ruleDictionary.slotOf)[d.fingerprint := r.value]
      ensures PinnedRules() ==
                if r.Some? && d.fingerprint !in old(ruleDictionary.slotOf)
                then old(PinnedRules())[d.fingerprint := PinnedRule(r.value, d)]
                else Rewritten(old(PinnedRules()), d)
    {
      hide Valid, CellsOf, Took, Repr, PinnedKnown;
      PinsNamed();
      var known := FindRule(d.fingerprint);
      r := WriteRule(d);
      if r.None? {
        NoteRuleDictionaryFull();
        return;
      }
      if known.None? {
        PinRule(r.value);
      }
    }

    method FindRule(fingerprint: nat) returns (r: Option<nat>)
      requires Valid()
      ensures Valid()
      ensures r == if fingerprint in ruleDictionary.slotOf then Some(ruleDictionary.slotOf[fingerprint]) else None
    {
      hide CellIndex.Valid, Dictionary.Valid, DirtyRing.Valid, PeerFrontierTable.Valid, PeerFrontierTable.VacantBlank,
        IsFreeList, Coherent, LanesOk,
        MarksOk, Shapes;
      r := ruleDictionary.Find(fingerprint);
    }

    method FindNode(node: NodeDescriptor) returns (r: Option<nat>)
      requires Valid()
      ensures Valid()
      ensures r == if node in nodeDictionary.slotOf then Some(nodeDictionary.slotOf[node]) else None
    {
      hide CellIndex.Valid, Dictionary.Valid, DirtyRing.Valid, PeerFrontierTable.Valid, PeerFrontierTable.VacantBlank,
        IsFreeList, Coherent, LanesOk,
        MarksOk, Shapes;
      r := nodeDictionary.Find(node);
    }

    /** The slot of a rule, interning an unknown one as wire-only. */
    method ResolveRule(fingerprint: nat) returns (r: Option<nat>)
      requires Valid()
      modifies ruleDictionary, ruleDictionary.index, ruleDictionary.index.slotIndexes, ruleDictionary.index.hashes
      modifies `ruleDictionaryFullRejects
      ensures Valid() && Cells() == old(Cells()) && Touched() == old(Touched())
      ensures PinnedRules() == old(PinnedRules()) && LocalRules() == old(LocalRules())
      ensures r.None? <==> fingerprint !in old(ruleDictionary.slotOf) && old(ruleDictionary.free) == []
      ensures r.None? ==> View() == old(View()) && ruleDictionary.free == []
      ensures r.Some? ==> fingerprint in ruleDictionary.slotOf && ruleDictionary.slotOf[fingerprint] == r.value
      ensures KnownRules() == if fingerprint in old(ruleDictionary.slotOf) || r.None? then old(KnownRules())
                              else old(KnownRules())[fingerprint := WireOnly(fingerprint)]
      ensures RoomNow() == WithRule(old(RoomNow()), fingerprint)
    {
      hide Valid, Known, PinnedKnown, Enforced, CellsOf, Took;
      r := FindRule(fingerprint);
      if r.None? {
        WireOnlyAdds(ruleDictionary.slotOf, ruleDictionary.descriptors, rulePins, fingerprint);
        ghost var room, was := RoomNow(), ruleDictionary.slotOf;
        r := WriteRule(WireOnly(fingerprint));
        RuleTook(room, was, ruleDictionary.slotOf, |ruleDictionary.free|, fingerprint);
        if r.None? {
          NoteRuleDictionaryFull();
        }
      }
    }

    /** The slot of an origin, interning an unknown one. */
    method ResolveNode(node: NodeDescriptor) returns (r: Option<nat>)
      requires Valid()
      modifies nodeDictionary, nodeDictionary.index, nodeDictionary.index.slotIndexes, nodeDictionary.index.hashes
      modifies `nodeDictionaryFullRejects
      ensures Valid() && Cells() == old(Cells()) && Touched() == old(Touched()) && KnownRules() == old(KnownRules())
      ensures PinnedRules() == old(PinnedRules()) && LocalRules() == old(LocalRules())
      ensures r.None? <==> node !in old(nodeDictionary.slotOf) && old(nodeDictionary.free) == []
      ensures r.None? ==> View() == old(View()) && nodeDictionary.free == []
      ensures r.Some? ==> node in nodeDictionary.slotOf && nodeDictionary.slotOf[node] == r.value
      ensures RoomNow() == WithNode(old(RoomNow()), node)
    {
      hide Valid, Took;
      r := FindNode(node);
      if r.None? {
        ghost var room, was := RoomNow(), nodeDictionary.slotOf;
        r := WriteNode(node);
        NodeTook(room, was, nodeDictionary.slotOf, |nodeDictionary.free|, node);
        if r.None? {
          NoteNodeDictionaryFull();
        }
      }
    }

    lemma KeyFor(id: CellId)
      requires Valid() && id.fingerprint in ruleDictionary.slotOf
      requires NodeDescriptor(id.nodeId, id.incarnation) in nodeDictionary.slotOf
      ensures
        var key := CompactKey(ruleDictionary.slotOf[id.fingerprint], id.keyHash, id.bucket,
                              nodeDictionary.slotOf[NodeDescriptor(id.nodeId, id.incarnation)], id.incarnation);
        Resolved(key) && Portable(View(), key) == id
    {
      hide CellIndex.Valid, Dictionary.Valid, DirtyRing.Valid, PeerFrontierTable.Valid, PeerFrontierTable.VacantBlank,
        IsFreeList, Coherent, LanesOk,
        MarksOk, Shapes;
      ruleDictionary.SlotNames(id.fingerprint);
      nodeDictionary.SlotNames(NodeDescriptor(id.nodeId, id.incarnation));
    }

    /** `translate_identity`: both slots of a row, unless a dictionary is full for it. */
    method TranslateIdentity(id: CellId) returns (r: Option<CompactKey>)
      requires Valid()
      modifies ruleDictionary, ruleDictionary.index, ruleDictionary.index.slotIndexes, ruleDictionary.index.hashes
      modifies nodeDictionary, nodeDictionary.index, nodeDictionary.index.slotIndexes, nodeDictionary.index.hashes
      modifies `ruleDictionaryFullRejects, `nodeDictionaryFullRejects
      ensures Valid() && Cells() == old(Cells()) && Touched() == old(Touched())
      ensures PinnedRules() == old(PinnedRules()) && LocalRules() == old(LocalRules())
      ensures r.Some? ==> Resolved(r.value) && Portable(View(), r.value) == id
      ensures r.Some? <==> RuleFits(old(RoomNow()), id) && NodeFits(old(RoomNow()), id)
      ensures RoomNow() == Naming(old(RoomNow()), id)
    {
      hide Valid, Known, Enforced, PinnedKnown;
      var rule := ResolveRule(id.fingerprint);
      if rule.None? {
        return None;
      }
      var node := ResolveNode(NodeDescriptor(id.nodeId, id.incarnation));
      if node.None? {
        return None;
      }
      KeyFor(id);
      return Some(CompactKey(rule.value, id.keyHash, id.bucket, node.value, id.incarnation));
    }

    /** One batch row: translate the identity, then `upsert`. */
    method AbsorbRow(u: Update, now: nat) returns (row: Option<CellDelta>, taken: bool)
      requires Valid() && (u.mode.MaxMerge? ==> u.mode.observed <= countMax)
      modifies `keys, `counts, `lastUpdateMillis, `originSequences, `generations, `steps, `freeNext, `freeHead
      modifies `activeLen
      modifies `nextSequence, `free, `slotOf, `tidy, `cellStoreFullRejects, `ruleDictionaryFullRejects
      modifies `nodeDictionaryFullRejects
      modifies index, index.slotIndexes, index.hashes
      modifies ruleDictionary, ruleDictionary.index, ruleDictionary.index.slotIndexes, ruleDictionary.index.hashes
      modifies nodeDictionary, nodeDictionary.index, nodeDictionary.index.slotIndexes, nodeDictionary.index.hashes
      modifies localDirty, localDirty.entries, forwardedDirty, forwardedDirty.entries
      ensures Valid() && PinnedRules() == old(PinnedRules()) && LocalRules() == old(LocalRules())
      ensures Cells() == if taken then Upserted(old(Cells()), u, countMax) else old(Cells())
      ensures if taken && Emits(old(Cells()), u, countMax)
              then row.Some? && row.value.change == Change(old(Cells()), u, countMax, old(LocalRules()))
              else row == None
      ensures Touched() ==
                if taken && Emits(old(Cells()), u, countMax) then old(Touched())[u.id := now] else old(Touched())
      ensures taken == HasRoom(old(RoomNow()), u.id) && RoomNow() == Taking(old(RoomNow()), u.id)
      ensures OnlyBirths(old(slotOf), old(steps), slotOf, steps)
    {
      hide Valid, Upserted, Change, Emits, Cells, Touched, View, LocalRules, PinnedRules, Resolved, Portable,
        KeyResolves;
      hide Lifetimes, OnlyBirths;
      row, taken := None, false;
      Plain();
      CellsAre();
      SameLives(slotOf, steps);
      var key := TranslateIdentity(u.id);
      if key.None? {
        return;
      }
      var result := Upsert(key.value, u.mode, now);
      if result.Applied? {
        row, taken := result.outcome.delta, true;
      }
    }

    /** A batch of rows in order; `taken` tells which were stored. A row is refused exactly when the store
        is full for it at its turn, and stays refused for the rest of the batch. */
    method AbsorbBatch(us: seq<Update>, stamps: seq<nat>) returns (rows: seq<CellDelta>, ghost taken: seq<bool>)
      requires Valid() && |us| == |stamps|
      requires forall i :: 0 <= i < |us| && us[i].mode.MaxMerge? ==> us[i].mode.observed <= countMax
      modifies `keys, `counts, `lastUpdateMillis, `originSequences, `generations, `steps, `freeNext, `freeHead
      modifies `activeLen
      modifies `nextSequence, `free, `slotOf, `tidy, `cellStoreFullRejects, `ruleDictionaryFullRejects
      modifies `nodeDictionaryFullRejects
      modifies index, index.slotIndexes, index.hashes
      modifies ruleDictionary, ruleDictionary.index, ruleDictionary.index.slotIndexes, ruleDictionary.index.hashes
      modifies nodeDictionary, nodeDictionary.index, nodeDictionary.index.slotIndexes, nodeDictionary.index.hashes
      modifies localDirty, localDirty.entries, forwardedDirty, forwardedDirty.entries
      ensures Valid() && PinnedRules() == old(PinnedRules()) && LocalRules() == old(LocalRules()) && |taken| == |us|
      ensures Cells() == Absorb(old(Cells()), us, taken, countMax)
      ensures Touched() == AbsorbTimes(old(Cells()), old(Touched()), us, stamps, taken, countMax)
      ensures Changes(rows) == AbsorbRows(old(Cells()), us, taken, countMax, old(LocalRules()))
      ensures taken == Accepted(old(RoomNow()), us) && RoomNow() == TakingAll(old(RoomNow()), us)
      ensures OnlyBirths(old(slotOf), old(steps), slotOf, steps)
    {
      hide Valid, Upserted, Change, Emits, Known, Enforced, PinnedKnown, Absorb, AbsorbRows, AbsorbTimes, Touched;
      hide Lifetimes, OnlyBirths, RoomNow, Accepted, TakingAll, Taking, HasRoom;
      rows, taken := [], [];
      Plain();
      SameLives(slotOf, steps);
      AbsorbNothing(Cells(), countMax, LocalRules());
      AcceptedNone(RoomNow());
      assert us[..0] == [] && stamps[..0] == [];
      for i := 0 to |us|
        invariant Valid() && PinnedRules() == old(PinnedRules()) && LocalRules() == old(LocalRules()) && |taken| == i
        invariant Cells() == Absorb(old(Cells()), us[..i], taken, countMax)
        invariant Touched() == AbsorbTimes(old(Cells()), old(Touched()), us[..i], stamps[..i], taken, countMax)
        invariant Changes(rows) == AbsorbRows(old(Cells()), us[..i], taken, countMax, old(LocalRules()))
        invariant taken == Accepted(old(RoomNow()), us[..i]) && RoomNow() == TakingAll(old(RoomNow()), us[..i])
        invariant OnlyBirths(old(slotOf), old(steps), slotOf, steps)
      {
        ghost var held, lives := slotOf, steps;
        var row, took := AbsorbRow(us[i], stamps[i]);
        BirthsThrough(old(slotOf), old(steps), held, lives, slotOf, steps);
        AcceptedMore(old(RoomNow()), us, i);
        AbsorbStep(old(Cells()), us, taken, i, took, countMax, old(LocalRules()));
        AbsorbTimesStep(old(Cells()), old(Touched()), us, stamps, taken, i, took, countMax);
        if row.Some? {
          rows := rows + [row.value];
        }
        taken := taken + [took];
      }
      assert us[..|us|] == us && stamps[..|us|] == stamps;
    }

    /** `ingest_local`: hits added to the local node's own cells. */
    method IngestLocal(obs: seq<Observation>) returns (rows: seq<CellDelta>, ghost taken: seq<bool>)
      requires Valid()
      modifies `keys, `counts, `lastUpdateMillis, `originSequences, `generations, `steps, `freeNext, `freeHead
      modifies `activeLen
      modifies `nextSequence, `free, `slotOf, `tidy, `cellStoreFullRejects, `ruleDictionaryFullRejects
      modifies `nodeDictionaryFullRejects
      modifies index, index.slotIndexes, index.hashes
      modifies ruleDictionary, ruleDictionary.index, ruleDictionary.index.slotIndexes, ruleDictionary.index.hashes
      modifies nodeDictionary, nodeDictionary.index, nodeDictionary.index.slotIndexes, nodeDictionary.index.hashes
      modifies localDirty, localDirty.entries, forwardedDirty, forwardedDirty.entries
      ensures Valid() && PinnedRules() == old(PinnedRules()) && LocalRules() == old(LocalRules()) && |taken| == |obs|
      ensures Cells() == Absorb(old(Cells()), LocalUpdates(obs, self.nodeId, self.incarnation), taken, countMax)
      ensures Touched() == AbsorbTimes(old(Cells()), old(Touched()), LocalUpdates(obs, self.nodeId, self.incarnation),
                                       Stamps(obs), taken, countMax)
      ensures Changes(rows) == AbsorbRows(old(Cells()), LocalUpdates(obs, self.nodeId, self.incarnation), taken,
                                          countMax, old(LocalRules()))
      ensures taken == Accepted(old(RoomNow()), LocalUpdates(obs, self.nodeId, self.incarnation))
      ensures RoomNow() == TakingAll(old(RoomNow()), LocalUpdates(obs, self.nodeId, self.incarnation))
      ensures OnlyBirths(old(slotOf), old(steps), slotOf, steps)
    {
      hide Valid, Lifetimes, OnlyBirths;
      rows, taken := AbsorbBatch(LocalUpdates(obs, self.nodeId, self.incarnation), Stamps(obs));
    }

    /** `merge_remote`: absolute counts max-merged into the cells of the origins they name. */
    method MergeRemote(obs: seq<Observation>) returns (rows: seq<CellDelta>, ghost taken: seq<bool>)
      requires Valid() && forall i :: 0 <= i < |obs| ==> obs[i].count <= countMax
      modifies `keys, `counts, `lastUpdateMillis, `originSequences, `generations, `steps, `freeNext, `freeHead
      modifies `activeLen
      modifies `nextSequence, `free, `slotOf, `tidy, `cellStoreFullRejects, `ruleDictionaryFullRejects
      modifies `nodeDictionaryFullRejects
      modifies index, index.slotIndexes, index.hashes
      modifies ruleDictionary, ruleDictionary.index, ruleDictionary.index.slotIndexes, ruleDictionary.index.hashes
      modifies nodeDictionary, nodeDictionary.index, nodeDictionary.index.slotIndexes, nodeDictionary.index.hashes
      modifies localDirty, localDirty.entries, forwardedDirty, forwardedDirty.entries
      ensures Valid() && PinnedRules() == old(PinnedRules()) && LocalRules() == old(LocalRules()) && |taken| == |obs|
      ensures Cells() == Absorb(old(Cells()), RemoteUpdates(obs), taken, countMax)
      ensures Touched() == AbsorbTimes(old(Cells()), old(Touched()), RemoteUpdates(obs), Stamps(obs), taken, countMax)
      ensures Changes(rows) == AbsorbRows(old(Cells()), RemoteUpdates(obs), taken, countMax, old(LocalRules()))
      ensures taken == Accepted(old(RoomNow()), RemoteUpdates(obs))
      ensures RoomNow() == TakingAll(old(RoomNow()), RemoteUpdates(obs))
      ensures OnlyBirths(old(slotOf), old(steps), slotOf, steps)
    {
      hide Valid, Lifetimes, OnlyBirths;
      rows, taken := AbsorbBatch(RemoteUpdates(obs), Stamps(obs));
    }

    /** The rule of a live cell is known. */
    lemma RuleKnown(slot: nat)
      requires Valid() && Live(View(), slot)
      ensures slot < |keys| && KeyResolves(View(), keys[slot])
      ensures
        var fp := Portable(View(), keys[slot]).fingerprint;
        fp in KnownRules() && KnownRules()[fp] == ruleDictionary.descriptors[keys[slot].rule]
    {
      hide CellIndex.Valid, Dictionary.Valid, LanesOk, OriginsIsolated, IsFreeList, Partitioned, Named, RefsCoherent;
      UserKeepsSlots(View(), hashKey, slot);
    }

    /** What a sweep can change. */
    ghost function Snapshot(): Snap
      requires Valid()
      reads Repr()
    {
      FrontiersAre();
      Snap(slotOf, KnownRules(), PinnedRules(), generations, steps, OriginState())
    }

    lemma SnapshotSlots(c: Input)
      requires Valid() && c.keys == keys && c.counts == counts && c.times == lastUpdateMillis
      ensures OwnSlots(Snapshot(), c) && |steps| == |generations| == capacity
    {
      hide Valid;
      EveryCellLives();
      Plain();
    }

    /** `emit_expiration` followed by `free_cell_at`. */
    method EvictCell(slot: nat) returns (row: CellExpiration, ghost id: CellId)
      requires Valid() && Live(View(), slot)
      modifies `freeHead, `freeNext, `generations, `steps, `activeLen, `free, `tidy, `nextSequence, `slotOf
      modifies index, index.slotIndexes, index.hashes
      modifies ruleDictionary, ruleDictionary.index, ruleDictionary.index.slotIndexes, ruleDictionary.index.hashes
      modifies nodeDictionary, nodeDictionary.index, nodeDictionary.index.slotIndexes, nodeDictionary.index.hashes
      modifies peerFrontiers.lastAcked, peerFrontiers.lastSent
      ensures Valid()
      ensures Evicted(old(Snapshot()), Snapshot(), slot, id)
      ensures RowTells(row, id, slot, counts, lastUpdateMillis, old(Snapshot()))
    {
      hide Valid, Coherent, Released, PinnedKnown, Known, Narrowed, OriginState, OriginsKept;
      NamedSlot(slot);
      RuleKnown(slot);
      Plain();
      ghost var v := View();
      EvictFacts(slot);
      id := Portable(v, keys[slot]);
      var d := ruleDictionary.descriptors[keys[slot].rule];
      row := CellExpiration(CellHandle(slot, generations[slot]),
                            CellIdentity(d.fingerprint, keys[slot].keyHash, keys[slot].bucket),
                            counts[slot], lastUpdateMillis[slot], d.AppliesLocally());
      FreeCellAt(slot);
    }

    lemma EvictFacts(slot: nat)
      requires Valid() && Live(View(), slot)
      ensures Coherent(View(), hashKey) && KeyResolves(View(), View().keys[slot])
      ensures
        var v, w := View(), Gone(View(), slot);
        && w.slotOf == v.slotOf - {Portable(v, v.keys[slot])} && w.keys == v.keys && w.rulePins == v.rulePins
        && (forall i: nat :: Live(w, i) <==> i != slot && Live(v, i)) && slot < |w.generations|
        && slot < |v.generations| && w.generations == v.generations[slot := Bump(v.generations[slot])]
        && Narrowed(Known(w.ruleSlotOf, w.rules), Known(v.ruleSlotOf, v.rules))
        && PinnedKnown(w.ruleSlotOf, w.rules, w.rulePins) == PinnedKnown(v.ruleSlotOf, v.rules, v.rulePins)
    {
      hide CellIndex.Valid, Dictionary.Valid, LanesOk, OriginsIsolated, IsFreeList, Partitioned, Named, RefsCoherent,
        NamesCoherent, PinnedKnown, Known;
      UserKeepsSlots(View(), hashKey, slot);
      BumpFlips(generations[slot]);
      ruleDictionary.SlotNames(0);
      ReleasedRules(View(), hashKey, slot, ruleDictionary.blank, nodeDictionary.blank);
    }

    lemma EveryCellLives()
      requires Valid()
      ensures forall id :: id in slotOf ==> slotOf[id] < capacity && Live(View(), slotOf[id])
      ensures forall a, b :: a in slotOf && b in slotOf && slotOf[a] == slotOf[b] ==> a == b
    {
      hide CellIndex.Valid, Dictionary.Valid, LanesOk, OriginsIsolated, IsFreeList, Partitioned, RefsCoherent,
        NamesCoherent;
    }

    /** `expire`: frees exactly the cells whose bucket has aged out of their rule's window and emits
        one row for each, with the count it had. */
    method Expire(epochs: seq<nat>, live: seq<nat>) returns (rows: seq<CellExpiration>, ghost ids: seq<CellId>)
      requires Valid()
      modifies `freeHead, `freeNext, `generations, `steps, `activeLen, `free, `tidy, `nextSequence, `slotOf
      modifies index, index.slotIndexes, index.hashes
      modifies ruleDictionary, ruleDictionary.index, ruleDictionary.index.slotIndexes, ruleDictionary.index.hashes
      modifies nodeDictionary, nodeDictionary.index, nodeDictionary.index.slotIndexes, nodeDictionary.index.hashes
      modifies peerFrontiers.lastAcked, peerFrontiers.lastSent
      ensures Valid() && PinnedRules() == old(PinnedRules())
      ensures Narrowed(KnownRules(), old(KnownRules()))
      ensures slotOf == map id | id in old(slotOf) && !Aged(keys, old(slotOf)[id], epochs, live) :: old(slotOf)[id]
      ensures Distinct(ids)
      ensures forall id :: id in ids <==> id in old(slotOf) && Aged(keys, old(slotOf)[id], epochs, live)
      ensures Lifetimes(old(slotOf), old(steps), slotOf, steps) && OriginsKept(old(OriginState()), OriginState())
      ensures TellAll(rows, ids, old(Cells()), old(LocalRules()))
      ensures TellOrigin(rows, ids, old(slotOf), old(generations), lastUpdateMillis)
    {
      hide Valid, SweptTo, OwnSlots, Evicted, RowTells, Aged, Lifetimes, OriginsKept, TellAll, TellOrigin, Narrowed;
      rows, ids := [], [];
      ghost var w := Snapshot();
      ghost var c := Input(keys, counts, lastUpdateMillis, epochs, live);
      SnapshotSlots(c);
      SweptToStart(w, c);
      for s := 0 to capacity
        invariant Valid() && SweptTo(w, Snapshot(), c, s, rows, ids)
      {
        Plain();
        ghost var mid := Snapshot();
        if Odd(generations[s]) && Aged(keys, s, epochs, live) {
          var row, id := EvictCell(s);
          SweptToEvict(w, mid, Snapshot(), c, s, rows, ids, row, id);
          rows := rows + [row];
          ids := ids + [id];
        } else {
          SweptToKeep(w, mid, c, s, rows, ids);
        }
      }
      SweptToEnd(w, Snapshot(), c, rows, ids);
    }

    /** Per rule slot, the current epoch and the window length; zeros where no descriptor is live. */
    method EpochColumns(now: nat) returns (epochs: seq<nat>, live: seq<nat>)
      requires Valid()
      ensures Valid()
      ensures |ruleDictionary.descriptors| == |ruleDictionary.refcounts| == ruleDictionary.capacity
      ensures |epochs| == |live| == ruleDictionary.capacity
      ensures forall r: nat :: r < ruleDictionary.capacity ==>
                if ruleDictionary.refcounts[r] > 0
                then && epochs[r] == ruleDictionary.descriptors[r].CurrentEpoch(now)
                     && live[r] == ruleDictionary.descriptors[r].LiveBuckets()
                else epochs[r] == 0 && live[r] == 0
    {
      hide Valid;
      RuleColumns();
      epochs, live := [], [];
      for r := 0 to ruleDictionary.capacity
        invariant Valid() && |epochs| == |live| == r
        invariant forall q: nat :: q < r ==>
                    if ruleDictionary.refcounts[q] > 0
                    then && epochs[q] == ruleDictionary.descriptors[q].CurrentEpoch(now)
                         && live[q] == ruleDictionary.descriptors[q].LiveBuckets()
                    else epochs[q] == 0 && live[q] == 0
      {
        var d := ruleDictionary.descriptors[r];
        var known := ruleDictionary.refcounts[r] > 0;
        epochs := epochs + [if known then d.CurrentEpoch(now) else 0];
        live := live + [if known then d.LiveBuckets() else 0];
      }
    }

    /** A cell's slot has aged by the columns exactly when its identity has expired by its rule. */
    lemma AgedIsExpired(now: nat, epochs: seq<nat>, live: seq<nat>, id: CellId)
      requires Valid() && id in slotOf
      requires |ruleDictionary.descriptors| == |ruleDictionary.refcounts| == ruleDictionary.capacity
      requires |epochs| == |live| == ruleDictionary.capacity
      requires forall r: nat :: r < ruleDictionary.capacity && ruleDictionary.refcounts[r] > 0 ==>
                 && epochs[r] == ruleDictionary.descriptors[r].CurrentEpoch(now)
                 && live[r] == ruleDictionary.descriptors[r].LiveBuckets()
      ensures Aged(keys, slotOf[id], epochs, live) <==> Expired(KnownRules(), id, now)
    {
      hide Valid, Known;
      EveryCellLives();
      var slot := slotOf[id];
      NamedSlot(slot);
      RuleKnown(slot);
      LiveFacts(slot);
    }

    lemma RuleColumns()
      requires Valid()
      ensures |ruleDictionary.descriptors| == |ruleDictionary.refcounts| == ruleDictionary.capacity
    {
      hide CellIndex.Valid, LanesOk, OriginsIsolated, IsFreeList, Coherent, Tied;
    }

    /** `expire_at`: the cells that survive are exactly those still inside their rule's window at
        `now`; every other cell leaves one row. Pinned rules stay. */
    method ExpireAt(now: nat) returns (rows: seq<CellExpiration>, ghost ids: seq<CellId>)
      requires Valid()
      modifies `freeHead, `freeNext, `generations, `steps, `activeLen, `free, `tidy, `nextSequence, `slotOf
      modifies index, index.slotIndexes, index.hashes
      modifies ruleDictionary, ruleDictionary.index, ruleDictionary.index.slotIndexes, ruleDictionary.index.hashes
      modifies nodeDictionary, nodeDictionary.index, nodeDictionary.index.slotIndexes, nodeDictionary.index.hashes
      modifies peerFrontiers.lastAcked, peerFrontiers.lastSent
      ensures Valid() && PinnedRules() == old(PinnedRules())
      ensures Narrowed(KnownRules(), old(KnownRules()))
      ensures Cells() == Survivors(old(Cells()), old(KnownRules()), now)
      ensures SweptByAge(old(Cells()), Cells(), old(KnownRules()), now)
      ensures Distinct(ids) && forall id :: id in ids <==> id in old(Cells()) && Expired(old(KnownRules()), id, now)
      ensures Lifetimes(old(slotOf), old(steps), slotOf, steps) && OriginsKept(old(OriginState()), OriginState())
      ensures TellAll(rows, ids, old(Cells()), old(LocalRules()))
      ensures TellOrigin(rows, ids, old(slotOf), old(generations), lastUpdateMillis)
    {
      hide Valid, Known, PinnedKnown, TellAll, TellOrigin, Expired, Narrowed, OriginState, OriginsKept, Lifetimes;
      hide SweptByAge;
      Plain();
      var epochs, live := EpochColumns(now);
      ghost var was := slotOf;
      forall id | id in was ensures Aged(keys, was[id], epochs, live) <==> Expired(KnownRules(), id, now) {
        AgedIsExpired(now, epochs, live, id);
      }
      hide Aged;
      SurvivorsByAge(Cells(), KnownRules(), now);
      rows, ids := Expire(epochs, live);
    }

    /** A frame under construction: the slots marked with this frame's epoch are those already in. */
    ghost predicate Marked(out: seq<CellHandle>)
      reads `selectionEpoch, `selectionMarks
    {
      forall i: nat :: i < |selectionMarks| ==> (selectionMarks[i] == selectionEpoch <==> i in Frames.Slots(out))
    }

    /** The watermarks that prune a frame for `peer`; none for the plain frame. */
    ghost function Acks(peer: Option<nat>): Option<seq<nat>>
      requires peer.Some? ==> peer.value < peerFrontiers.lastAcked.Length0
      reads peerFrontiers.lastAcked
    {
      if peer.None? then None else Some(AckRow(peerFrontiers.lastAcked, peer.value))
    }

    /** After the bump no slot is marked, also when the 32-bit epoch wraps. */
    method BumpSelectionEpoch()
      requires MarksOk() && |selectionMarks| == capacity
      modifies `selectionEpoch, `selectionMarks
      ensures MarksOk() && |selectionMarks| == capacity && Marked([])
    {
      if selectionEpoch == U32_MAX {
        selectionMarks := Zeros(capacity);
        selectionEpoch := 1;
      } else {
        selectionEpoch := selectionEpoch + 1;
      }
    }

    method MarkSelected(slot: nat) returns (added: bool)
      requires slot < |selectionMarks| && MarksOk()
      modifies `selectionMarks
      ensures MarksOk() && added == (old(selectionMarks[slot]) != selectionEpoch)
      ensures selectionMarks == old(selectionMarks)[slot := selectionEpoch]
    {
      added := selectionMarks[slot] != selectionEpoch;
      selectionMarks := selectionMarks[slot := selectionEpoch];
    }

    /** Puts a handle in unless its slot is already there. */
    method Select(handle: CellHandle, out: seq<CellHandle>) returns (more: seq<CellHandle>)
      requires handle.index < |selectionMarks| && MarksOk() && Marked(out)
      modifies `selectionMarks
      ensures |selectionMarks| == old(|selectionMarks|) && MarksOk() && Marked(more)
      ensures more == if handle.index in Frames.Slots(out) then out else out + [handle]
    {
      hide Frames.Slots;
      var added := MarkSelected(handle.index);
      more := out;
      if added {
        more := out + [handle];
        Frames.SlotsOfMore(out, handle);
      }
    }

    predicate PeerLacks(peer: Option<nat>, slot: nat)
      requires slot < |originSequences| && slot < |keys|
      requires peer.Some? ==>
                peer.value < peerFrontiers.lastAcked.Length0 && keys[slot].origin < peerFrontiers.lastAcked.Length1
      reads `originSequences, `keys, peerFrontiers.lastAcked
    {
      peer.None? || originSequences[slot] > peerFrontiers.lastAcked[peer.value, keys[slot].origin]
    }

    /** What composing a frame reads. */
    ghost predicate Readable(peer: Option<nat>)
      reads `generations, `keys, `originSequences, `nextSequence, `tidy, `selectionEpoch, `selectionMarks, peerFrontiers
    {
      && Lanes.Shaped(Columns()) && |generations| == |selectionMarks| == capacity && MarksOk()
      && (peer.Some? ==> peer.value < peerFrontiers.lastAcked.Length0)
      && (peer.Some? ==> peerFrontiers.lastAcked.Length1 == |nextSequence|)
    }

    lemma EligibleHere(e: DirtyEntry, peer: Option<nat>)
      requires Readable(peer) && Odd(e.handle.generation)
      ensures Lanes.EntryCurrent(generations, originSequences, e) ==>
                && e.handle.index < |originSequences| && e.handle.index < |keys| && e.handle.index < |selectionMarks|
                && keys[e.handle.index].origin < |nextSequence|
      ensures Frames.Eligible(Columns(), Acks(peer), e)
              == (Lanes.EntryCurrent(generations, originSequences, e) && PeerLacks(peer, e.handle.index))
    {
    }

    /** Takes an eligible entry's cell into the frame unless it is in already. */
    method Offer(entry: DirtyEntry, peer: Option<nat>, out: seq<CellHandle>) returns (more: seq<CellHandle>)
      requires Readable(peer) && Marked(out) && Odd(entry.handle.generation)
      modifies `selectionMarks
      ensures Readable(peer) && Marked(more)
      ensures more ==
                if Frames.Eligible(Columns(), Acks(peer), entry) && entry.handle.index !in Frames.Slots(out)
                then out + [entry.handle] else out
    {
      hide Frames.Slots, Frames.Eligible, Marked, MarksOk, Lanes.EntryCurrent;
      EligibleHere(entry, peer);
      more := out;
      if Lanes.EntryCurrent(generations, originSequences, entry) && PeerLacks(peer, entry.handle.index) {
        more := Select(entry.handle, out);
      }
    }

    /** One dirty lane. */
    method FillLane(ring: DirtyRing, peer: Option<nat>, max: nat,
                    before: seq<CellHandle>) returns (out: seq<CellHandle>)
      requires Readable(peer) && ring.Valid() && Frames.OddEntries(ring.Contents()) && Marked(before)
      modifies `selectionMarks
      ensures Readable(peer) && Marked(out)
      ensures out == Frames.Lane(Columns(), Acks(peer), ring.Contents(), before, max)
    {
      hide Frames.Slots, Frames.Lane, Frames.Eligible, Marked, MarksOk, Lanes.Shaped, DirtyRing.Valid,
        DirtyRing.Contents, Columns, Acks;
      out := before;
      ghost var contents, c, acks := ring.Contents(), Columns(), Acks(peer);
      assert contents[..0] == [];
      Frames.LaneOfNone(c, acks, before, max);
      for offset := 0 to ring.len
        invariant Readable(peer) && Marked(out) && ring.Valid() && ring.Contents() == contents
        invariant Columns() == c && Acks(peer) == acks
        invariant out == Frames.Lane(c, acks, contents[..offset], before, max)
      {
        if |out| >= max {
          Frames.LaneStops(c, acks, contents, offset, before, max);
          return;
        }
        Frames.LaneStep(c, acks, contents, offset, before, max);
        var entry := ring.EntryAt(offset);
        out := Offer(entry, peer, out);
      }
      assert contents[..ring.len] == contents;
    }

    /** The rotating slice of all live cells. */
    method FillRepair(max: nat, before: seq<CellHandle>) returns (out: seq<CellHandle>)
      requires |generations| == |selectionMarks| == capacity && MarksOk() && Marked(before) && repairCursor < capacity
      modifies `selectionMarks, `repairCursor
      ensures |selectionMarks| == capacity && MarksOk() && Marked(out) && repairCursor < capacity
      ensures out == Frames.Sweep(generations, old(repairCursor), capacity, before, max)
      ensures repairCursor == Frames.NextCursor(generations, before, old(repairCursor), max)
    {
      hide Frames.Slots, Frames.Sweep, Frames.Looked, Marked, MarksOk;
      out := before;
      var visited: nat, nextCursor: nat := 0, repairCursor;
      Frames.SweepStep(generations, repairCursor, 0, before, max);
      while visited < capacity && |out| < max
        invariant visited <= capacity && |selectionMarks| == capacity && MarksOk() && Marked(out)
        invariant repairCursor == old(repairCursor)
        invariant out == Frames.Sweep(generations, repairCursor, visited, before, max)
        invariant visited == Frames.Looked(generations, repairCursor, visited, before, max)
        invariant nextCursor == Frames.Rotate(repairCursor, visited, capacity)
      {
        Frames.SweepStep(generations, repairCursor, visited, before, max);
        var slot: nat := Frames.Rotate(repairCursor, visited, capacity);
        visited := visited + 1;
        nextCursor := Frames.Rotate(slot, 1, capacity);
        if Odd(generations[slot]) {
          out := Select(CellHandle(slot, generations[slot]), out);
        }
      }
      if visited < capacity {
        Frames.SweepStops(generations, repairCursor, visited, capacity, before, max);
      }
      repairCursor := nextCursor;
    }

    /** What the frame composer needs of a valid store. */
    ghost predicate Composable(peer: Option<nat>)
      reads `generations, `keys, `originSequences, `nextSequence, `tidy, `selectionEpoch, `selectionMarks, `repairCursor
      reads peerFrontiers, localDirty, localDirty.entries, forwardedDirty, forwardedDirty.entries
    {
      && Readable(peer) && repairCursor < capacity
      && Rings() && Frames.OddEntries(localDirty.Contents()) && Frames.OddEntries(forwardedDirty.Contents())
    }

    lemma FrameReady(peer: Option<nat>)
      requires Valid() && (peer.Some? ==> peer.value < peerFrontiers.peerCapacity)
      ensures Composable(peer)
    {
      hide Tables, Coherent, OriginsIsolated, MarksOk, IsFreeList, Lanes.SequencesOk, DirtyRing.Valid, Apart;
      assert forall k :: 0 <= k < |localDirty.pushed| ==> Lanes.EntryOk(Columns(), localDirty.pushed[k], true);
      assert forall k :: 0 <= k < |forwardedDirty.pushed| ==> Lanes.EntryOk(Columns(), forwardedDirty.pushed[k], false);
    }

    /** The two dirty lanes. */
    method FillDirty(max: nat, peer: Option<nat>) returns (out: seq<CellHandle>)
      requires Composable(peer) && Marked([])
      modifies `selectionMarks
      ensures Composable(peer) && Marked(out)
      ensures out == Frames.DirtyPart(Columns(), Acks(peer), localDirty.Contents(), forwardedDirty.Contents(), max)
    {
      hide Columns, Acks, DirtyRing.Valid, DirtyRing.Contents, Marked, MarksOk, Lanes.Shaped, Frames.Lane,
        Frames.OddEntries;
      out := FillLane(localDirty, peer, max, []);
      if |out| < max {
        out := FillLane(forwardedDirty, peer, max, out);
      } else {
        Frames.FullLane(Columns(), Acks(peer), forwardedDirty.Contents(), out, max);
      }
    }

    method ComposeFrame(max: nat, peer: Option<nat>) returns (out: seq<CellHandle>)
      requires Composable(peer)
      modifies `selectionEpoch, `selectionMarks, `repairCursor
      ensures Composable(peer)
      ensures out == Frames.Frame(Columns(), Acks(peer), localDirty.Contents(), forwardedDirty.Contents(),
                                  old(repairCursor), max)
      ensures repairCursor == Frames.NextCursor(
                generations, Frames.DirtyPart(Columns(), Acks(peer), localDirty.Contents(), forwardedDirty.Contents(),
                                              max),
                old(repairCursor), max)
    {
      hide Acks, DirtyRing.Valid, DirtyRing.Contents, Marked, MarksOk, Lanes.Shaped, Frames.Lane, Frames.OddEntries,
        Frames.Sweep, Frames.Looked, Frames.DirtyPart, Frames.NextCursor;
      if max == 0 {
        Frames.EmptyFrame(Columns(), Acks(peer), localDirty.Contents(), forwardedDirty.Contents());
        Frames.FullSweep(generations, repairCursor, [], max);
        return [];
      }
      BumpSelectionEpoch();
      out := FillDirty(max, peer);
      if |out| < max {
        out := FillRepair(max, out);
      } else {
        Frames.FullSweep(generations, repairCursor, out, max);
      }
    }

    /** What a frame for `peer` starts from: the generations and what the dirty lanes put in. */
    ghost function FrameInput(max: nat, peer: Option<nat>): Frames.RepairInput
      requires Composable(peer)
      reads `generations, `keys, `originSequences, `nextSequence, `tidy, `selectionEpoch, `selectionMarks, `repairCursor
      reads peerFrontiers, peerFrontiers.lastAcked
      reads localDirty, localDirty.entries, forwardedDirty, forwardedDirty.entries
    {
      var dirty := Frames.DirtyPart(Columns(), Acks(peer), localDirty.Contents(), forwardedDirty.Contents(), max);
      Frames.RepairInput(generations, dirty, max)
    }

    /** The peer has not acknowledged the cell's change: the entry is the cell's latest, and its sequence is above
        the peer's watermark for the cell's origin. Without a peer every latest entry is owed. */
    ghost predicate Owes(peer: Option<nat>, e: DirtyEntry)
      reads `generations, `keys, `originSequences, peerFrontiers.lastAcked
    {
      var i := e.handle.index;
      && i < |generations| && i < |keys| && i < |originSequences|
      && generations[i] == e.handle.generation && originSequences[i] == e.originSequence
      && (peer.Some? ==>
            && peer.value < peerFrontiers.lastAcked.Length0 && keys[i].origin < peerFrontiers.lastAcked.Length1
            && peerFrontiers.lastAcked[peer.value, keys[i].origin] < e.originSequence)
    }

    /** What is owed of a ring. */
    ghost function Owed(ring: DirtyRing, peer: Option<nat>): set<DirtyEntry>
      requires ring.Valid()
      reads `generations, `keys, `originSequences, peerFrontiers.lastAcked, ring, ring.entries
    {
      set e | e in ring.Contents() && Owes(peer, e)
    }

    lemma OwedAre(peer: Option<nat>)
      requires Composable(peer)
      ensures Owed(localDirty, peer) == Frames.EligibleOf(Columns(), Acks(peer), localDirty.Contents())
      ensures Owed(forwardedDirty, peer) == Frames.EligibleOf(Columns(), Acks(peer), forwardedDirty.Contents())
    {
      hide DirtyRing.Valid, DirtyRing.Contents, MarksOk, Frames.Eligible, Owes;
      forall e | e in localDirty.Contents() || e in forwardedDirty.Contents()
        ensures Owes(peer, e) <==> Frames.Eligible(Columns(), Acks(peer), e)
      {
        OwesIs(peer, e);
      }
    }

    lemma OwesIs(peer: Option<nat>, e: DirtyEntry)
      requires Readable(peer) && Odd(e.handle.generation)
      ensures Owes(peer, e) <==> Frames.Eligible(Columns(), Acks(peer), e)
    {
    }

    /** What composing for `peer` puts before the repair slice. */
    ghost predicate LedByDirty(out: seq<CellHandle>, peer: Option<nat>, d: nat)
      requires Rings()
      reads `generations, `keys, `originSequences, peerFrontiers.lastAcked
      reads localDirty, localDirty.entries, forwardedDirty, forwardedDirty.entries
    {
      exists n: nat :: Frames.LedBy(out, Owed(localDirty, peer), Owed(forwardedDirty, peer), n, d)
    }

    /** `fill_gossip_frame` (no peer) and `fill_gossip_frame_for_peer`: exactly `min(max, active cells)`
        distinct live cells, the three lanes in order, and the cursor moves past the slots the repair
        lane looked at. */
    method FillGossipFrame(max: nat, peer: Option<nat>) returns (out: seq<CellHandle>)
      requires Valid() && (peer.Some? ==> peer.value < peerFrontiers.peerCapacity)
      modifies `selectionEpoch, `selectionMarks, `repairCursor
      ensures Valid() && Cells() == old(Cells()) && Composable(peer)
      ensures Frames.Sound(generations, out, max) && |out| == Min(max, activeLen)
      ensures old(repairCursor) < |generations| && out == Frames.FrameOf(FrameInput(max, peer), old(repairCursor))
      ensures Frames.RepairStep(FrameInput(max, peer), old(repairCursor), repairCursor, capacity)
      ensures LedByDirty(out, peer, |FrameInput(max, peer).dirty|)
    {
      hide Tables, Coherent, OriginsIsolated, IsFreeList, LanesOk, Columns, Acks, DirtyRing.Valid, DirtyRing.Contents,
        View, Frames.OddEntries, Frames.Frame, Frames.DirtyPart, Frames.NextCursor, Configured, Apart, CellsOf,
        Frames.Sound, Frames.LiveSlots, Frames.LedBy, Owed, Frames.EligibleOf;
      FrameReady(peer);
      SizeIs();
      ghost var cursor := repairCursor;
      out := ComposeFrame(max, peer);
      ColumnsAre();
      Frames.FrameExact(Columns(), Acks(peer), localDirty.Contents(), forwardedDirty.Contents(), cursor, max);
      Frames.FrameIs(Columns(), Acks(peer), localDirty.Contents(), forwardedDirty.Contents(), cursor, max);
      Frames.FrameLed(Columns(), Acks(peer), localDirty.Contents(), forwardedDirty.Contents(), cursor, max);
      OwedAre(peer);
    }

    /** A cell just stamped, its ring having any room at all, is among the leading cells of a frame for every peer
        whose watermark is at most what its origin's counter was, as soon as the frame goes beyond them. */
    lemma FreshChangeLeads(slot: nat, counters: seq<nat>, peer: Option<nat>, out: seq<CellHandle>, d: nat)
      requires Valid() && Live(View(), slot) && Restamped(slot, counters) && QueuedLast(slot)
      requires counters[keys[slot].origin] < U64_MAX
      requires peer.Some? ==>
                 && peer.value < peerFrontiers.peerCapacity && keys[slot].origin < peerFrontiers.nodeCapacity
                 && peerFrontiers.lastAcked[peer.value, keys[slot].origin] <= counters[keys[slot].origin]
      requires (if keys[slot].origin == localNodeSlot then localDirty else forwardedDirty).entries.Length > 0
      requires LedByDirty(out, peer, d) && d < |out|
      ensures slot in Frames.Slots(out[..d])
    {
      hide Tables, Coherent, OriginsIsolated, IsFreeList, LanesOk, MarksOk, Lives, Apart;
      var e := EntryFor(slot);
      var n: nat :| Frames.LedBy(out, Owed(localDirty, peer), Owed(forwardedDirty, peer), n, d);
      assert Owes(peer, e);
      if keys[slot].origin == localNodeSlot {
        LastIsKept(localDirty);
        assert e in Owed(localDirty, peer);
        Frames.SlotsGrow(out[..n], out[..d]);
      } else {
        LastIsKept(forwardedDirty);
        assert e in Owed(forwardedDirty, peer);
      }
    }

    lemma LastIsKept(ring: DirtyRing)
      requires ring.Valid() && ring.pushed != [] && ring.entries.Length > 0
      ensures ring.pushed[|ring.pushed| - 1] in ring.Contents()
    {
      assert ring.Contents()[ring.len - 1] == ring.pushed[|ring.pushed| - 1];
    }

    lemma ColumnsAre()
      ensures Columns().generations == generations
    {
    }

    /** The handle carries the generation of a slot that is live now. */
    ghost predicate Resolves(handle: CellHandle)
      reads `generations
    {
      handle.index < |generations| && generations[handle.index] == handle.generation && Odd(handle.generation)
    }

    /** A handle resolves exactly to the live cell whose generation it carries. */
    method Resolve(handle: CellHandle) returns (r: Option<nat>)
      requires Valid()
      ensures r == (if Resolves(handle) then Some(handle.index) else None) && (r.Some? ==> Live(View(), r.value))
    {
      hide CellIndex.Valid, Dictionary.Valid, LanesOk, OriginsIsolated, IsFreeList, Named, RefsCoherent, NamesCoherent;
      if handle.index >= capacity || generations[handle.index] != handle.generation || handle.generation % 2 != 1 {
        return None;
      }
      return Some(handle.index);
    }

    lemma LivesAre()
      requires Valid()
      ensures Stepped(generations, steps)
    {
      hide Stepped, Coherent, Tables, Rings, LanesOk, OriginsIsolated, IsFreeList, Shapes;
    }

    /** A handle issued at the slot's `issued`-th step resolves now exactly when the steps since then are a
        multiple of 2^32. */
    lemma HandleResolvesIff(handle: CellHandle, issued: nat)
      requires Valid() && handle.index < |steps| && issued <= steps[handle.index]
      requires handle.generation == After(0, issued) && Odd(handle.generation)
      ensures Resolves(handle) <==> (steps[handle.index] - issued) % 0x1_0000_0000 == 0
    {
      hide Valid;
      LivesAre();
      var since := steps[handle.index] - issued;
      AfterAfter(issued, since);
      LiveByParity(issued);
      ComesBack(After(0, issued), since);
    }

    /** The handle of a cell `id` of an earlier state, fewer than 2^32 steps of its slot ago: it resolves
        exactly when the slot has taken no step since, and then to the slot that still holds `id`. */
    lemma HandleNamesItsCell(was: map<CellId, nat>, before: seq<nat>, id: CellId, handle: CellHandle)
      requires Valid() && OneLife(was, before, slotOf, steps) && id in was
      requires handle == CellHandle(was[id], After(0, before[was[id]])) && Odd(handle.generation)
      requires steps[was[id]] < before[was[id]] + 0x1_0000_0000
      ensures Resolves(handle) <==> steps[was[id]] == before[was[id]]
      ensures Resolves(handle) ==> id in slotOf && slotOf[id] == handle.index
    {
      hide Valid;
      HandleResolvesIff(handle, before[was[id]]);
    }

    /** Drops the dirty records; the cells stay. */
    method ClearDirty()
      requires Valid()
      modifies localDirty, forwardedDirty, `complete
      ensures Valid() && Cells() == old(Cells()) && localDirty.Contents() == [] && forwardedDirty.Contents() == []
    {
      hide Tables, Coherent, OriginsIsolated, IsFreeList, MarksOk, View, Configured, CellsOf, Columns,
        Lanes.LaneOk, Lanes.Shaped, Lanes.SequencesOk, Shapes, Apart, DirtyRing.Valid, PeerFrontierTable.Valid,
        PeerFrontierTable.VacantBlank;
      Lanes.ClearedLane(Columns(), localDirty.pushed, true, complete);
      Lanes.ClearedLane(Columns(), forwardedDirty.pushed, false, complete);
      localDirty.Clear();
      forwardedDirty.Clear();
      complete := false;
    }

    lemma InternedIsBound(node: NodeDescriptor)
      requires Valid() && node in nodeDictionary.slotOf
      ensures nodeDictionary.slotOf[node] < nodeDictionary.capacity
      ensures nodeDictionary.slotOf[node] !in nodeDictionary.free
      ensures peerFrontiers.nodeCapacity == nodeDictionary.capacity
    {
      hide CellIndex.Valid, Coherent, LanesOk, OriginsIsolated, IsFreeList, MarksOk, Rings, Shapes, Represents, Ordered;
    }

    /** What `OriginsKept` says of one watermark: for an origin still interned it is what it was. */
    lemma MarkStays(was: Origins, node: NodeDescriptor, peer: nat)
      requires Valid() && OriginsKept(was, OriginState())
      requires node in nodeDictionary.slotOf && peer < peerFrontiers.peerCapacity
      ensures
        var n := nodeDictionary.slotOf[node];
        && n < peerFrontiers.nodeCapacity && peer < |was.marks| && n < |was.marks[peer]| && n !in was.free
        && was.marks[peer][n] == (peerFrontiers.lastAcked[peer, n], peerFrontiers.lastSent[peer, n])
    {
      hide Tables, Coherent, LanesOk, IsFreeList, MarksOk, Rings, View, Apart, Lives, OriginsIsolated;
      InternedIsBound(node);
      assert RowKept(was.marks[peer], OriginState().marks[peer], nodeDictionary.free);
    }

    /** Raises one watermark of an interned origin; a free node slot's column stays blank. */
    method RecordAck(peer: nat, node: NodeDescriptor, sequence: nat)
      requires Valid() && peer < peerFrontiers.peerCapacity && peerFrontiers.peerIds[peer].Some?
      modifies peerFrontiers.lastAcked
      ensures Valid() && Cells() == old(Cells())
      ensures forall p: nat, n: nat :: p < peerFrontiers.peerCapacity && n < peerFrontiers.nodeCapacity ==>
                peerFrontiers.lastAcked[p, n] ==
                  if p == peer && node in nodeDictionary.slotOf && n == nodeDictionary.slotOf[node]
                  then Max(old(peerFrontiers.lastAcked[p, n]), sequence) else old(peerFrontiers.lastAcked[p, n])
    {
      hide Tables, Coherent, LanesOk, IsFreeList, MarksOk, Rings, View, CellsOf, Apart, PeerFrontierTable.VacantBlank;
      var slot := FindNode(node);
      if slot.Some? {
        InternedIsBound(node);
        peerFrontiers.RecordAcked(peer, slot.value, sequence);
      }
    }

    /** The frontier update of `handle_inbound`: the sender's watermarks rise to what the packet's rows say,
        for the origins known here. Without a slot for the sender nothing changes. */
    method RecordAcks(sender: nat, acks: seq<Ack>) returns (r: Option<nat>)
      requires Valid()
      modifies peerFrontiers`fullRejects, peerFrontiers.peerIds, peerFrontiers.lastAcked
      ensures Valid() && Cells() == old(Cells())
      ensures r.None? <==> forall i :: 0 <= i < peerFrontiers.peerCapacity ==>
                                         old(peerFrontiers.peerIds[i]) !in {None, Some(sender)}
      ensures forall p: nat, n: nat :: p < peerFrontiers.peerCapacity && n < peerFrontiers.nodeCapacity ==>
                peerFrontiers.lastAcked[p, n] ==
                  if r == Some(p) then Raised(old(peerFrontiers.lastAcked[p, n]), acks, nodeDictionary.slotOf, n)
                  else old(peerFrontiers.lastAcked[p, n])
    {
      hide Valid;
      FrontiersAre();
      r := InternPeer(sender);
      if r.None? {
        return;
      }
      var peer := r.value;
      FrontiersAre();
      assert acks[..0] == [];
      for i := 0 to |acks|
        invariant Valid() && Cells() == old(Cells()) && peer < peerFrontiers.peerCapacity
        invariant peerFrontiers.Valid() && peerFrontiers.peerIds[peer].Some?
        invariant forall p: nat, n: nat :: p < peerFrontiers.peerCapacity && n < peerFrontiers.nodeCapacity ==>
                    peerFrontiers.lastAcked[p, n] ==
                      if p == peer then Raised(old(peerFrontiers.lastAcked[p, n]), acks[..i], nodeDictionary.slotOf, n)
                      else old(peerFrontiers.lastAcked[p, n])
      {
        RecordAck(peer, acks[i].node, acks[i].sequence);
        FrontiersAre();
        RaisedMore(acks, i, nodeDictionary.slotOf);
      }
      assert acks[..|acks|] == acks;
    }

    /** `intern_peer` on the store's table: no cell, no watermark and no other peer changes. A peer that was
        not there takes the first vacant slot, and inherits no watermark from an earlier peer. */
    method InternPeer(peer: nat) returns (r: Option<nat>)
      requires Valid()
      modifies peerFrontiers`fullRejects, peerFrontiers.peerIds
      ensures Valid() && Cells() == old(Cells())
      ensures r.None? <==> forall i :: 0 <= i < peerFrontiers.peerCapacity ==>
                                         old(peerFrontiers.peerIds[i]) !in {None, Some(peer)}
      ensures r.Some? ==>
                && r.value < peerFrontiers.peerCapacity
                && peerFrontiers.peerIds[..] == old(peerFrontiers.peerIds[..])[r.value := Some(peer)]
      ensures r.Some? && old(peerFrontiers.peerIds[r.value]).None? ==>
                forall n: nat :: n < peerFrontiers.nodeCapacity ==> peerFrontiers.lastAcked[r.value, n] == 0
    {
      hide Tables, Coherent, LanesOk, IsFreeList, MarksOk, Rings, View, CellsOf, Apart, Shapes, Lives;
      r := peerFrontiers.InternPeer(peer);
    }

    /** `remove_peer`: the peer's slot and watermarks are wiped, every other peer keeps its own. */
    method RemovePeer(peer: nat)
      requires Valid()
      modifies peerFrontiers.peerIds, peerFrontiers.lastAcked, peerFrontiers.lastSent
      ensures Valid() && Cells() == old(Cells())
      ensures forall i :: 0 <= i < peerFrontiers.peerCapacity ==>
                peerFrontiers.peerIds[i] ==
                  if old(peerFrontiers.peerIds[i]) == Some(peer) then None else old(peerFrontiers.peerIds[i])
      ensures forall i, n :: 0 <= i < peerFrontiers.peerCapacity && 0 <= n < peerFrontiers.nodeCapacity ==>
                && peerFrontiers.lastAcked[i, n] ==
                     (if old(peerFrontiers.peerIds[i]) == Some(peer) then 0 else old(peerFrontiers.lastAcked[i, n]))
                && peerFrontiers.lastSent[i, n] ==
                     (if old(peerFrontiers.peerIds[i]) == Some(peer) then 0 else old(peerFrontiers.lastSent[i, n]))
    {
      hide Tables, Coherent, LanesOk, IsFreeList, MarksOk, Rings, View, CellsOf, Apart, Shapes, Lives;
      peerFrontiers.RemovePeer(peer);
    }

    /** Until a generation wraps or a sequence counter saturates: a cell has at most one current entry in
        the ring of its origin class and none in the other, and exactly one while that ring has neither
        overflowed nor been cleared. */
    lemma RingsTell()
      requires Valid() && tidy
      ensures Lanes.RingTells(Columns(), localDirty.Contents(), true, complete && localDirty.overflowSeq == 0)
      ensures Lanes.RingTells(Columns(), forwardedDirty.Contents(), false, complete && forwardedDirty.overflowSeq == 0)
    {
      hide Tables, Coherent, OriginsIsolated, IsFreeList, MarksOk, Configured, Lanes.LaneOk, Lanes.SequencesOk,
        Lanes.RingTells, Apart, Shapes;
      Lanes.LaneReads(Columns(), localDirty.pushed, true, complete, localDirty.Contents(),
                      |localDirty.pushed| - localDirty.len);
      Lanes.LaneReads(Columns(), forwardedDirty.pushed, false, complete, forwardedDirty.Contents(),
                      |forwardedDirty.pushed| - forwardedDirty.len);
    }

    /** A node slot nobody is interned under: whoever takes it next starts its sequence at one and is
        pruned for no peer. */
    lemma FreshOrigin(node: nat, peer: nat)
      requires Valid() && node in nodeDictionary.free && node < nodeDictionary.capacity
      requires peer < peerFrontiers.peerCapacity
      ensures |nextSequence| == nodeDictionary.capacity && nextSequence[node] == 0
      ensures peerFrontiers.lastAcked.Length0 == peerFrontiers.peerCapacity
      ensures
        var acks := Acks(Some(peer));
        forall c: Lanes.Columns, i: nat ::
          i < |c.keys| == |c.sequences| && c.keys[i].origin == node && c.sequences[i] >= 1 ==> Frames.Lacks(c, acks, i)
    {
      hide Tables, Coherent, LanesOk, IsFreeList, MarksOk, Rings, Apart;
      assert peerFrontiers.Blank(node);
    }
  }

  /** `CellStore::new`: every part is allocated here and nothing is allocated afterwards. */
  method NewStore(config: Config, self: NodeDescriptor, countMax: nat, hashKey: CompactKey -> nat,
                  hashFingerprint: nat -> nat, hashNode: NodeDescriptor -> nat) returns (s: CellStore)
    requires 0 < config.cellCapacity <= 0x4000_0000
    requires 0 < config.ruleCapacity < U16_MAX && 0 < config.nodeCapacity < U16_MAX
    ensures s.Valid() && fresh(s)
    ensures fresh(s.index.Repr()) && fresh(s.ruleDictionary.Repr()) && fresh(s.nodeDictionary.Repr())
    ensures fresh(s.localDirty.Repr()) && fresh(s.forwardedDirty.Repr()) && fresh(s.peerFrontiers.Repr())
    ensures s.Cells() == map[] && s.KnownRules() == map[] && s.rulePins == {} && s.tidy && s.complete
    ensures s.capacity == config.cellCapacity && s.self == self && s.countMax == countMax
  {
    hide CellIndex.Valid, Dictionary.Valid, DirtyRing.Valid, PeerFrontierTable.Valid, PeerFrontierTable.VacantBlank,
      CellStore.Valid;
    var nodes, slot := PinnedNodes(config.nodeCapacity, self, hashNode);
    var rules := new Dictionary<RuleDescriptor, nat>(
      config.ruleCapacity, (d: RuleDescriptor) => d.fingerprint, hashFingerprint, WireOnly(0));
    var index := new CellIndex(IndexCapacityFor(config.cellCapacity));
    var localDirty := new DirtyRing(config.localDirtyCapacity);
    var forwardedDirty := new DirtyRing(config.forwardedDirtyCapacity);
    var frontiers := new PeerFrontierTable(config.peerCapacity, config.nodeCapacity);
    IndexCapacityIff(config.cellCapacity);
    s := new CellStore.FromParts(
      config.cellCapacity, countMax, hashKey, self, slot, index, rules, nodes, localDirty, forwardedDirty, frontiers);
    hide CellIndex.Repr, Dictionary.Repr, DirtyRing.Repr, PeerFrontierTable.Repr;
  }

  function Zeros(n: nat): (z: seq<nat>)
    ensures |z| == n && forall i: nat :: i < n ==> z[i] == 0
  {
    seq(n, _ => 0)
  }

  /** The node dictionary of a new store: the local identity interned and pinned. */
  method PinnedNodes(capacity: nat, self: NodeDescriptor, hash: NodeDescriptor -> nat) returns (nodes: Nodes, slot: nat)
    requires 0 < capacity < U16_MAX
    ensures nodes.Valid() && fresh(nodes.Repr()) && nodes.capacity == capacity && slot < capacity
    ensures forall d :: nodes.keyOf(d) == d
    ensures nodes.slotOf == map[self := slot] && nodes.descriptors[slot] == self
    ensures forall n: nat :: n < capacity ==> nodes.refcounts[n] == if n == slot then 1 else 0
  {
    hide CellIndex.Valid, Tied, IsFreeList;
    nodes := new Dictionary<NodeDescriptor, NodeDescriptor>(
      capacity, (d: NodeDescriptor) => d, hash, NodeDescriptor(0, 0));
    var interned := nodes.Intern(self);
    slot := interned.value;
    nodes.IncRef(slot);
  }

  /** What a received row acknowledges: the sender has the origin's hits up to this sequence. */
  datatype Ack = Ack(node: NodeDescriptor, sequence: nat)

  predicate Names(ack: Ack, slotOf: map<NodeDescriptor, nat>, n: nat) {
    ack.node in slotOf && slotOf[ack.node] == n
  }

  /** A watermark after the acknowledgements of a packet: the greatest sequence named for the slot, or the mark
      it had. */
  function Raised(mark: nat, acks: seq<Ack>, slotOf: map<NodeDescriptor, nat>, n: nat): (raised: nat)
    ensures raised >= mark && forall i :: 0 <= i < |acks| && Names(acks[i], slotOf, n) ==> acks[i].sequence <= raised
    ensures raised == mark || exists i :: 0 <= i < |acks| && Names(acks[i], slotOf, n) && acks[i].sequence == raised
  {
    if acks == [] then mark
    else
      var before, ack := Raised(mark, acks[..|acks| - 1], slotOf, n), acks[|acks| - 1];
      if Names(ack, slotOf, n) then Max(before, ack.sequence) else before
  }

  lemma RaisedMore(acks: seq<Ack>, i: nat, slotOf: map<NodeDescriptor, nat>)
    requires i < |acks|
    ensures forall mark: nat, n: nat :: Raised(mark, acks[..i + 1], slotOf, n)
              == if acks[i].node in slotOf && slotOf[acks[i].node] == n
                 then Max(Raised(mark, acks[..i], slotOf, n), acks[i].sequence) else Raised(mark, acks[..i], slotOf, n)
  {
    assert acks[..i + 1][..i] == acks[..i];
  }

  /** One peer's watermarks, origin by origin. */
  ghost function AckRow(acked: array2<nat>, peer: nat): (row: seq<nat>)
    requires peer < acked.Length0
    reads acked
    ensures |row| == acked.Length1 && forall n: nat :: n < |row| ==> row[n] == acked[peer, n]
  {
    seq(acked.Length1, n requires 0 <= n < acked.Length1 && peer < acked.Length0 reads acked => acked[peer, n])
  }
}
