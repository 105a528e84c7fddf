# gabion in Dafny

A model of gabion's rate-limit counters and the proofs of what the library, its server and its nginx
adapter rely on. gabion counts hits per (rule, key, bucket, origin node); nodes gossip absolute counts
and merge them by maximum; a derived aggregate sums over origins; requests are admitted against a
sliding window of that aggregate.

## How it is put together

- `RobinHood`, `FreeList`, `Dictionary`, `DirtyRings`, `PeerFrontier`: the parts of the cell store, each
  a class or a linked list proved against an abstract map, sequence or table.
- `StoreImage`, `DirtyLanes`, `Handles`, `Sweeping`: what the parts have to say about each other (slots,
  names, references, dirty entries, slot lives, origins), as predicates on values with one lemma per
  store operation.
- `Rooms`: which rows of a batch a bounded store takes.
- `CellStores`: the class `CellStore`. Its mutating operations are proved to do to the abstract map of
  `Counters` what the map operation does, through interning, slot reuse, refusals and expiry.
- `Frames`: what a gossip frame contains, and which cells a series of frames must have named.
- `Sums`, `Aggregates`, `Windows`, `Retention`: sums over origins, the aggregate kept from rows alone,
  the window arithmetic, and which reads expiry can change.
- `Clusters`, `Progress`, `Convergence`, `AntiEntropy`, `Rejections`: any number of nodes joining, leaving, taking
  hits, sending, receiving and sweeping; statements about every state of every run.
- `Registration`: from a configured rule to the descriptor the store sweeps by.
- `Admission`, `Server`, `Access`: the two adapters' decisions. `Verdicts` and `AccessVerdicts` say what the
  answers mean in descriptors, hits and times, without the functions the code is proved against.
- `Enforcement`, `Limits`, `AccessVerdicts`: which limits are kept over runs.
- `Runtimes`: each event handler of the gossip runtime is one step of the abstract node, which carries
  the statements about runs over to `CellStore` and `DashMapStore`.

## Conventions

- Hash functions are arbitrary functions. `& mask` is written as `% capacity`; the flat frontier index
  is a two-dimensional array. Widths are written out: generations and epochs on 32 bits, sequences and
  totals on 64 bits saturating, counts saturating at `countMax`.
- `CellStore.steps` (ghost) counts the allocations and releases of each slot, `CellStore.tidy` records that
  no generation has wrapped and no sequence counter has saturated, `CellStore.complete` that the rings
  were never cleared.
- Sinks and batches are sequences of rows. In `Clusters`, `sent` only grows: a lost packet is one never
  delivered, a repeated or late one is delivered again. `recorded` counts only hits that were stored.
- A rule heard of on the wire before it is configured holds no pin (`crates/gabion/src/crdt.rs:540-544`);
  `HandleTick` and `RegisterRule` cover that case too.
- A node descriptor (node id, incarnation) joins at most once. Cell capacity is at most 2^30.
- `Enforcement` runs assume what its predicates say: one clock that does not run backwards, epochs within
  32 bits, rules with distinct ids and fingerprints, request shapes whose key hashes do not collide, sweeps
  that know the rules with the window they are read with, requests decided one after the other, no refused
  record, no total beyond 64 bits. `NarrowTakesFit` and `LoneTakesFit` say when the last one always holds,
  `RegisteredIff` when sweeps know a rule's window.
- `Admission.Usable`: a rule's buckets are the fewest that span its window; `NewRuleIff` says when `Rule::new`
  makes such a rule.
  Hits count as admitted under every rule that matches, recorded or not.
- A request is a shape (domain and descriptors), hits and a time. The shape fixes which rules match and the
  key under each of them.

## Where code and documentation differ

The code is what is modelled.

- `crates/server/src/lib.rs:319-330` logs that a request matching too many rules was rejected; `evaluate` lets
  it through (216-225). `RecordedIffPlanned` says what is then recorded, `LimitKeptIff` which limits
  suffer.
- `crates/nginx/src/access.rs:378-393` calls the truth test case-insensitive; it knows three spellings of each
  word. The model takes the test's result as given.
- `crates/server/src/bin/gabiond.rs:302-303` and `crates/nginx/src/leader.rs:384-385` clip windows to 32 bits
  for the sweep only, while reads keep the whole window. `SweepsSafelyIff` says exactly which rules are swept
  too early for that, `SixtyDaysForget` names one.
- `crates/nginx/src/access.rs:349-352` pins `Retry-After` to the longest window. That protects against the wider
  rule only: `LongestWindowRetriesEarly` shows a shorter window that still rejects after the wait, and
  `AdvertisedWaitIff` says exactly when the wait is enough.

## Model

| member | source | states |
|---|---|---|
| `RobinHood.CellIndex.Find` | crates/gabion/src/crdt/index.rs:59-84 | With the early exit on probe distance, finds a slot exactly when some stored entry has the hash and satisfies the caller's test; works in a full table too |
| `RobinHood.CellIndex.InsertUnchecked` | crates/gabion/src/crdt/index.rs:88-115 | Adds exactly one entry to the set of stored entries, keeps the probe-distance order and the representation, and terminates because an empty bucket exists |
| `RobinHood.CellIndex.Locate` | crates/gabion/src/crdt/index.rs:118-140 | Finds the bucket that holds exactly this entry, or none exactly when the entry is not stored |
| `RobinHood.CellIndex.Remove` | crates/gabion/src/crdt/index.rs:118-145 | Removes exactly that entry, or nothing when it is absent |
| `RobinHood.CellIndex.Backshift` | crates/gabion/src/crdt/index.rs:147-167 | Closing the hole drops exactly one entry, keeps the order, and terminates even in a table without empty buckets |
| `RobinHood.ProbeReaches` | crates/gabion/src/crdt/index.rs:59-84 | In an ordered table the probe for an entry meets it before any bucket that would end the search |
| `RobinHood.NothingBeyond` | crates/gabion/src/crdt/index.rs:59-84 | Once the probe meets an entry nearer its home than the probe has travelled, no entry of that hash lies further on |
| `RobinHood.Steal` | crates/gabion/src/crdt/index.rs:88-115 | Displacing a richer entry keeps the order and loses nothing: the displaced entry is carried on |
| `RobinHood.ShiftKeepsOrder` | crates/gabion/src/crdt/index.rs:147-167 | Copying a successor back keeps the order and moves strictly closer to the bucket where shifting stops |
| `FreeList.FollowVisits` | crates/gabion/src/crdt.rs:727-748 | Following the intrusive links from the head visits the listed slots once each and then stops: the list is acyclic |
| `FreeList.Pop` | crates/gabion/src/crdt.rs:727-739 | Taking the head leaves the list of the remaining slots |
| `FreeList.Push` | crates/gabion/src/crdt.rs:741-748 | Linking a slot in front gives the list with that slot added |
| `Dictionary.Dictionary.Find` | crates/gabion/src/crdt/dictionary.rs:148-158 | Returns the slot a key is interned under, and none exactly when it is not interned |
| `Dictionary.Dictionary.Intern` | crates/gabion/src/crdt/dictionary.rs:160-178 | A known key keeps its slot and takes the new descriptor; a new key takes a free slot; refused exactly when new and no slot is free |
| `Dictionary.Dictionary.DecRef` | crates/gabion/src/crdt/dictionary.rs:184-199 | One reference fewer; the slot is freed, blanked and un-indexed exactly when that was the last one |
| `Dictionary.Dictionary.Release` | crates/gabion/src/crdt/dictionary.rs:309-327 | The freed slot goes to the front of the freelist and its key can no longer be found |
| `Dictionary.NextPowerOfTwoIsLeast` | crates/gabion/src/crdt/dictionary.rs:330-334 | The rounding gives the least power of two that is large enough |
| `Dictionary.IndexCapacityIff` | crates/gabion/src/crdt/dictionary.rs:330-334 | The index capacity is a power of two, as its mask needs, if and only if the store has at most 2^30 slots; the index is then at most half full |
| `DirtyRings.DirtyRing.Push` | crates/gabion/src/crdt/dirty_ring.rs:63-77 | After n pushes the ring reads back the last min(n, capacity), oldest first, and the overflow counter says how many were lost |
| `DirtyRings.DirtyRing.EntryAt` | crates/gabion/src/crdt/dirty_ring.rs:98-102 | Offset k reads the k-th oldest kept entry across the wrap-around |
| `DirtyRings.DirtyRing.OverflowTells` | crates/gabion/src/crdt/dirty_ring.rs:55-61 | The overflow counter is zero exactly while nothing pushed since the last clear is missing |
| `PeerFrontier.PeerFrontierTable.InternPeer` | crates/gabion/src/crdt/peer_frontier.rs:46-72 | The peer's slot, or else the first vacant one; refused exactly when the peer is new and no slot is vacant; other peers stay |
| `PeerFrontier.PeerFrontierTable.RemovePeer` | crates/gabion/src/crdt/peer_frontier.rs:74-84 | Clears that peer's watermarks and no other's, so a vacant slot is always blank |
| `PeerFrontier.PeerFrontierTable.RecordAcked` | crates/gabion/src/crdt/peer_frontier.rs:105-113 | One watermark rises to the maximum; every other one stays |
| `PeerFrontier.PeerFrontierTable.ClearNodeSlot` | crates/gabion/src/crdt/peer_frontier.rs:115-121 | Blanks one origin's column for all peers; every other watermark is what it was |
| `StoreImage.InsertedCoherent` | crates/gabion/src/crdt.rs:926-963 | Filling a free slot keeps index, freelist, names and both refcount equations (references = cells + pin) true together |
| `StoreImage.ReleasedCoherent` | crates/gabion/src/crdt.rs:750-769 | Freeing a cell keeps all of them true, whether or not its rule or node slot goes with it |
| `StoreImage.UserKeepsSlots` | crates/gabion/src/crdt/dictionary.rs:160-199 | A live cell's rule and node slots are interned under the names the cell stands for: a reused slot is never referenced by an old cell |
| `StoreImage.PortableInjective` | crates/gabion/src/crdt.rs:657-671 | Two interned keys that stand for the same portable cell are equal |
| `StoreImage.SoleUser` | crates/gabion/src/crdt.rs:762-767 | When a node slot is freed, no other live cell has that origin |
| `StoreImage.ReleasedRules` | crates/gabion/src/crdt.rs:545-560 | Freeing a cell never takes a pinned rule, its slot or its descriptor with it |
| `StoreImage.RuleWrittenPins` | crates/gabion/src/crdt.rs:545-560 | Writing a descriptor replaces a pinned rule's own descriptor and changes no other pinned rule |
| `CellStores.NewStore` | crates/gabion/src/crdt.rs:380-456 | A new store is valid and empty, with the local node interned and pinned and every peer slot and node slot blank |
| `CellStores.CellStore.LookupIndex` | crates/gabion/src/crdt.rs:657-671 | Finds a live cell exactly when one has this interned key |
| `CellStores.CellStore.Resolve` | crates/gabion/src/crdt.rs:677-688 | A handle resolves exactly to the live cell whose generation it carries |
| `CellStores.CellStore.HandleResolvesIff` | crates/gabion/src/crdt.rs:677-748 | For handles of the store: one issued at a slot's n-th allocation resolves now if and only if the slot has taken a multiple of 2^32 lifecycle steps since, reuse included |
| `CellStores.CellStore.HandleNamesItsCell` | crates/gabion/src/crdt.rs:677-748 | Over any calls in between, and fewer than 2^32 steps of the slot, a handle resolves if and only if its cell was never freed, and then to that very cell |
| `CellStores.CellStore.AllocSlot` | crates/gabion/src/crdt.rs:727-739 | Pops the freelist, flips the generation to odd and counts one lifecycle step of that slot; none exactly when the list is empty |
| `CellStores.CellStore.FreeCellAt` | crates/gabion/src/crdt.rs:750-769 | One cell less, its slot one lifecycle step on, everything else as before; a node slot freed with it leaves no sequence and no watermark behind, and every origin still interned keeps descriptor, sequence and all watermarks |
| `CellStores.CellStore.SizeIs` | crates/gabion/src/crdt.rs:464-466 | active_len is the number of abstract cells, which is the number of odd generations |
| `CellStores.CellStore.Upsert` | crates/gabion/src/crdt.rs:871-964 | On the abstract map: the raised count, the time and the handle of that cell, one delta row exactly when the count rose or the cell is new; such a cell has the next sequence of its origin and is the newest dirty entry of its lane; refused exactly when the cell is new and every slot is active |
| `CellStores.CellStore.InternRule` | crates/gabion/src/crdt.rs:545-560 | The rule is known with this descriptor; a first registration pins it to its slot, a repeated one replaces the descriptor in place; refused exactly when new and the dictionary is full |
| `CellStores.CellStore.TranslateIdentity` | crates/gabion/src/crdt.rs:969-1005 | Both slots of a row, interned if need be, whose key stands for exactly the row's identity; none exactly when a dictionary is full and does not know the rule or the origin; the free slots left |
| `CellStores.CellStore.AbsorbRow` | crates/gabion/src/crdt.rs:1011-1075 | One row is stored if and only if its rule, its origin and its cell are known or have a free slot; names interned for a row stay also when it is refused; no live cell loses its slot or its handle |
| `CellStores.CellStore.IngestLocal` | crates/gabion/src/crdt.rs:1011-1045 | The abstract map after the batch is the saturating additions of the stored rows applied in order to the local node's cells, with exactly the rows and times of that map; which rows are stored is exactly what the free slots at the start allow, row by row; no cell loses its slot or its handle |
| `CellStores.CellStore.MergeRemote` | crates/gabion/src/crdt.rs:1050-1075 | The abstract map after the batch is the max-merges of the stored rows applied in order, with exactly the rows and times of that map and exactly the refusals the free slots at the start call for; configured rules keep slot and descriptor; no cell loses its slot or its handle |
| `Rooms.RefusedStaysAll` | crates/gabion/src/crdt.rs:969-1005 | A row refused once is refused for the rest of the batch |
| `Rooms.AmpleTakesAll` | crates/gabion/src/crdt.rs:969-1005 | With a free slot of each kind for every row nothing is refused |
| `Counters.RowTellsChange` | crates/gabion/src/crdt.rs:816-843 | There is a row exactly when the map changes; it tells the count before, the count after and their difference, and no other cell changes |
| `Counters.TimeOfLastChange` | crates/gabion/src/crdt.rs:892-923 | The time of a cell after a batch is that of the last row of the batch that changed it |
| `Counters.UnchangedKeepsTime` | crates/gabion/src/crdt.rs:892-923 | A batch without such a row leaves the time as it was |
| `CellStores.CellStore.Expire` | crates/gabion/src/crdt.rs:1083-1106 | Exactly the aged cells go, one row each with the handle, last count and last time the cell had; surviving cells keep slot and generation, freed slots have moved on, and every origin still interned keeps descriptor, sequence and watermarks |
| `CellStores.CellStore.EvictCell` | crates/gabion/src/crdt.rs:848-867 | The row tells what the cell was; the slot takes one step; pinned rules and every origin still interned stay as they were |
| `Sweeping.SweptToEvict` | crates/gabion/src/crdt.rs:1083-1106 | Sweeping one more slot keeps all of that true of the sweep so far |
| `CellStores.CellStore.ExpireAt` | crates/gabion/src/crdt.rs:1314-1337 | In milliseconds, for every cell of every known rule: it stays while the window of some hit in its bucket has not ended, it is gone once the window of the last one ended more than a bucket ago, and without a bucket length it never goes; pinned rules keep slot and descriptor, survivors their handles, origins still interned their sequences and watermarks |
| `CellStores.CellStore.MarkStays` | crates/gabion/src/crdt.rs:750-769 | After a sweep a peer's watermark for an origin still interned is the one it was |
| `CellStores.CellStore.BumpSelectionEpoch` | crates/gabion/src/crdt.rs:1135-1148 | After the bump no slot is marked, also when the 32-bit epoch wraps |
| `CellStores.CellStore.FillLane` | crates/gabion/src/crdt.rs:1253-1271 | One dirty lane: the eligible entries, oldest first, each cell once, while there is room |
| `CellStores.CellStore.FillRepair` | crates/gabion/src/crdt.rs:1412-1435 | The rotating slice from the cursor, skipping cells already in, and the cursor behind the last slot looked at |
| `CellStores.CellStore.FillGossipFrame` | crates/gabion/src/crdt.rs:1354-1443 | Exactly min(max, active cells) distinct live handles. First the local, then the forwarded cells the peer is owed: entries whose generation and sequence are still the cell's and whose sequence is above the peer's watermark. Nothing else is in those parts, and repair cells come only when all owed cells are in; the frame and the cursor are those of one step of a repair series |
| `CellStores.CellStore.FreshChangeLeads` | crates/gabion/src/crdt.rs:1039-1067 | A cell that was just changed, for a peer whose watermark is not ahead of the origin's counter, is among the dirty part of any frame that has room for repair |
| `Frames.FrameLed` | crates/gabion/src/crdt.rs:1354-1411 | What leads a frame: the eligible entries of the local lane, then those of the forwarded lane, each complete before a later part begins |
| `CellStores.CellStore.ClearDirty` | crates/gabion/src/crdt.rs:1109-1112 | Both rings empty, every cell untouched |
| `CellStores.CellStore.RingsTell` | crates/gabion/src/crdt.rs:1193-1205 | A cell has at most one current dirty entry, in the ring of its origin class, and exactly one while that ring has neither overflowed nor been cleared |
| `CellStores.CellStore.RecordAck` | crates/gabion/src/gossip/runtime.rs:566-580 | Raises the watermark of an interned origin only, so free node slots and vacant peer slots stay blank |
| `CellStores.CellStore.RecordAcks` | crates/gabion/src/gossip/runtime.rs:566-580 | The sender's watermark for each known origin rises to the greatest sequence the packet names, no other watermark moves, and nothing changes when there is no slot for the sender |
| `CellStores.CellStore.InternPeer` | crates/gabion/src/gossip/runtime.rs:566-580 | The store stays valid; the peer has a slot unless all are taken; no watermark changes, and in every valid store a peer in a vacant slot starts with none |
| `CellStores.CellStore.RemovePeer` | crates/gabion/src/gossip/runtime.rs:702-707 | The store stays valid; that peer's slot and both its watermark rows are wiped and every other peer keeps its own |
| `CellStores.CellStore.FreshOrigin` | crates/gabion/src/crdt.rs:763-767 | Whoever takes a free node slot starts at sequence zero and is pruned for no peer |
| `DirtyLanes.BornLane` | crates/gabion/src/crdt.rs:926-963 | A cell that starts in a reused slot is stamped and marked without reviving an entry of the slot's earlier lives |
| `DirtyLanes.BuriedLane` | crates/gabion/src/crdt.rs:750-769 | After a cell dies no entry of its life is current |
| `DirtyLanes.LaneReads` | crates/gabion/src/crdt.rs:1193-1205 | What the kept part of a lane says about current entries |
| `Handles.ComesBack` | crates/gabion/src/crdt.rs:727-748 | The generation of a slot is the same again after n steps exactly when n is a multiple of 2^32 |
| `Handles.LiveByParity` | crates/gabion/src/crdt.rs:727-748 | A slot is live after an odd number of steps from construction; the store's validity says that its generations are those step counts |
| `Handles.OneLifeThrough` | crates/gabion/src/crdt.rs:727-769 | From call to call steps only grow, and a slot without a step in between still holds the cell it held |
| `Handles.ManyCalls` | crates/gabion/src/crdt.rs:727-769 | So over any number of calls, each of which ensures its part |
| `Frames.FrameExact` | crates/gabion/src/crdt.rs:1244-1308 | Every frame names exactly min(max, live cells) distinct live cells |
| `Frames.FramePriority` | crates/gabion/src/crdt.rs:1354-1411 | A later lane contributes only when everything eligible in the earlier lanes is already in |
| `Frames.RepairCoverage` | crates/gabion/src/crdt.rs:1412-1435 | Over any series of frames of which `capacity` leave room, full ones and whatever else changes in between, every cell live throughout is named |
| `Frames.RepairReaches` | crates/gabion/src/crdt.rs:1412-1435 | A live cell is named within as many frames with room as its distance from the cursor; full frames do not move the cursor |
| `Frames.QuietFrame` | crates/gabion/src/crdt.rs:1284-1307 | With quiet dirty lanes a frame names the nearest live cells, and every other cell moves up by exactly the frame size |
| `Frames.QuietCoverage` | crates/gabion/src/crdt.rs:1284-1307 | With A static cells and quiet dirty lanes, ceil(A / max) frames name every cell |
| `Frames.NothingDirty` | crates/gabion/src/crdt.rs:1253-1281 | Lanes without an eligible entry contribute nothing |
| `Aggregates.DashMapStore.Apply` | crates/server/src/store.rs:103-140 | Every total becomes the old one plus all gains, saturating at 64 bits, minus all losses, floored at zero; no zero rows remain |
| `Aggregates.DashMapStore.WindowTotal` | crates/server/src/store.rs:51-73 | The saturating sum of the last `live_buckets` totals up to the current bucket |
| `Aggregates.DashMapStore.TimeUntilAdmitMillis` | crates/server/src/store.rs:78-99 | The admission delay over this store's totals |
| `Aggregates.AbsorbAccounts` | crates/gabion/src/crdt.rs:816-843 | The delta rows of a batch add up to exactly what the batch changed in every sum over origins |
| `Aggregates.ExpiryAccounts` | crates/gabion/src/crdt.rs:848-867 | The expiration rows of a sweep add up to exactly what the dropped cells held |
| `Aggregates.RunAccounts` | crates/server/src/store.rs:103-140 | Over any mixture of batches and sweeps the sum moves by gains minus losses |
| `Aggregates.AggregateAgreement` | crates/server/src/store.rs:103-140 | A total that agreed with the sum over origins still agrees after one apply of any mixture, if and only if the gains did not overflow 64 bits or the cells are all gone |
| `Aggregates.AggregateNeverOver` | crates/server/src/store.rs:103-140 | A total never exceeds the sum over origins, saturation or not |
| `Aggregates.NarrowCountsFit` | crates/server/src/store.rs:103-140 | With one store operation per apply, 16- and 32-bit counts in at most 2^30 cells never saturate a total |
| `Aggregates.WideCountsDrift` | crates/server/src/store.rs:103-140 | With 64-bit counts a total can saturate, and after the next expiry a live hit is missing from it |
| `Windows.TimeUntilAdmitMillis` | crates/gabion/src/window.rs:31-69 | Returns the delay until the first bucket falls off that makes enough room, the whole window if none does |
| `Windows.RetryExact` | crates/gabion/src/window.rs:31-69 | For the true window total and no later hits, a time is admitted if and only if it is at least the returned delay away |
| `Windows.RetryExactIff` | crates/gabion/src/window.rs:31-69 | The delay is exact for every breakdown of the total if and only if total + hits fits in 64 bits, or the limit is the 64-bit maximum, or the window has one bucket, or the clock is still in epoch zero |
| `Windows.SaturatedRetryTooEarly` | crates/gabion/src/window.rs:31-69 | Otherwise some breakdown makes the returned delay too short |
| `Windows.NeverAdmitted` | crates/gabion/src/window.rs:31-69 | A request above the limit is never admitted |
| `Windows.OverweightWaitsWindow` | crates/gabion/src/window.rs:64-68 | The delay told to a request above the limit ends when every bucket of the current window has fallen off |
| `Windows.HitsSeenIff` | crates/gabion/src/window.rs:31-69 | Hits added to one bucket are in the total read at a time if and only if the bucket has begun and `live_buckets` bucket lengths have not passed since |
| `Windows.EpochWraps` | crates/server/src/store.rs:51-73 | The epoch is on 32 bits: 2^32 buckets later the same window is read again |
| `Windows.HitLifetime` | crates/gabion/src/rules.rs:100-112 | For buckets that span the window, a hit counts for at least the window less a bucket and at most the window and a bucket |
| `Windows.RetryAfterSuffices` | crates/gabion/src/window.rs:73-75 | Waiting the rounded-up Retry-After (section 7.1.3 of RFC 7231) is always enough |
| `Windows.ResetIsTight` | crates/gabion/src/window.rs:81-83 | The reset time is not before the wait is over, counted from the start of the second, and less than a second late |
| `Windows.BoundaryIsNext` | crates/gabion/src/window.rs:104-107 | Until the reported boundary the epoch does not change; at the boundary it rises by one |
| `Retention.ExpiryInvisibleIff` | crates/gabion/src/crdt.rs:1083-1106 | A sweep at g changes no window sum over the cells read at r if and only if g's epoch is at most one ahead of r's, or the first window has not filled |
| `Retention.ReadAfterSweep` | crates/server/src/store.rs:51-73 | What window_total reads from agreeing totals after a sweep: the saturated sum of exactly those buckets of its window that the sweep left |
| `Retention.SweepUnnoticed` | crates/server/src/store.rs:51-73 | So no read of an enforced rule that is in time by the condition above changes |
| `Retention.SweepByBucket` | crates/gabion/src/crdt/dictionary.rs:52-71 | A sweep empties a bucket of a rule entirely or leaves it entirely |
| `Expiry.SweepsByAge` | crates/gabion/src/crdt.rs:1083-1106 | A cell whose window can still be needed is not expired, one whose window ended more than a bucket ago is; without a bucket length nothing expires |
| `Expiry.SweepsByEpoch` | crates/gabion/src/crdt/dictionary.rs:52-58 | The sweep and the window read the same clock at every time |
| `Expiry.WireOnlyLife` | crates/gabion/src/crdt/dictionary.rs:25-42 | A cell of a rule known only from the wire expires exactly 61 seconds after its bucket began, and never counts locally |
| `Registration.NewRuleIff` | crates/gabion/src/rules.rs:86-112 | The buckets of a new rule are the fewest that span its window if and only if the window is at most 2^32 - 1 of them long; the count is truncated to 32 bits otherwise |
| `Registration.RegisteredIff` | crates/server/src/bin/gabiond.rs:295-317 | The sweep knows a rule with its own window and bucket if and only if both fit 32 bits |
| `Registration.RegisteredReads` | crates/server/src/bin/gabiond.rs:295-317 | It then keeps exactly as many buckets as the rule reads |
| `Registration.SweepsSafelyIff` | crates/nginx/src/leader.rs:379-391 | No sweep drops a bucket that a read of the rule at the same time counts if and only if the rule reads at most one bucket more than its clipped window has |
| `Registration.SixtyDaysForget` | crates/server/src/bin/gabiond.rs:295-317 | A sixty-day window of daily buckets does not: the sweep drops hits the window still counts |
| `Admission.Matching` | crates/gabion/src/rules.rs:178-194 | Every rule of the table that is not disabled and matches, and no other; `AppliesIff` says which ones match |
| `Verdicts.AppliesIff` | crates/gabion/src/rules.rs:178-194 | A rule applies to a request if and only if it is configured and not disabled, its domain hash is that of the request and its patterns, with the wildcards filled in from the request, are the request's descriptors |
| `Verdicts.LiteralApplies` | crates/gabion/src/rules.rs:55-59 | Without wildcards it applies exactly on equal descriptors |
| `Verdicts.ValueMatters` | crates/gabion/src/rules.rs:55-59 | Another value in one descriptor makes no difference to an applying rule with a wildcard there and takes any other applying rule out |
| `Admission.MatchingByShape` | crates/gabion/src/rules.rs:178-216 | Which rules match is fixed by domain and descriptors, as the keys are |
| `Admission.ViolatesCardinality` | crates/server/src/admission.rs:96-112 | The saturating running count with its early exit misses no request beyond a bound and stops no other; `TurnedAwayIff` says which those are |
| `Verdicts.TurnedAwayIff` | crates/server/src/admission.rs:96-112 | Turned away for its descriptors, without quota or record, exactly with too many of them, a key that is too long, or descriptors whose text, laid end to end with the domain, is longer than the bound; a bound of the 64-bit maximum turns nothing away for its text |
| `Admission.MatchingAt` | crates/gabion/src/rules.rs:178-194 | In declaration order: a matching rule comes right behind the matches among the rules before it |
| `Admission.Assess` | crates/server/src/lib.rs:171-210 | One rule as the decision takes it: over its limit with the wait, or what remains; `RejectionTells` and `AdmissionTells` say what both mean |
| `Verdicts.RejectedIff` | crates/server/src/lib.rs:171-210 | A request within the descriptor bounds is rejected if and only if one of the first seventeen applying rules enforces a limit that the hits it counts in the window and the request's together exceed |
| `Verdicts.RejectionTells` | crates/server/src/lib.rs:179-196 | The report is about the first such rule: its limit, what is left of it, and a wait after which, and not before, the same request fits, whenever the request can fit at all and totals stay within 64 bits; nothing is recorded |
| `Verdicts.AdmissionTells` | crates/server/src/lib.rs:198-243 | An admitted request is told the first rule with the least left after it, how much that is and the milliseconds to that rule's next epoch; all its hits are recorded for the first sixteen rules in order, each under the rule's fingerprint and key in the bucket that contains the time |
| `Admission.Decide` | crates/server/src/lib.rs:151-225 | Rejects with the first enforcing over-limit rule among the first seventeen matches; otherwise plans the first sixteen and reports the first rule with least remaining |
| `Admission.TightestMore` | crates/server/src/lib.rs:252-257 | Ties keep the earlier rule |
| `Server.Evaluate` | crates/server/src/lib.rs:151-246 | The decision the aggregate calls for; the node ends where recording the plan hit by hit takes it; a rejected request changes nothing |
| `Server.EvaluateServes` | crates/server/src/lib.rs:151-246 | With narrow counts and nothing refused, what the code did is one admit step and one store step per record of the enforcement runs, however many rules match |
| `Server.DecideAdmits` | crates/server/src/lib.rs:151-225 | Pass 1 is one admit step |
| `Server.RecordStores` | crates/server/src/lib.rs:228-243 | Each record of pass 2 is one store step, whenever it happens, so packets and ticks may come between |
| `Server.InboundMerges` | crates/gabion/src/gossip/runtime.rs:499-564 | With narrow counts, what the inbound handler did is one merge step of those runs, whatever was refused |
| `Server.TickExpires` | crates/gabion/src/gossip/runtime.rs:718-727 | What the tick did is one expire step of those runs, whatever rules from the wire the store knows besides the table |
| `Server.PinnedRegisters` | crates/server/src/bin/gabiond.rs:295-317 | A pinned rule whose window and bucket fit 32 bits is swept with the window it is read with, as the expire step asks |
| `Clusters.NextSafe` | crates/gabion/src/crdt.rs:892-923 | Every join, leave, hit, send, delivery and sweep keeps every stored and every sent count at most what its origin recorded |
| `Clusters.RunSafe` | crates/gabion/src/crdt.rs:892-923 | Protocol safety in every state of every run with loss, repetition, reordering, refusals and expiry, including cells an origin expired and learned back |
| `Clusters.RunAgrees` | crates/server/src/store.rs:103-140 | With 16- or 32-bit counts every node's totals equal the sums of its cells in every state of every run |
| `Progress.WishGranted` | crates/gabion/src/crdt.rs:1011-1106 | No hit, delivery or sweep is ever blocked: in every safe state it has a next state, for any pattern of refusals and any rules and time to sweep with |
| `Progress.RunExtends` | crates/gabion/src/crdt.rs:1011-1106 | Every run can be continued by any hit, any packet of sent rows and any sweep, so the statements about runs are not empty |
| `Convergence.MergeIsJoin` | crates/gabion/src/crdt.rs:1050-1075 | Merging rows gives the least map above the old map and all rows |
| `Convergence.MergeOrderIrrelevant` | crates/gabion/src/crdt.rs:1050-1075 | The same set of rows gives the same map in any order and multiplicity |
| `Convergence.BatchingIrrelevant` | crates/gabion/src/crdt.rs:1050-1075 | However the rows are cut into batches |
| `Convergence.DeliverTeaches` | crates/gabion/src/crdt.rs:1050-1075 | A delivered row that is not refused is held in the next state |
| `Convergence.DeliveredStays` | crates/gabion/src/crdt.rs:1050-1075 | And held from then on until the node leaves or a sweep finds that cell expired |
| `Convergence.Converged` | crates/gabion/src/crdt.rs:1050-1075 | Cell by cell, through all sweeps that do not expire it: a node that has heard the origin's last word holds exactly the recorded hits, up to the counter's width |
| `Convergence.WindowConverged` | crates/gabion/src/crdt.rs:1050-1106 | A node that has heard every cell of a window holds the recorded sum of that window, each cell up to the counter's width, whatever it swept outside |
| `Convergence.ReadsConverge` | crates/server/src/store.rs:51-73 | With 16- or 32-bit counts two such nodes that enforce the rule read the same window total |
| `Convergence.LiveWindowStays` | crates/gabion/src/crdt.rs:1083-1106 | A sweep with the rule's own window, at most one epoch ahead of a read, drops no cell the read counts |
| `Convergence.AllConverged` | crates/gabion/src/crdt.rs:1050-1075 | Nodes that have heard everything agree on every sum; the sums are those of the recorded hits when no count exceeded the width |
| `Convergence.OriginExact` | crates/gabion/src/crdt.rs:1011-1045 | From its join until it leaves or sweeps that very cell, an origin holds in each cell of its own exactly what it recorded, up to the counter's width; other sweeps change nothing |
| `AntiEntropy.EveryCellArrives` | crates/gabion/src/crdt.rs:1354-1436 | End to end: a cell live at the sender through a series of frames of which `capacity` leave room, whose rows reach the peer and are not refused, is held by the peer with at least the count it had at the start |
| `AntiEntropy.LastWordArrives` | crates/gabion/src/crdt.rs:1050-1075 | If the sender is the origin and takes no further hit for it, the peer then holds exactly the recorded hits, up to the width |
| `Rejections.NoUnjustifiedRejection` | crates/server/src/lib.rs:165-196 | In every state of every cluster run, the rule a limit rejection reports is an enforcing one for which recorded hits in the window plus the request exceed the limit |
| `Enforcement.SequentialEnforcement` | crates/server/src/lib.rs:151-246 | In every run of one node, with packets and sweeps also between the records of one request, admitted hits of an enforcing rule and key never exceed the limit in any `live_buckets` consecutive buckets, if the limit fits the counters and the rule was among the first sixteen of every request with hits under that key |
| `Limits.LimitKeptIff` | crates/server/src/lib.rs:151-246 | A rule's limit is kept in every run if and only if for every request shape that matches it one of the first sixteen matches, perhaps the rule itself, enforces a limit that is no larger and fits the counters, or one of the first seventeen allows nothing; for tables in which such rules look as far back |
| `Limits.ShieldedIsKept` | crates/server/src/lib.rs:151-246 | Kept in every run, for every key, when every shape that matches the rule has such a rule whose window covers it; no condition on the table |
| `Limits.OutrunBreaks` | crates/server/src/lib.rs:179-225 | Broken by a run of single hits of one shape when every rule that counts that shape exactly allows more: rules past the sixteenth, limits wider than the counters and limits of the 64-bit maximum |
| `Limits.Shadowed` | crates/server/src/lib.rs:165-225 | What is admitted for a shape under one rule is at most what is admitted under another it matches whose window contains it, because one shape has one key per rule |
| `Limits.SharedIsAligned` | crates/server/src/lib.rs:165-225 | Rules that share bucket and window meet the condition of the equivalence |
| `Limits.LongerCovers` | crates/gabion/src/rules.rs:100-112 | A window longer by one bucket covers another whatever their buckets |
| `Limits.EarlyIsKept` | crates/server/src/lib.rs:216-225 | Kept when the limit fits the counters and the rule is always among the first sixteen |
| `Limits.OutrunRun` | crates/server/src/lib.rs:151-246 | That run: as many single hits as every exactly counting rule allows, all admitted under each rule the shape matches and recorded under the first sixteen |
| `Limits.SeventeenthKeptIff` | crates/server/src/lib.rs:216-225 | Seventeen rules of one hit that one shape matches: the last limit, never recorded, is kept behind sixteen enforcing rules and broken behind sixteen dry runs |
| `Enforcement.RoomIsReal` | crates/server/src/lib.rs:165-196 | A rule that does not reject has room for the request counted in hits really admitted |
| `Enforcement.SweepRemembers` | crates/gabion/src/crdt.rs:1083-1106 | A sweep no later than the clock drops nothing a live window needs |
| `Enforcement.NarrowTakesFit` | crates/server/src/store.rs:103-140 | The no-overflow condition of the runs always holds for 16- and 32-bit counts |
| `Enforcement.LoneTakesFit` | crates/server/src/store.rs:103-140 | It always holds at any width on a node without peers |
| `Enforcement.RecordedIffPlanned` | crates/server/src/lib.rs:216-225 | An admitted request is recorded under a matching rule if and only if the rule is among the first sixteen |
| `Access.DecideOne` | crates/nginx/src/access.rs:247-347 | One rule's outcome, one for every input: a rule the configuration does not know has no opinion; `EarlyOutcome`, `RejectsIff` and `AllowanceTells` say what the others mean |
| `AccessVerdicts.EarlyOutcome` | crates/nginx/src/access.rs:247-297 | Before the window is read: exempt first; else too long exactly when the running length exceeds the bound with a value that is there before any descriptor is missing or not text; else no opinion when one is |
| `AccessVerdicts.RejectsIff` | crates/nginx/src/access.rs:298-347 | A disabled rule has no opinion; any other rejects if and only if it enforces its limit and the window has no room for one more hit, and allows otherwise |
| `AccessVerdicts.AllowanceTells` | crates/nginx/src/access.rs:298-347 | An allowance leaves the limit less the total less this hit, or nothing, and offers one hit under the rule's fingerprint and key in the bucket that contains the time |
| `AccessVerdicts.DecisionTells` | crates/nginx/src/access.rs:161-241 | A stack of rules rejects exactly when a rule that is tested enforces a limit without room; else it allows with the least left, and of that the longest window, exactly when some rule was tested; else it allows for an exemption, else it is too long if some rule finds it so, else no opinion |
| `AccessVerdicts.QueueTells` | crates/nginx/src/access.rs:161-241 | A rejected request queues nothing; any other queues the events of its first sixteen allowing rules, in their order |
| `AccessVerdicts.RequestAdds` | crates/nginx/src/access.rs:161-241 | What one request adds to the cells of an enforced rule: at most one hit, in the current bucket, and only when the window has room |
| `AccessVerdicts.AccessKeepsLimit` | crates/nginx/src/access.rs:161-241 | Over every run of requests with any stacks of rules, each request counted before the next, no `live_buckets` consecutive buckets ever count more for an enforced rule and key than its limit |
| `Access.DecideAll` | crates/nginx/src/access.rs:161-241 | Any rejection wins and queues nothing; otherwise the first sixteen events are queued; exempt-only, too-long-only and no-opinion requests as documented |
| `Access.OrderIrrelevant` | crates/nginx/src/access.rs:161-241 | The kind of decision, the reported reject window and the reported remaining quota and window depend only on the multiset of outcomes |
| `Access.WorstMore` | crates/nginx/src/access.rs:353-358 | The reported rejection has the longest window, the first one on a tie |
| `Access.TightestMore` | crates/nginx/src/access.rs:365-376 | The reported allowance has least remaining, then the longest window, the first one on a tie |
| `Access.LongestWindowRetriesEarly` | crates/nginx/src/access.rs:349-358 | The longest window need not be the longest wait: two rejecting rules, in either order, for which the decision advertises a wait after which the shorter window still rejects |
| `Access.AdvertisedWaitIff` | crates/nginx/src/access.rs:161-241 | For any decision that rejects on true window totals: after the advertised seconds the request passes every rule that rejected it if and only if each of them has a limit of at least one and a delay no longer than those seconds |
| `Access.ReportedRulePasses` | crates/nginx/src/access.rs:349-358 | The reported rule itself always passes after its own advertised wait |
| `Runtimes.Runtime.HandleLimitRequest` | crates/gabion/src/gossip/runtime.rs:480-497 | The handler and its apply are one hit step of the abstract node, taken if and only if there is room for the cell, and the totals keep agreeing with the cells |
| `Runtimes.Runtime.HandleInbound` | crates/gabion/src/gossip/runtime.rs:499-564 | The handler and its apply are one delivery step of the abstract node, refusing exactly what there is no room for; pins stay |
| `Runtimes.Runtime.HandleTick` | crates/gabion/src/gossip/runtime.rs:718-727 | The handler and its apply are one sweep step, and the totals keep agreeing with the cells, pinned rules or not; an enforced rule is forgotten only when no cell of it is left and it holds no pin; no window read in time notices |
| `Runtimes.Runtime.ComposePacket` | crates/gabion/src/gossip/runtime.rs:780-807 | Every row of an outgoing frame is a cell of the node at its current count, a legal send step, and every cell the step of the repair series names is among them |
| `Runtimes.Runtime.Flush` | crates/gabion/src/gossip/runtime.rs:410-417 | One apply per event, none when there is nothing to tell |
| `Runtimes.Runtime.RegisterRule` | crates/gabion/src/crdt.rs:540-560 | Totals that agreed still agree if and only if the rule is enforced exactly when it was before, or every count stored for it is zero; a rule that is new or already pinned is pinned afterwards |
| `Runtimes.RegistrationIff` | crates/gabion/src/crdt.rs:540-560 | The same on maps: changing whether a rule counts keeps the totals in agreement if and only if nothing changed or its cells all count zero |

## Left out

- Columns of `CellStore` and `Dictionary` are sequence-valued fields: the source's boxed slices are owned by one store, so no aliasing is lost. Index, ring and frontier are arrays.
- The five identity columns of a cell are one sequence of keys; they are always read and written together.
- `visit_repair_slice`, `visit_local_dirty`, `visit_forwarded_dirty`, `clear`, `get`, `lacks_indices`, `record_sent`, `oldest_live_epoch`: they would only add easier members beside the frame composer and the sweep.
- The wire codec and packet authentication: a packet is a sequence of rows.
- Peer choice, fanout, the threshold trigger, packet splitting and the send queue of the runtime: a send is any frame, delivery is nondeterministic.
- The nginx shared-memory queue, lease and seqlocked aggregate: window total, retry time and queue are parameters of `Access`.
- Rate parsing, configuration, the hash functions themselves, logging, admin surface, discovery and the visualizer.
- Concurrency inside one process: the runtime handles one event at a time, and window reads that overlap an apply are not modelled.
- AccessVerdicts.EarlyOutcome: the looked-up variable values and the `except_if=` truth test are inputs.
- Registration.SweepsSafelyIff: buckets longer than 2^32 - 1 milliseconds (49 days), which the sweep clips too.
- Capacities above 2^31, where rounding to a power of two overflows 32 bits in the source.
- Limits.LimitKeptIff: where a rule with a smaller limit but a shorter window counts a shape, only the two one-way statements `ShieldedIsKept` and `OutrunBreaks` remain.
- Enforcement.SequentialEnforcement: speaks of the hits one node admitted; hits admitted by other nodes in the same window are bounded only through what has been merged.
