/** The identities and rows that cross the cell store's boundary (`crdt.rs`, `crdt/io.rs`). */
module Cells {
  import opened Base

  /** Interned identity: rule and origin are dictionary slots of one process. */
  datatype CompactKey = CompactKey(rule: nat, keyHash: nat, bucket: nat, origin: nat, incarnation: nat)

  /** The identity a cell has on every node. */
  datatype CellId = CellId(fingerprint: nat, keyHash: nat, bucket: nat, nodeId: nat, incarnation: nat)
  {
    function Identity(): CellIdentity {
      CellIdentity(fingerprint, keyHash, bucket)
    }
  }

  /** What the aggregate store keys on: the origin is left out. */
  datatype CellIdentity = CellIdentity(fingerprint: nat, keyHash: nat, bucket: nat)

  datatype CellHandle = CellHandle(index: nat, generation: nat)

  datatype DirtyEntry = DirtyEntry(handle: CellHandle, originSequence: nat)

  /** One row of an observation batch: hits to add, or an absolute count to merge. */
  datatype Observation = Observation(id: CellId, count: nat, lastUpdateMillis: nat)

  /** A raised count as the aggregate store sees it. */
  datatype CountChange = CountChange(
    key: CellIdentity, previous: nat, current: nat, delta: nat, appliesLocally: bool)

  /** One row of the delta sink. */
  datatype CellDelta = CellDelta(handle: CellHandle, change: CountChange)

  /** One row of the expiration sink. */
  datatype CellExpiration = CellExpiration(
    handle: CellHandle, key: CellIdentity, lastCount: nat, lastUpdateMillis: nat, appliesLocally: bool)

  datatype InsertReject = CellStoreFull | RuleDictionaryFull | NodeDictionaryFull
}
