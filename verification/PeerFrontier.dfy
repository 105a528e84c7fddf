/** Per-peer, per-origin watermarks (`crdt/peer_frontier.rs`). */
module PeerFrontier {
  import opened Base

  /** By peer slot and origin: what the peer acknowledged and what it was sent. */
  type Marks = seq<seq<(nat, nat)>>

  /** The same table except in one origin's column. */
  ghost predicate SameBut(was: Marks, now: Marks, node: nat) {
    |now| == |was| && forall p: nat :: p < |was| ==> SameRowBut(was[p], now[p], node)
  }

  ghost predicate SameRowBut(was: seq<(nat, nat)>, now: seq<(nat, nat)>, node: nat) {
    |now| == |was| && forall n: nat :: n < |was| && n != node ==> now[n] == was[n]
  }

  class PeerFrontierTable {
    const peerCapacity: nat
    const nodeCapacity: nat
    const peerIds: array<Option<nat>>
    const lastAcked: array2<nat>
    const lastSent: array2<nat>
    var fullRejects: nat

    ghost function Repr(): set<object> {
      {this, peerIds, lastAcked, lastSent}
    }

    ghost predicate Valid()
      reads this, peerIds, lastAcked, lastSent
    {
      && lastAcked != lastSent
      && peerIds.Length == peerCapacity
      && lastAcked.Length0 == lastSent.Length0 == peerCapacity
      && lastAcked.Length1 == lastSent.Length1 == nodeCapacity
      && (forall i, j :: 0 <= i < j < peerCapacity && peerIds[i].Some? ==> peerIds[i] != peerIds[j])
    }

    ghost function Row(p: nat): (row: seq<(nat, nat)>)
      requires Valid() && p < peerCapacity
      reads this, peerIds, lastAcked, lastSent
      ensures |row| == nodeCapacity && forall n: nat :: n < nodeCapacity ==> row[n] == (lastAcked[p, n], lastSent[p, n])
    {
      seq(nodeCapacity,
          n requires 0 <= n < nodeCapacity && Valid() && p < peerCapacity reads this, peerIds, lastAcked, lastSent =>
        (lastAcked[p, n], lastSent[p, n]))
    }

    /** All watermarks. */
    ghost function Watermarks(): (m: Marks)
      requires Valid()
      reads this, peerIds, lastAcked, lastSent
      ensures |m| == peerCapacity && forall p: nat :: p < peerCapacity ==> m[p] == Row(p)
    {
      seq(peerCapacity, p requires 0 <= p < peerCapacity && Valid() reads this, peerIds, lastAcked, lastSent => Row(p))
    }

    /** A slot without a peer holds no watermark, so the next peer to take it inherits none. */
    ghost predicate VacantBlank()
      requires Valid()
      reads this, peerIds, lastAcked, lastSent
    {
      forall i, n :: 0 <= i < peerCapacity && 0 <= n < nodeCapacity && peerIds[i].None? ==>
        lastAcked[i, n] == 0 && lastSent[i, n] == 0
    }

    ghost predicate Clean()
      reads this, peerIds, lastAcked, lastSent
    {
      Valid() && VacantBlank()
    }

    /** No peer has a watermark for this origin. */
    ghost predicate Blank(node: nat)
      requires lastAcked.Length0 == lastSent.Length0 == peerCapacity
      requires lastAcked.Length1 == lastSent.Length1 == nodeCapacity
      requires node < nodeCapacity
      reads lastAcked, lastSent
    {
      forall p :: 0 <= p < peerCapacity ==> lastAcked[p, node] == 0 && lastSent[p, node] == 0
    }

    constructor (peers: nat, nodes: nat)
      ensures Valid() && VacantBlank() && fresh(Repr()) && peerCapacity == peers && nodeCapacity == nodes
      ensures forall n: nat :: n < nodes ==> Blank(n)
    {
      peerCapacity, nodeCapacity := peers, nodes;
      peerIds := new Option<nat>[peers](_ => None);
      lastAcked := new nat[peers, nodes]((_, _) => 0);
      lastSent := new nat[peers, nodes]((_, _) => 0);
      fullRejects := 0;
    }

    method FindPeer(peer: nat) returns (r: Option<nat>)
      requires Valid()
      ensures r.Some? ==> r.value < peerCapacity && peerIds[r.value] == Some(peer)
      ensures r.None? ==> forall i :: 0 <= i < peerCapacity ==> peerIds[i] != Some(peer)
    {
      for i := 0 to peerCapacity
        invariant forall j :: 0 <= j < i ==> peerIds[j] != Some(peer)
      {
        if peerIds[i] == Some(peer) {
          return Some(i);
        }
      }
      return None;
    }

    /** The peer's slot, or the first vacant one; `None` exactly when the peer is new and no slot is
        vacant. */
    method InternPeer(peer: nat) returns (r: Option<nat>)
      requires Valid()
      modifies `fullRejects, peerIds
      ensures Valid() && (old(VacantBlank()) ==> VacantBlank())
      ensures r.Some? ==> r.value < peerCapacity && peerIds[r.value] == Some(peer)
      ensures r.Some? ==> forall i :: 0 <= i < peerCapacity && i != r.value ==> peerIds[i] == old(peerIds[i])
      ensures r.Some? && old(peerIds[r.value]) != Some(peer) ==>
                old(peerIds[r.value]).None? && forall i :: 0 <= i < r.value ==> old(peerIds[i]).Some?
      ensures (exists i :: 0 <= i < peerCapacity && old(peerIds[i]) == Some(peer)) ==> peerIds[..] == old(peerIds[..])
      ensures r.None? <==> forall i :: 0 <= i < peerCapacity ==> old(peerIds[i]).Some? && old(peerIds[i]) != Some(peer)
      ensures r.None? ==> peerIds[..] == old(peerIds[..]) && fullRejects == SatAdd(old(fullRejects), 1, U64_MAX)
    {
      r := FindPeer(peer);
      if r.Some? {
        return;
      }
      assert forall i :: 0 <= i < peerCapacity ==> peerIds[i] != Some(peer);
      for i := 0 to peerCapacity
        invariant forall j :: 0 <= j < i ==> peerIds[j].Some?
        invariant peerIds[..] == old(peerIds[..]) && fullRejects == old(fullRejects)
      {
        if peerIds[i].None? {
          peerIds[i] := Some(peer);
          return Some(i);
        }
      }
      assert forall i :: 0 <= i < peerCapacity ==> peerIds[..][i] == old(peerIds[..])[i];
      fullRejects := SatAdd(fullRejects, 1, U64_MAX);
      return None;
    }

    method RemovePeer(peer: nat)
      requires Valid()
      modifies peerIds, lastAcked, lastSent
      ensures Valid() && (old(VacantBlank()) ==> VacantBlank())
      ensures forall i :: 0 <= i < peerCapacity ==>
                peerIds[i] == if old(peerIds[i]) == Some(peer) then None else old(peerIds[i])
      ensures forall i, n :: 0 <= i < peerCapacity && 0 <= n < nodeCapacity ==>
                && lastAcked[i, n] == (if old(peerIds[i]) == Some(peer) then 0 else old(lastAcked[i, n]))
                && lastSent[i, n] == (if old(peerIds[i]) == Some(peer) then 0 else old(lastSent[i, n]))
    {
      var slot := FindPeer(peer);
      if slot.None? {
        return;
      }
      var p := slot.value;
      peerIds[p] := None;
      forall n | 0 <= n < nodeCapacity {
        lastAcked[p, n] := 0;
      }
      forall n | 0 <= n < nodeCapacity {
        lastSent[p, n] := 0;
      }
    }

    /** A watermark only rises; every other watermark stays. */
    method RecordAcked(peer: nat, node: nat, sequence: nat)
      requires Valid() && peer < peerCapacity && node < nodeCapacity
      modifies lastAcked
      ensures Valid() && (old(VacantBlank()) && peerIds[peer].Some? ==> VacantBlank())
      ensures forall i, n :: 0 <= i < peerCapacity && 0 <= n < nodeCapacity ==>
                lastAcked[i, n] ==
                  if i == peer && n == node then Max(old(lastAcked[i, n]), sequence) else old(lastAcked[i, n])
    {
      if lastAcked[peer, node] < sequence {
        lastAcked[peer, node] := sequence;
      }
    }

    /** Wipes one origin's column when its node slot is freed; no other watermark changes. */
    method ClearNodeSlot(node: nat)
      requires Valid() && node < nodeCapacity
      modifies lastAcked, lastSent
      ensures Valid() && Blank(node) && (old(VacantBlank()) ==> VacantBlank())
      ensures SameBut(old(Watermarks()), Watermarks(), node)
      ensures forall p, n :: 0 <= p < peerCapacity && 0 <= n < nodeCapacity && n != node ==>
                lastAcked[p, n] == old(lastAcked[p, n]) && lastSent[p, n] == old(lastSent[p, n])
    {
      ClearColumn(node);
      forall p: nat | p < peerCapacity ensures SameRowBut(old(Row(p)), Row(p), node) {}
    }

    method ClearColumn(node: nat)
      requires Valid() && node < nodeCapacity
      modifies lastAcked, lastSent
      ensures Valid() && Blank(node) && (old(VacantBlank()) ==> VacantBlank())
      ensures forall p, n :: 0 <= p < peerCapacity && 0 <= n < nodeCapacity && n != node ==>
                lastAcked[p, n] == old(lastAcked[p, n]) && lastSent[p, n] == old(lastSent[p, n])
    {
      for p := 0 to peerCapacity
        invariant forall q, n :: 0 <= q < peerCapacity && 0 <= n < nodeCapacity ==>
                    && lastAcked[q, n] == (if n == node && q < p then 0 else old(lastAcked[q, n]))
                    && lastSent[q, n] == (if n == node && q < p then 0 else old(lastSent[q, n]))
      {
        lastAcked[p, node] := 0;
        lastSent[p, node] := 0;
      }
    }
  }
}
