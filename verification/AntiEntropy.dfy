/** Repair frames and merging together: a peer that takes a node's frames comes to hold all its cells. */
module AntiEntropy {
  import opened Base
  import opened Cells
  import opened Dictionary
  import opened Counters
  import opened Expiry
  import opened Clusters
  import opened Convergence
  import Frames

  /** A node's sends in a run: where they are among the events, and the frame each was composed from. */
  datatype Gossip = Gossip(at: seq<nat>, frames: seq<Frames.RepairInput>, cursors: seq<nat>)

  /** The `t`-th send is the node's, and has the cell in `slot` at its current count if the frame names it. */
  ghost predicate SendsCell(states: seq<Cluster>, events: seq<Event>, src: NodeDescriptor, g: Gossip, t: nat, slot: nat,
                            id: CellId)
    requires |states| == |events| + 1 && t < |g.at| && t < |g.frames| && t < |g.cursors|
  {
    && g.at[t] < |events| && events[g.at[t]].Send? && events[g.at[t]].who == src && src in states[g.at[t]].nodes
    && (Frames.Emits(g.frames[t], g.cursors[t], slot) ==>
          && id in states[g.at[t]].nodes[src].counts
          && Row(id, states[g.at[t]].nodes[src].counts[id]) in events[g.at[t]].rows)
  }

  /** The row reaches `dst` after `from` and before `until`, and is not refused. */
  ghost predicate Arrives(events: seq<Event>, dst: NodeDescriptor, row: Row, from: nat, until: nat) {
    exists at: nat, i: nat :: from <= at < until <= |events| && TakesRow(events[at], dst, row, i)
  }

  ghost predicate TakesRow(e: Event, dst: NodeDescriptor, row: Row, i: nat) {
    e.Deliver? && e.who == dst && i < |e.packet| && i < |e.took| && e.packet[i] == row && e.took[i]
  }

  /** A row that arrives and is not dropped afterwards is held. */
  lemma ArrivedStays(states: seq<Cluster>, events: seq<Event>, max: nat, dst: NodeDescriptor, row: Row, from: nat,
                     until: nat)
    requires Run(states, events, max) && Arrives(events, dst, row, from, until)
    requires forall j :: from <= j < until ==> !Drops(events[j], dst, row.id)
    ensures Holds(states[until], dst, row)
  {
    hide Next, Drops, Holds;
    var at: nat, i: nat :| from <= at < until <= |events| && TakesRow(events[at], dst, row, i);
    DeliveredStays(states, events, max, at, i, until);
  }

  /** Anti-entropy end to end. A cell keeps its slot at the sender through a series of frames of which as many
      as the store has slots leave room; whatever of it they send reaches the peer; neither node drops it.
      Then the peer ends with at least the count the sender had at the start. */
  lemma EveryCellArrives(states: seq<Cluster>, events: seq<Event>, max: nat, src: NodeDescriptor, dst: NodeDescriptor,
                         g: Gossip, cap: nat, slot: nat, id: CellId, from: nat, until: nat)
    requires Run(states, events, max) && from <= until <= |events| && src in states[from].nodes
    requires |g.at| == |g.frames| && Frames.RepairRun(g.frames, g.cursors, cap)
    requires slot < cap && Frames.RoomyFrames(g.frames, 0) >= cap
    requires forall t: nat :: t < |g.frames| ==> g.frames[t].Holds(slot)
    requires forall t: nat :: t < |g.at| ==> from <= g.at[t] < until && SendsCell(states, events, src, g, t, slot, id)
    requires forall t: nat, row ::
               t < |g.at| && events[g.at[t]].Send? && row in events[g.at[t]].rows && row.id == id ==>
                 Arrives(events, dst, row, g.at[t], until)
    requires forall j :: from <= j < until ==> !Drops(events[j], src, id) && !Drops(events[j], dst, id)
    ensures Holds(states[until], dst, Row(id, CountOf(states[from].nodes[src].counts, id)))
  {
    hide Next, Drops, Frames.Emits, Frames.RepairStep, Arrives;
    Frames.RepairCoverage(g.frames, g.cursors, cap, slot);
    var t: nat :| t < |g.frames| && Frames.Emits(g.frames[t], g.cursors[t], slot);
    assert SendsCell(states, events, src, g, t, slot, id);
    var first := Row(id, CountOf(states[from].nodes[src].counts, id));
    var sent := Row(id, states[g.at[t]].nodes[src].counts[id]);
    RunKeeps(states, events, max, src, first, from, g.at[t]);
    ArrivedStays(states, events, max, dst, sent, g.at[t], until);
  }

  /** When the sender is the cell's origin and takes no further hit for it, the peer has it exactly. */
  lemma LastWordArrives(states: seq<Cluster>, events: seq<Event>, max: nat, dst: NodeDescriptor, id: CellId, from: nat,
                        until: nat)
    requires Run(states, events, max) && from <= until <= |events| && OwnExact(states[from], id, max)
    requires CountOf(states[until].recorded, id) == CountOf(states[from].recorded, id)
    requires Holds(states[until], dst, Row(id, CountOf(states[from].nodes[Origin(id)].counts, id)))
    ensures CountOf(states[until].nodes[dst].counts, id) == Min(CountOf(states[until].recorded, id), max)
  {
    hide Next;
    RunSafe(states, events, max, until);
    assert NodeSafe(states[until].nodes[dst], states[until].recorded, max);
  }
}
