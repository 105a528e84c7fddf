/** Which rows of a batch a bounded store takes. */
module Rooms {
  import opened Base
  import opened Cells
  import opened Dictionary
  import opened Counters

  /** The cells there are, and what each dictionary knows and has free slots for. */
  datatype Room = Room(
    capacity: nat, cells: set<CellId>,
    rules: set<nat>, ruleSlots: nat, nodes: set<NodeDescriptor>, nodeSlots: nat)

  predicate RuleFits(room: Room, id: CellId) {
    id.fingerprint in room.rules || room.ruleSlots > 0
  }

  predicate NodeFits(room: Room, id: CellId) {
    NodeDescriptor(id.nodeId, id.incarnation) in room.nodes || room.nodeSlots > 0
  }

  /** A row is stored when its rule, its origin and its cell are known or there is a slot for each. */
  predicate HasRoom(room: Room, id: CellId) {
    RuleFits(room, id) && NodeFits(room, id) && (id in room.cells || |room.cells| != room.capacity)
  }

  /** A known rule costs nothing, a new one a slot. */
  function WithRule(room: Room, fp: nat): Room {
    if fp in room.rules || room.ruleSlots == 0 then room
    else room.(rules := room.rules + {fp}, ruleSlots := room.ruleSlots - 1)
  }

  function WithNode(room: Room, node: NodeDescriptor): Room {
    if node in room.nodes || room.nodeSlots == 0 then room
    else room.(nodes := room.nodes + {node}, nodeSlots := room.nodeSlots - 1)
  }

  lemma RuleTook(room: Room, was: map<nat, nat>, now: map<nat, nat>, left: nat, fp: nat)
    requires room.rules == was.Keys && Took(was, room.ruleSlots, now, left, fp)
    ensures WithRule(room, fp) == room.(rules := now.Keys, ruleSlots := left)
  {
  }

  lemma NodeTook(room: Room, was: map<NodeDescriptor, nat>, now: map<NodeDescriptor, nat>, left: nat,
                 node: NodeDescriptor)
    requires room.nodes == was.Keys && Took(was, room.nodeSlots, now, left, node)
    ensures WithNode(room, node) == room.(nodes := now.Keys, nodeSlots := left)
  {
  }

  /** The names a row leaves behind, also when it is refused for a later reason. */
  function Naming(room: Room, id: CellId): Room {
    if RuleFits(room, id)
    then WithNode(WithRule(room, id.fingerprint), NodeDescriptor(id.nodeId, id.incarnation))
    else room
  }

  /** The cell has a slot. */
  function Housed(room: Room, id: CellId): Room {
    room.(cells := room.cells + {id})
  }

  lemma HousedAlready(room: Room, id: CellId)
    requires id in room.cells
    ensures Housed(room, id) == room
  {
    assert room.cells + {id} == room.cells;
  }

  function Taking(room: Room, id: CellId): Room {
    var named := Naming(room, id);
    if HasRoom(room, id) then Housed(named, id) else named
  }

  function TakingAll(room: Room, us: seq<Update>): Room {
    if us == [] then room else Taking(TakingAll(room, us[..|us| - 1]), us[|us| - 1].id)
  }

  /** The rows taken, each against the room left at its turn. */
  function Accepted(room: Room, us: seq<Update>): (taken: seq<bool>)
    ensures |taken| == |us|
  {
    if us == [] then []
    else
      var n := |us| - 1;
      Accepted(room, us[..n]) + [HasRoom(TakingAll(room, us[..n]), us[n].id)]
  }

  lemma AcceptedNone(room: Room)
    ensures Accepted(room, []) == [] && TakingAll(room, []) == room
  {
  }

  lemma AcceptedMore(room: Room, us: seq<Update>, i: nat)
    requires i < |us|
    ensures Accepted(room, us[..i + 1]) == Accepted(room, us[..i]) + [HasRoom(TakingAll(room, us[..i]), us[i].id)]
    ensures TakingAll(room, us[..i + 1]) == Taking(TakingAll(room, us[..i]), us[i].id)
  {
    assert us[..i + 1][..i] == us[..i];
  }

  /** What does not fit once does not fit later. */
  lemma RefusedStays(room: Room, id: CellId, x: CellId)
    requires !HasRoom(room, id)
    ensures !HasRoom(Taking(room, x), id)
  {
    if x in room.cells {
      assert room.cells + {x} == room.cells;
    }
  }

  lemma {:induction false} RefusedStaysAll(room: Room, us: seq<Update>, id: CellId)
    requires !HasRoom(room, id)
    ensures !HasRoom(TakingAll(room, us), id)
  {
    if us != [] {
      RefusedStaysAll(room, us[..|us| - 1], id);
      RefusedStays(TakingAll(room, us[..|us| - 1]), id, us[|us| - 1].id);
    }
  }

  /** With enough slots of every kind nothing is refused. */
  lemma {:induction false} AmpleTakesAll(room: Room, us: seq<Update>)
    requires |us| <= room.ruleSlots && |us| <= room.nodeSlots && |room.cells| + |us| <= room.capacity
    ensures Accepted(room, us) == seq(|us|, _ => true)
    ensures
      var left := TakingAll(room, us);
      && left.capacity == room.capacity && |left.cells| <= |room.cells| + |us|
      && left.ruleSlots + |us| >= room.ruleSlots && left.nodeSlots + |us| >= room.nodeSlots
  {
    if us != [] {
      var n := |us| - 1;
      AmpleTakesAll(room, us[..n]);
      var left := TakingAll(room, us[..n]);
      assert |left.cells + {us[n].id}| <= |left.cells| + 1;
    }
  }
}
