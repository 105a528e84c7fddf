/** The value-level picture of a cell store: which slots are live, what they hold, and how the
    index, the freelist and the two dictionaries refer to each other. */
module StoreImage {
  import opened Base
  import opened Cells
  import opened Dictionary

  /** Low bit of the generation: the active flag. */
  predicate Odd(g: nat) {
    g % 2 == 1
  }

  /** `generation.wrapping_add(1)` on 32 bits. */
  function Bump(g: nat): nat {
    if g >= U32_MAX then 0 else g + 1
  }

  datatype Image = Image(
    keys: seq<CompactKey>,
    generations: seq<nat>,
    free: seq<nat>,
    entries: map<nat, nat>,
    slotOf: map<CellId, nat>,
    rules: seq<RuleDescriptor>,
    ruleRefs: seq<nat>,
    ruleSlotOf: map<nat, nat>,
    rulePins: set<nat>,
    nodes: seq<NodeDescriptor>,
    nodeRefs: seq<nat>,
    nodeSlotOf: map<NodeDescriptor, nat>,
    localSlot: nat)

  ghost predicate Live(v: Image, i: nat) {
    i < |v.generations| && Odd(v.generations[i])
  }

  /** The live cells that refer to a rule slot, or to a node slot. */
  ghost function RuleUsers(v: Image, r: nat): set<nat>
    requires |v.keys| == |v.generations|
  {
    set i: nat | i < |v.keys| && Live(v, i) && v.keys[i].rule == r
  }

  ghost function NodeUsers(v: Image, n: nat): set<nat>
    requires |v.keys| == |v.generations|
  {
    set i: nat | i < |v.keys| && Live(v, i) && v.keys[i].origin == n
  }

  ghost predicate KeyResolves(v: Image, key: CompactKey) {
    && key.rule < |v.rules| && key.origin < |v.nodes|
    && key.incarnation == v.nodes[key.origin].incarnation
  }

  /** The portable identity behind an interned key. */
  ghost function Portable(v: Image, key: CompactKey): CellId
    requires KeyResolves(v, key)
  {
    CellId(v.rules[key.rule].fingerprint, key.keyHash, key.bucket, v.nodes[key.origin].nodeId, key.incarnation)
  }

  /** What a rule dictionary knows, by fingerprint. */
  ghost function Known(slotOf: map<nat, nat>, rules: seq<RuleDescriptor>): map<nat, RuleDescriptor> {
    map fp | fp in slotOf && slotOf[fp] < |rules| :: rules[slotOf[fp]]
  }

  /** Fingerprints of the rules a node enforces. */
  ghost function Enforced(known: map<nat, RuleDescriptor>): set<nat> {
    set fp | fp in known && known[fp].AppliesLocally()
  }

  datatype PinnedRule = PinnedRule(slot: nat, descriptor: RuleDescriptor)

  /** The rules held by a pin, with the slot and the descriptor each has. */
  ghost function PinnedKnown(slotOf: map<nat, nat>, rules: seq<RuleDescriptor>, pins: set<nat>): map<nat, PinnedRule> {
    map fp | fp in slotOf && slotOf[fp] < |rules| && slotOf[fp] in pins :: PinnedRule(slotOf[fp], rules[slotOf[fp]])
  }

  /** A rule first seen on the wire is neither pinned nor enforced. */
  lemma WireOnlyAdds(slotOf: map<nat, nat>, rules: seq<RuleDescriptor>, pins: set<nat>, fp: nat)
    requires fp !in slotOf
    ensures fp !in PinnedKnown(slotOf, rules, pins)
    ensures Enforced(Known(slotOf, rules)[fp := WireOnly(fp)]) == Enforced(Known(slotOf, rules))
  {
  }

  /** Freelist and index split the slots into dead and live ones. */
  ghost predicate Partitioned(v: Image, hash: CompactKey -> nat) {
    && |v.keys| == |v.generations|
    && (forall i: nat :: i < |v.generations| ==> v.generations[i] <= U32_MAX)
    && (forall i: nat :: i < |v.generations| ==> (i in v.free <==> !Live(v, i)))
    && (forall i :: i in v.entries <==> Live(v, i))
    && (forall i: nat :: Live(v, i) ==> v.entries[i] == hash(v.keys[i]))
  }

  /** `slotOf` names every live cell, each once. */
  ghost predicate Named(v: Image) {
    && |v.keys| == |v.generations|
    && (forall i: nat :: Live(v, i) ==> KeyResolves(v, v.keys[i]))
    && (forall i: nat :: Live(v, i) ==> Portable(v, v.keys[i]) in v.slotOf && v.slotOf[Portable(v, v.keys[i])] == i)
    && (forall id :: id in v.slotOf ==> Live(v, v.slotOf[id]) && Portable(v, v.keys[v.slotOf[id]]) == id)
  }

  /** Each refcount is the number of live cells that refer to the slot, plus its pin. */
  ghost predicate RefsCoherent(v: Image) {
    && |v.keys| == |v.generations| && |v.rules| == |v.ruleRefs| && |v.nodes| == |v.nodeRefs|
    && (forall r: nat :: r < |v.ruleRefs| ==>
          v.ruleRefs[r] == |RuleUsers(v, r)| + if r in v.rulePins then 1 else 0)
    && (forall n: nat :: n < |v.nodeRefs| ==>
          v.nodeRefs[n] == |NodeUsers(v, n)| + if n == v.localSlot then 1 else 0)
  }

  /** A referenced slot is the one its key is interned under. */
  ghost predicate NamesCoherent(v: Image) {
    && |v.rules| == |v.ruleRefs| && |v.nodes| == |v.nodeRefs|
    && (forall r: nat :: r < |v.rules| && v.ruleRefs[r] > 0 ==>
          v.rules[r].fingerprint in v.ruleSlotOf && v.ruleSlotOf[v.rules[r].fingerprint] == r)
    && (forall n: nat :: n < |v.nodes| && v.nodeRefs[n] > 0 ==>
          v.nodes[n] in v.nodeSlotOf && v.nodeSlotOf[v.nodes[n]] == n)
  }

  ghost predicate Coherent(v: Image, hash: CompactKey -> nat) {
    Partitioned(v, hash) && Named(v) && RefsCoherent(v) && NamesCoherent(v)
  }

  lemma Lengths(v: Image, hash: CompactKey -> nat)
    requires Coherent(v, hash)
    ensures |v.keys| == |v.generations| && |v.rules| == |v.ruleRefs| && |v.nodes| == |v.nodeRefs|
  {
  }

  /** A live cell holds a reference, so its rule and node slots cannot be reused under it. */
  lemma UserKeepsSlots(v: Image, hash: CompactKey -> nat, i: nat)
    requires Coherent(v, hash) && Live(v, i)
    ensures |v.keys| == |v.generations| && v.generations[i] <= U32_MAX && KeyResolves(v, v.keys[i])
    ensures |v.rules| == |v.ruleRefs| && |v.nodes| == |v.nodeRefs|
    ensures Portable(v, v.keys[i]) in v.slotOf && v.slotOf[Portable(v, v.keys[i])] == i
    ensures v.ruleRefs[v.keys[i].rule] > 0 && v.nodeRefs[v.keys[i].origin] > 0
  {
    assert i in RuleUsers(v, v.keys[i].rule);
    assert i in NodeUsers(v, v.keys[i].origin);
  }

  /** Interning is injective on live cells: equal portable identities have equal interned keys. */
  lemma PortableInjective(v: Image, hash: CompactKey -> nat, key: CompactKey)
    requires Coherent(v, hash) && KeyResolves(v, key)
    requires v.rules[key.rule].fingerprint in v.ruleSlotOf && v.ruleSlotOf[v.rules[key.rule].fingerprint] == key.rule
    requires v.nodes[key.origin] in v.nodeSlotOf && v.nodeSlotOf[v.nodes[key.origin]] == key.origin
    requires Portable(v, key) in v.slotOf
    ensures v.keys[v.slotOf[Portable(v, key)]] == key
  {
    var i := v.slotOf[Portable(v, key)];
    UserKeepsSlots(v, hash, i);
    var other := v.keys[i];
    assert Portable(v, other) == Portable(v, key);
    assert v.rules[other.rule].fingerprint == v.rules[key.rule].fingerprint;
    assert v.nodes[other.origin] == v.nodes[key.origin];
  }

  /** A new cell in the free slot `s`. */
  ghost function Inserted(v: Image, hash: CompactKey -> nat, s: nat, key: CompactKey): Image
    requires |v.keys| == |v.generations| && s < |v.keys| && KeyResolves(v, key)
    requires |v.rules| == |v.ruleRefs| && |v.nodes| == |v.nodeRefs|
    requires v.free != []
  {
    v.(keys := v.keys[s := key],
       generations := v.generations[s := Bump(v.generations[s])],
       free := v.free[1..],
       entries := v.entries[s := hash(key)],
       slotOf := v.slotOf[Portable(v, key) := s],
       ruleRefs := v.ruleRefs[key.rule := v.ruleRefs[key.rule] + 1],
       nodeRefs := v.nodeRefs[key.origin := v.nodeRefs[key.origin] + 1])
  }

  lemma FreeSlotFacts(v: Image, hash: CompactKey -> nat, s: nat)
    requires Coherent(v, hash) && s in v.free && s < |v.keys|
    ensures |v.keys| == |v.generations| && v.generations[s] <= U32_MAX && !Live(v, s) && s !in v.entries
    ensures forall id :: id in v.slotOf ==> v.slotOf[id] != s
    ensures |v.rules| == |v.ruleRefs| && |v.nodes| == |v.nodeRefs|
  {
  }

  lemma InsertedPartition(v: Image, hash: CompactKey -> nat, s: nat, key: CompactKey)
    requires Coherent(v, hash) && KeyResolves(v, key)
    requires v.free != [] && s == v.free[0] && s !in v.free[1..] && s < |v.keys|
    ensures Partitioned(Inserted(v, hash, s, key), hash)
  {
    hide Named, RefsCoherent, NamesCoherent, Portable;
    FreeSlotFacts(v, hash, s);
    BumpFlips(v.generations[s]);
    var w := Inserted(v, hash, s, key);
    assert forall i :: i in v.free <==> i == s || i in v.free[1..];
    assert forall i: nat :: Live(w, i) <==> i == s || Live(v, i);
  }

  lemma InsertedNamed(v: Image, hash: CompactKey -> nat, s: nat, key: CompactKey)
    requires Coherent(v, hash) && KeyResolves(v, key) && Portable(v, key) !in v.slotOf
    requires v.free != [] && s == v.free[0] && s < |v.keys|
    ensures Named(Inserted(v, hash, s, key))
  {
    hide Partitioned, RefsCoherent, NamesCoherent;
    FreeSlotFacts(v, hash, s);
    BumpFlips(v.generations[s]);
    var w := Inserted(v, hash, s, key);
    assert forall i: nat :: Live(w, i) <==> i == s || Live(v, i);
    forall i: nat | Live(w, i) ensures KeyResolves(w, w.keys[i]) {}
    assert forall k :: KeyResolves(v, k) ==> Portable(w, k) == Portable(v, k);
  }

  /** Slot `s` goes live with `key`: exactly its rule and its node gain a user. */
  ghost predicate GoesLive(v: Image, w: Image, s: nat, key: CompactKey) {
    && |v.keys| == |v.generations| == |w.generations| && s < |v.keys| && w.keys == v.keys[s := key]
    && !Live(v, s) && forall i: nat :: Live(w, i) <==> i == s || Live(v, i)
  }

  lemma RuleUsersGrow(v: Image, w: Image, s: nat, key: CompactKey, x: nat)
    requires GoesLive(v, w, s, key)
    ensures |RuleUsers(w, x)| == |RuleUsers(v, x)| + if x == key.rule then 1 else 0
  {
    if x == key.rule {
      assert RuleUsers(w, x) == RuleUsers(v, x) + {s};
    } else {
      assert RuleUsers(w, x) == RuleUsers(v, x);
    }
  }

  lemma NodeUsersGrow(v: Image, w: Image, s: nat, key: CompactKey, x: nat)
    requires GoesLive(v, w, s, key)
    ensures |NodeUsers(w, x)| == |NodeUsers(v, x)| + if x == key.origin then 1 else 0
  {
    if x == key.origin {
      assert NodeUsers(w, x) == NodeUsers(v, x) + {s};
    } else {
      assert NodeUsers(w, x) == NodeUsers(v, x);
    }
  }

  lemma InsertedRefs(v: Image, hash: CompactKey -> nat, s: nat, key: CompactKey)
    requires Coherent(v, hash) && KeyResolves(v, key)
    requires v.free != [] && s == v.free[0] && s < |v.keys|
    ensures RefsCoherent(Inserted(v, hash, s, key))
  {
    hide Partitioned, Named, NamesCoherent, Portable, RuleUsers, NodeUsers;
    FreeSlotFacts(v, hash, s);
    var w := Inserted(v, hash, s, key);
    BumpFlips(v.generations[s]);
    forall x: nat
      ensures |RuleUsers(w, x)| == |RuleUsers(v, x)| + if x == key.rule then 1 else 0
      ensures |NodeUsers(w, x)| == |NodeUsers(v, x)| + if x == key.origin then 1 else 0
    {
      RuleUsersGrow(v, w, s, key, x);
      NodeUsersGrow(v, w, s, key, x);
    }
  }

  /** Inserting under interned rule and node slots keeps the store coherent. */
  lemma InsertedCoherent(v: Image, hash: CompactKey -> nat, s: nat, key: CompactKey)
    requires Coherent(v, hash) && KeyResolves(v, key) && Portable(v, key) !in v.slotOf
    requires v.free != [] && s == v.free[0] && s !in v.free[1..] && s < |v.keys|
    requires v.rules[key.rule].fingerprint in v.ruleSlotOf && v.ruleSlotOf[v.rules[key.rule].fingerprint] == key.rule
    requires v.nodes[key.origin] in v.nodeSlotOf && v.nodeSlotOf[v.nodes[key.origin]] == key.origin
    ensures Coherent(Inserted(v, hash, s, key), hash)
  {
    hide Partitioned, Named, RefsCoherent;
    InsertedPartition(v, hash, s, key);
    InsertedNamed(v, hash, s, key);
    InsertedRefs(v, hash, s, key);
  }

  /** The cell in slot `s` gone, with a rule or node slot that loses its last reference released too. */
  ghost function Released(v: Image, hash: CompactKey -> nat, s: nat, noRule: RuleDescriptor,
                          noNode: NodeDescriptor): Image
    requires Coherent(v, hash) && Live(v, s)
  {
    UserKeepsSlots(v, hash, s);
    var key := v.keys[s];
    var lastRule := v.ruleRefs[key.rule] == 1;
    var lastNode := v.nodeRefs[key.origin] == 1;
    v.(generations := v.generations[s := Bump(v.generations[s])],
       free := [s] + v.free,
       entries := v.entries - {s},
       slotOf := v.slotOf - {Portable(v, key)},
       rules := if lastRule then v.rules[key.rule := noRule] else v.rules,
       ruleRefs := v.ruleRefs[key.rule := v.ruleRefs[key.rule] - 1],
       ruleSlotOf := if lastRule then v.ruleSlotOf - {v.rules[key.rule].fingerprint} else v.ruleSlotOf,
       nodes := if lastNode then v.nodes[key.origin := noNode] else v.nodes,
       nodeRefs := v.nodeRefs[key.origin := v.nodeRefs[key.origin] - 1],
       nodeSlotOf := if lastNode then v.nodeSlotOf - {v.nodes[key.origin]} else v.nodeSlotOf)
  }

  /** Cells that stay live keep their identity: a released dictionary slot had no other user. */
  lemma ReleasedKeepsOthers(v: Image, hash: CompactKey -> nat, s: nat, noRule: RuleDescriptor, noNode: NodeDescriptor,
                            i: nat)
    requires Coherent(v, hash) && Live(v, s) && Live(v, i) && i != s
    ensures
      var w := Released(v, hash, s, noRule, noNode);
      KeyResolves(w, v.keys[i]) && Portable(w, v.keys[i]) == Portable(v, v.keys[i])
    ensures
      var w := Released(v, hash, s, noRule, noNode);
      w.rules[v.keys[i].rule] == v.rules[v.keys[i].rule]
  {
    hide Partitioned, Named, NamesCoherent;
    UserKeepsSlots(v, hash, s);
    UserKeepsSlots(v, hash, i);
    if v.keys[i].rule == v.keys[s].rule {
      assert {s, i} <= RuleUsers(v, v.keys[s].rule);
      SubsetCardinality({s, i}, RuleUsers(v, v.keys[s].rule));
    }
    if v.keys[i].origin == v.keys[s].origin {
      assert {s, i} <= NodeUsers(v, v.keys[s].origin);
      SubsetCardinality({s, i}, NodeUsers(v, v.keys[s].origin));
    }
  }

  lemma ReleasedPartition(v: Image, hash: CompactKey -> nat, s: nat, noRule: RuleDescriptor, noNode: NodeDescriptor)
    requires Coherent(v, hash) && Live(v, s)
    ensures Partitioned(Released(v, hash, s, noRule, noNode), hash)
  {
    hide Named, RefsCoherent, NamesCoherent, Portable;
    UserKeepsSlots(v, hash, s);
    var w := Released(v, hash, s, noRule, noNode);
    BumpFlips(v.generations[s]);
    assert forall i: nat :: Live(w, i) <==> i != s && Live(v, i);
  }

  lemma ReleasedNamed(v: Image, hash: CompactKey -> nat, s: nat, noRule: RuleDescriptor, noNode: NodeDescriptor)
    requires Coherent(v, hash) && Live(v, s)
    ensures Named(Released(v, hash, s, noRule, noNode))
  {
    hide Partitioned, RefsCoherent, NamesCoherent;
    UserKeepsSlots(v, hash, s);
    var w := Released(v, hash, s, noRule, noNode);
    BumpFlips(v.generations[s]);
    assert forall i: nat :: Live(w, i) <==> i != s && Live(v, i);
    forall i: nat | Live(w, i)
      ensures KeyResolves(w, w.keys[i]) && Portable(w, w.keys[i]) == Portable(v, v.keys[i])
    {
      ReleasedKeepsOthers(v, hash, s, noRule, noNode, i);
    }
  }

  lemma ReleasedRefs(v: Image, hash: CompactKey -> nat, s: nat, noRule: RuleDescriptor, noNode: NodeDescriptor)
    requires Coherent(v, hash) && Live(v, s)
    ensures RefsCoherent(Released(v, hash, s, noRule, noNode))
  {
    hide Partitioned, Named, NamesCoherent, Portable, RuleUsers, NodeUsers;
    UserKeepsSlots(v, hash, s);
    var w := Released(v, hash, s, noRule, noNode);
    var key := v.keys[s];
    BumpFlips(v.generations[s]);
    assert w.keys[s := key] == w.keys;
    forall x: nat
      ensures |RuleUsers(v, x)| == |RuleUsers(w, x)| + if x == key.rule then 1 else 0
      ensures |NodeUsers(v, x)| == |NodeUsers(w, x)| + if x == key.origin then 1 else 0
    {
      RuleUsersGrow(w, v, s, key, x);
      NodeUsersGrow(w, v, s, key, x);
    }
  }

  lemma ReleasedNames(v: Image, hash: CompactKey -> nat, s: nat, noRule: RuleDescriptor, noNode: NodeDescriptor)
    requires Coherent(v, hash) && Live(v, s)
    ensures NamesCoherent(Released(v, hash, s, noRule, noNode))
  {
    hide Partitioned, Named, Portable, RuleUsers, NodeUsers;
    UserKeepsSlots(v, hash, s);
  }

  /** Freeing a cell keeps the store coherent. */
  lemma ReleasedCoherent(v: Image, hash: CompactKey -> nat, s: nat, noRule: RuleDescriptor, noNode: NodeDescriptor)
    requires Coherent(v, hash) && Live(v, s)
    ensures Coherent(Released(v, hash, s, noRule, noNode), hash)
  {
    hide Partitioned, Named, RefsCoherent, NamesCoherent;
    ReleasedPartition(v, hash, s, noRule, noNode);
    ReleasedNamed(v, hash, s, noRule, noNode);
    ReleasedRefs(v, hash, s, noRule, noNode);
    ReleasedNames(v, hash, s, noRule, noNode);
  }

  /** A node slot with one reference has no other user. */
  lemma SoleUser(v: Image, hash: CompactKey -> nat, s: nat)
    requires Coherent(v, hash) && Live(v, s) && v.nodeRefs[v.keys[s].origin] == 1
    ensures forall j: nat :: Live(v, j) && j != s ==> v.keys[j].origin != v.keys[s].origin
  {
    hide Partitioned, Named, NamesCoherent;
    UserKeepsSlots(v, hash, s);
    forall j: nat | Live(v, j) && j != s ensures v.keys[j].origin != v.keys[s].origin {
      if v.keys[j].origin == v.keys[s].origin {
        assert {s, j} <= NodeUsers(v, v.keys[s].origin);
        SubsetCardinality({s, j}, NodeUsers(v, v.keys[s].origin));
      }
    }
  }

  /** Freeing a cell forgets at most its own rule, and never a pinned one. */
  lemma ReleasedRules(v: Image, hash: CompactKey -> nat, s: nat, noRule: RuleDescriptor, noNode: NodeDescriptor)
    requires Coherent(v, hash) && Live(v, s)
    requires forall fp :: fp in v.ruleSlotOf ==>
              v.ruleSlotOf[fp] < |v.rules| && v.rules[v.ruleSlotOf[fp]].fingerprint == fp
    ensures
      var w := Released(v, hash, s, noRule, noNode);
      var before, after := Known(v.ruleSlotOf, v.rules), Known(w.ruleSlotOf, w.rules);
      && after.Keys <= before.Keys && (forall fp :: fp in after ==> after[fp] == before[fp])
      && PinnedKnown(w.ruleSlotOf, w.rules, w.rulePins) == PinnedKnown(v.ruleSlotOf, v.rules, v.rulePins)
  {
    hide Partitioned, Named, Portable;
    UserKeepsSlots(v, hash, s);
    var w := Released(v, hash, s, noRule, noNode);
    var r := v.keys[s].rule;
    if r in v.rulePins {
      assert s in RuleUsers(v, r);
    }
    assert v.ruleRefs[r] == 1 ==> r !in v.rulePins;
  }

  /** The local node's slot is pinned too. */
  lemma LocalNodeStays(v: Image, hash: CompactKey -> nat, s: nat, noRule: RuleDescriptor, noNode: NodeDescriptor,
                       self: NodeDescriptor)
    requires Coherent(v, hash) && Live(v, s)
    requires self in v.nodeSlotOf && v.nodeSlotOf[self] == v.localSlot
    ensures
      var w := Released(v, hash, s, noRule, noNode);
      self in w.nodeSlotOf && w.nodeSlotOf[self] == v.localSlot
  {
    UserKeepsSlots(v, hash, s);
    assert s in NodeUsers(v, v.keys[s].origin);
  }

  lemma BumpFlips(g: nat)
    requires g <= U32_MAX
    ensures Odd(Bump(g)) <==> !Odd(g)
  {
  }

  /** A store without live cells: only the local node's pin is counted. */
  lemma EmptyCoherent(v: Image, hash: CompactKey -> nat)
    requires |v.keys| == |v.generations| && |v.rules| == |v.ruleRefs| && |v.nodes| == |v.nodeRefs|
    requires forall i: nat :: i < |v.generations| ==> v.generations[i] == 0 && i in v.free
    requires v.entries == map[] && v.slotOf == map[] && v.rulePins == {}
    requires forall r: nat :: r < |v.ruleRefs| ==> v.ruleRefs[r] == 0
    requires forall n: nat :: n < |v.nodeRefs| ==> v.nodeRefs[n] == if n == v.localSlot then 1 else 0
    requires v.localSlot < |v.nodes| ==>
               v.nodes[v.localSlot] in v.nodeSlotOf && v.nodeSlotOf[v.nodes[v.localSlot]] == v.localSlot
    ensures Coherent(v, hash)
  {
    forall x: nat ensures RuleUsers(v, x) == {} && NodeUsers(v, x) == {} {}
  }

  /** A refcount never exceeds the number of slots plus one, so its saturating increment is exact. */
  lemma RefsBounded(v: Image, hash: CompactKey -> nat, r: nat, n: nat)
    requires Coherent(v, hash) && r < |v.rules| && n < |v.nodes|
    ensures |v.rules| == |v.ruleRefs| && |v.nodes| == |v.nodeRefs|
    ensures v.ruleRefs[r] <= |v.keys| + 1 && v.nodeRefs[n] <= |v.keys| + 1
  {
    UptoCardinality(|v.keys|);
    forall i | i in RuleUsers(v, r) + NodeUsers(v, n) ensures i in Upto(|v.keys|) {
      assert Below(i, |v.keys|);
    }
    SubsetCardinality(RuleUsers(v, r), Upto(|v.keys|));
    SubsetCardinality(NodeUsers(v, n), Upto(|v.keys|));
  }

  /** References and partition do not depend on what the dictionaries say. */
  lemma SameSlots(v: Image, w: Image, hash: CompactKey -> nat)
    requires Partitioned(v, hash) && RefsCoherent(v)
    requires w.keys == v.keys && w.generations == v.generations && w.free == v.free && w.entries == v.entries
    requires |w.rules| == |v.rules| && |w.nodes| == |v.nodes|
    requires w.ruleRefs == v.ruleRefs && w.nodeRefs == v.nodeRefs && w.rulePins == v.rulePins
    requires w.localSlot == v.localSlot
    ensures Partitioned(w, hash) && RefsCoherent(w)
  {
    assert Partitioned(w, hash) by {
      hide RefsCoherent;
      assert forall i: nat :: Live(w, i) <==> Live(v, i);
    }
    assert RefsCoherent(w) by {
      hide Partitioned;
      forall x: nat ensures RuleUsers(w, x) == RuleUsers(v, x) && NodeUsers(w, x) == NodeUsers(v, x) {}
    }
  }

  /** Live cells keep their names when their own rule and node entries keep theirs. */
  lemma SameNames(v: Image, w: Image)
    requires Named(v) && w.keys == v.keys && w.generations == v.generations && w.slotOf == v.slotOf
    requires forall i: nat :: Live(v, i) ==>
              KeyResolves(w, v.keys[i]) && Portable(w, v.keys[i]) == Portable(v, v.keys[i])
    ensures Named(w)
  {
    assert forall i: nat :: Live(w, i) <==> Live(v, i);
  }

  /** A rule descriptor is (re)written under its own fingerprint, in a slot nothing refers to or in
      the slot that fingerprint already has. */
  ghost function RuleWritten(v: Image, r: nat, d: RuleDescriptor): Image
    requires r < |v.rules|
  {
    v.(rules := v.rules[r := d], ruleSlotOf := v.ruleSlotOf[d.fingerprint := r])
  }

  lemma RuleWrittenCoherent(v: Image, hash: CompactKey -> nat, r: nat, d: RuleDescriptor)
    requires Coherent(v, hash) && r < |v.rules|
    requires if d.fingerprint in v.ruleSlotOf
              then v.ruleSlotOf[d.fingerprint] == r && v.rules[r].fingerprint == d.fingerprint
             else v.ruleRefs[r] == 0
    ensures Coherent(RuleWritten(v, r, d), hash)
  {
    hide Partitioned, Named, RefsCoherent;
    Lengths(v, hash);
    var w := RuleWritten(v, r, d);
    SameSlots(v, w, hash);
    forall i: nat | Live(v, i)
      ensures KeyResolves(w, v.keys[i]) && KeyResolves(v, v.keys[i]) && Portable(w, v.keys[i]) == Portable(v, v.keys[i])
    {
      UserKeepsSlots(v, hash, i);
    }
    SameNames(v, w);
  }

  /** Interned fingerprints have slots of their own. */
  ghost predicate SlotsNamed(v: Image) {
    forall fp :: fp in v.ruleSlotOf ==> v.ruleSlotOf[fp] < |v.rules| && v.rules[v.ruleSlotOf[fp]].fingerprint == fp
  }

  ghost function PinnedOf(v: Image): map<nat, PinnedRule> {
    PinnedKnown(v.ruleSlotOf, v.rules, v.rulePins)
  }

  ghost function Rewritten(pinned: map<nat, PinnedRule>, d: RuleDescriptor): map<nat, PinnedRule> {
    if d.fingerprint in pinned then pinned[d.fingerprint := pinned[d.fingerprint].(descriptor := d)] else pinned
  }

  /** Writing a descriptor replaces a pinned rule's own one and no other. */
  lemma RuleWrittenPins(v: Image, hash: CompactKey -> nat, r: nat, d: RuleDescriptor)
    requires Coherent(v, hash) && r < |v.rules| && SlotsNamed(v)
    requires if d.fingerprint in v.ruleSlotOf then v.ruleSlotOf[d.fingerprint] == r
              else r < |v.ruleRefs| && v.ruleRefs[r] == 0
    ensures PinnedOf(RuleWritten(v, r, d)) == Rewritten(PinnedOf(v), d)
  {
    hide Partitioned, Named, NamesCoherent;
    assert d.fingerprint !in v.ruleSlotOf ==> r !in v.rulePins;
  }

  lemma RulePinnedPins(v: Image, r: nat, fp: nat)
    requires r < |v.rules| && r < |v.ruleRefs| && SlotsNamed(v) && fp in v.ruleSlotOf && v.ruleSlotOf[fp] == r
    ensures PinnedOf(RulePinned(v, r)) == PinnedOf(v)[fp := PinnedRule(r, v.rules[r])]
  {
  }

  ghost function NodeWritten(v: Image, n: nat, d: NodeDescriptor): Image
    requires n < |v.nodes|
  {
    v.(nodes := v.nodes[n := d], nodeSlotOf := v.nodeSlotOf[d := n])
  }

  lemma NodeWrittenCoherent(v: Image, hash: CompactKey -> nat, n: nat, d: NodeDescriptor)
    requires Coherent(v, hash) && n < |v.nodes|
    requires if d in v.nodeSlotOf then v.nodeSlotOf[d] == n && v.nodes[n] == d else v.nodeRefs[n] == 0
    ensures Coherent(NodeWritten(v, n, d), hash)
  {
    hide Partitioned, Named, RefsCoherent;
    Lengths(v, hash);
    var w := NodeWritten(v, n, d);
    SameSlots(v, w, hash);
    forall i: nat | Live(v, i)
      ensures KeyResolves(w, v.keys[i]) && KeyResolves(v, v.keys[i]) && Portable(w, v.keys[i]) == Portable(v, v.keys[i])
    {
      UserKeepsSlots(v, hash, i);
      assert v.keys[i].origin == n ==> v.nodes[n] == d;
    }
    SameNames(v, w);
  }

  /** The pin taken when a configured rule is registered on a fresh slot. */
  ghost function RulePinned(v: Image, r: nat): Image
    requires r < |v.ruleRefs|
  {
    v.(ruleRefs := v.ruleRefs[r := v.ruleRefs[r] + 1], rulePins := v.rulePins + {r})
  }

  lemma RulePinnedRefs(v: Image, r: nat)
    requires RefsCoherent(v) && r < |v.ruleRefs| && v.ruleRefs[r] == 0
    ensures RefsCoherent(RulePinned(v, r))
  {
    var w := RulePinned(v, r);
    forall x: nat ensures RuleUsers(w, x) == RuleUsers(v, x) && NodeUsers(w, x) == NodeUsers(v, x) {}
  }

  lemma RulePinnedCoherent(v: Image, hash: CompactKey -> nat, r: nat)
    requires Coherent(v, hash) && r < |v.rules| && r < |v.ruleRefs| && v.ruleRefs[r] == 0
    requires v.rules[r].fingerprint in v.ruleSlotOf && v.ruleSlotOf[v.rules[r].fingerprint] == r
    ensures Coherent(RulePinned(v, r), hash)
  {
    hide Partitioned, Named, RefsCoherent, NamesCoherent;
    RulePinnedRefs(v, r);
    RulePinnedSlots(v, hash, r);
    RulePinnedNames(v, r);
  }

  lemma RulePinnedSlots(v: Image, hash: CompactKey -> nat, r: nat)
    requires Partitioned(v, hash) && Named(v) && r < |v.ruleRefs|
    ensures Partitioned(RulePinned(v, r), hash) && Named(RulePinned(v, r))
  {
    assert Partitioned(RulePinned(v, r), hash) by {
      hide Named;
      assert forall i: nat :: Live(RulePinned(v, r), i) <==> Live(v, i);
    }
    hide Partitioned;
    SameNames(v, RulePinned(v, r));
  }

  lemma RulePinnedNames(v: Image, r: nat)
    requires NamesCoherent(v) && r < |v.rules| && r < |v.ruleRefs|
    requires v.rules[r].fingerprint in v.ruleSlotOf && v.ruleSlotOf[v.rules[r].fingerprint] == r
    ensures NamesCoherent(RulePinned(v, r))
  {
  }
}
