/** The server's request path end to end: decide on the aggregate, then record every planned hit through
    the runtime, each applied before the next. */
module Server {
  import opened Base
  import opened Cells
  import opened Counters
  import opened Aggregates
  import opened CellStores
  import opened Clusters
  import opened Admission
  import opened Enforcement
  import opened Registration
  import opened Runtimes

  function IdentityOf(p: Record): CellIdentity {
    CellIdentity(p.fingerprint, p.key, p.bucket)
  }

  /** The node goes from `n` to `next` by recording one planned hit. */
  ghost predicate RecordedStep(rt: Runtime, n: Node, p: Record, taken: bool, next: Node) {
    && Takes(n, BatchOf(Hit(rt.store.self, IdentityOf(p), p.hits, taken), rt.store.countMax), next, rt.store.countMax)
    && Within(n.counts, rt.store.countMax) && |n.counts| <= CELL_BOUND && |next.counts| <= CELL_BOUND
  }

  ghost predicate RecordedChain(rt: Runtime, plan: seq<Record>, taken: seq<bool>, nodes: seq<Node>) {
    && |nodes| == |taken| + 1 && |taken| <= |plan|
    && forall i :: 0 <= i < |taken| ==> RecordedStep(rt, nodes[i], plan[i], taken[i], nodes[i + 1])
  }

  lemma ChainMore(rt: Runtime, plan: seq<Record>, taken: seq<bool>, nodes: seq<Node>, took: bool, next: Node)
    requires RecordedChain(rt, plan, taken, nodes) && |taken| < |plan|
    requires RecordedStep(rt, nodes[|taken|], plan[|taken|], took, next)
    ensures RecordedChain(rt, plan, taken + [took], nodes + [next])
  {
  }

  /** `evaluate`: the decision is the one the aggregate calls for, and the node ends where recording the
      plan, hit by hit, takes it; a rejected request changes nothing. */
  method Evaluate(rt: Runtime, table: seq<Rule>, req: Request)
    returns (d: Decision, plan: seq<Record>, ghost nodes: seq<Node>, ghost taken: seq<bool>)
    requires rt.Valid() && Usable(table)
    modifies rt.store, rt.store.index, rt.store.index.slotIndexes, rt.store.index.hashes
    modifies rt.store.ruleDictionary, rt.store.ruleDictionary.index, rt.store.ruleDictionary.index.slotIndexes,
      rt.store.ruleDictionary.index.hashes
    modifies rt.store.nodeDictionary, rt.store.nodeDictionary.index, rt.store.nodeDictionary.index.slotIndexes,
      rt.store.nodeDictionary.index.hashes
    modifies rt.store.localDirty, rt.store.localDirty.entries, rt.store.forwardedDirty, rt.store.forwardedDirty.entries
    modifies rt.aggregates
    ensures rt.Valid() && Usable(Matching(table, req))
    ensures Decided(old(rt.aggregates.cells), Matching(table, req), req, d, plan)
    ensures |taken| == |plan| && RecordedChain(rt, plan, taken, nodes)
    ensures nodes[0] == old(rt.AsNode()) && nodes[|plan|] == rt.AsNode()
    ensures d.Reject? ==> rt.AsNode() == old(rt.AsNode())
    ensures old(rt.Agreed()) && rt.store.countMax <= U32_MAX ==> rt.Agreed()
  {
    hide Runtime.Valid, Runtime.AsNode, Runtime.Agreed, RecordedStep, RecordedChain, Decided, CellStore.Repr;
    PartsExist(rt.store);
    d, plan := Decide(rt.aggregates, table, req);
    nodes, taken := [rt.AsNode()], [];
    NothingRecorded(rt, plan, nodes[0]);
    for i := 0 to |plan|
      invariant rt.Valid() && |taken| == i && |nodes| == i + 1 && RecordedChain(rt, plan, taken, nodes)
      invariant nodes[0] == old(rt.AsNode()) && nodes[i] == rt.AsNode()
      invariant old(rt.Agreed()) && rt.store.countMax <= U32_MAX ==> rt.Agreed()
    {
      var took := RecordHit(rt, plan[i], req.now);
      ChainMore(rt, plan, taken, nodes, took, rt.AsNode());
      nodes, taken := nodes + [rt.AsNode()], taken + [took];
    }
    RejectPlansNothing(old(rt.aggregates.cells), Matching(table, req), req, d, plan);
  }

  lemma NothingRecorded(rt: Runtime, plan: seq<Record>, n: Node)
    ensures RecordedChain(rt, plan, [], [n])
  {
  }

  lemma RejectPlansNothing(a: Aggregate, ms: seq<Rule>, req: Request, d: Decision, plan: seq<Record>)
    requires Usable(ms) && Decided(a, ms, req, d, plan)
    ensures d.Reject? ==> plan == []
  {
  }

  method RecordHit(rt: Runtime, p: Record, now: nat) returns (ghost taken: bool)
    requires rt.Valid()
    modifies rt.store, rt.store.index, rt.store.index.slotIndexes, rt.store.index.hashes
    modifies rt.store.ruleDictionary, rt.store.ruleDictionary.index, rt.store.ruleDictionary.index.slotIndexes,
      rt.store.ruleDictionary.index.hashes
    modifies rt.store.nodeDictionary, rt.store.nodeDictionary.index, rt.store.nodeDictionary.index.slotIndexes,
      rt.store.nodeDictionary.index.hashes
    modifies rt.store.localDirty, rt.store.localDirty.entries, rt.store.forwardedDirty, rt.store.forwardedDirty.entries
    modifies rt.aggregates
    ensures rt.Valid() && RecordedStep(rt, old(rt.AsNode()), p, taken, rt.AsNode())
    ensures old(rt.Agreed()) && rt.store.countMax <= U32_MAX ==> rt.Agreed()
  {
    hide Runtime.Valid, Runtime.Agreed, Takes, CellStore.Cells, CellStore.LocalRules;
    rt.CellsFit();
    taken := rt.HandleLimitRequest(IdentityOf(p), p.hits, now);
    rt.CellsFit();
  }

  /** Deciding a request, once the one before is recorded, is an `Admit` act. */
  lemma DecideAdmits(s: Setup, l: Limiter, req: Request, d: Decision, plan: seq<Record>)
    requires Configured(s) && req.process == s.process && req.shape in s.shapes && l.pending == []
    requires l.clock <= req.now && Timely(s, req.now) && Usable(Matching(s.table, req))
    requires Decided(l.node.aggregate, Matching(s.table, req), req, d, plan)
    ensures ActStep(s, l, Admit(req, d, plan), Admitted(s, l, req, d, plan))
  {
  }

  ghost function Admitted(s: Setup, l: Limiter, req: Request, d: Decision, plan: seq<Record>): Limiter
    requires Usable(Matching(s.table, req))
  {
    var admitted :=
      if d.Allow? then Credit(l.admitted, s.who, RecordsOf(Matching(s.table, req), req)) else l.admitted;
    Limiter(l.node, admitted, req.now, plan)
  }

  /** With narrow counts, a recorded hit that is not refused is a `Store` act, whenever it happens. */
  lemma RecordStores(rt: Runtime, s: Setup, l: Limiter, next: Node)
    requires Configured(s) && s.who == rt.store.self && s.max == rt.store.countMax <= U32_MAX
    requires l.pending != [] && RecordedStep(rt, l.node, l.pending[0], true, next)
    ensures ActStep(s, l, Store, l.(node := next, pending := l.pending[1..]))
  {
    hide Takes, TakesFitting, Within;
    NarrowTakesFit(l.node, RecordBatch(s.who, l.pending[0], s.max), next, s.max);
  }

  lemma {:induction false} ChainStores(rt: Runtime, s: Setup, l: Limiter, taken: seq<bool>, nodes: seq<Node>)
    returns (states: seq<Limiter>, acts: seq<Act>)
    requires Configured(s) && s.who == rt.store.self && s.max == rt.store.countMax <= U32_MAX
    requires RecordedChain(rt, l.pending, taken, nodes) && |taken| == |l.pending| && nodes[0] == l.node
    requires forall i :: 0 <= i < |taken| ==> taken[i]
    ensures Steps(s, states, acts) && states[0] == l
    ensures states[|acts|] == l.(node := nodes[|taken|], pending := [])
    decreases |l.pending|
  {
    if l.pending == [] {
      states, acts := [l], [];
    } else {
      hide RecordedStep, Configured, ActStep;
      var mid := l.(node := nodes[1], pending := l.pending[1..]);
      assert RecordedStep(rt, nodes[0], l.pending[0], taken[0], nodes[1]);
      RecordStores(rt, s, l, nodes[1]);
      forall i | 0 <= i < |taken[1..]|
        ensures RecordedStep(rt, nodes[1..][i], mid.pending[i], taken[1..][i], nodes[1..][i + 1])
      {
        assert RecordedStep(rt, nodes[i + 1], l.pending[i + 1], taken[i + 1], nodes[i + 2]);
      }
      var rest, more := ChainStores(rt, s, mid, taken[1..], nodes[1..]);
      StepFirst(s, l, Store, rest, more);
      states, acts := [l] + rest, [Store] + more;
    }
  }

  /** What `evaluate` does on a node with narrow counts, when nothing is refused, is an `Admit` act and one
      `Store` act per recorded hit: the limits proved for those runs hold for this code. */
  lemma EvaluateServes(rt: Runtime, s: Setup, l: Limiter, req: Request, d: Decision, plan: seq<Record>,
                       taken: seq<bool>, nodes: seq<Node>) returns (states: seq<Limiter>, acts: seq<Act>)
    requires Configured(s) && s.who == rt.store.self && s.max == rt.store.countMax <= U32_MAX
    requires req.process == s.process && req.shape in s.shapes && l.pending == []
    requires l.clock <= req.now && Timely(s, req.now) && Usable(Matching(s.table, req))
    requires Decided(l.node.aggregate, Matching(s.table, req), req, d, plan)
    requires RecordedChain(rt, plan, taken, nodes) && |taken| == |plan| && nodes[0] == l.node
    requires forall i :: 0 <= i < |taken| ==> taken[i]
    ensures Steps(s, states, acts) && states[0] == l
    ensures states[|acts|] == Admitted(s, l, req, d, plan).(node := nodes[|plan|], pending := [])
  {
    hide RecordedStep, Decided, Matching, Credit, RecordsOf, Configured, ActStep;
    DecideAdmits(s, l, req, d, plan);
    var mid := Admitted(s, l, req, d, plan);
    var rest, more := ChainStores(rt, s, mid, taken, nodes);
    StepFirst(s, l, Admit(req, d, plan), rest, more);
    states, acts := [l] + rest, [Admit(req, d, plan)] + more;
  }

  /** What `handle_inbound` does on such a node is a `Merge` act, whatever the packet and whatever was
      refused. */
  lemma InboundMerges(rt: Runtime, s: Setup, l: Limiter, obs: seq<Observation>, took: seq<bool>, next: Node)
    requires Configured(s) && s.max == rt.store.countMax <= U32_MAX && |took| == |obs|
    requires Takes(l.node, BatchOf(Deliver(rt.store.self, PacketOf(obs), took), s.max), next, s.max)
    requires Within(l.node.counts, s.max) && |l.node.counts| <= CELL_BOUND && |next.counts| <= CELL_BOUND
    ensures ActStep(s, l, Merge(PacketOf(obs), took), l.(node := next))
  {
    hide Takes, TakesFitting, Within;
    NarrowTakesFit(l.node, Absorbed(Merges(PacketOf(obs)), took), next, s.max);
  }

  /** What the sweep of `handle_gossip_tick` does is an `Expire` act when the store knows the table's rules
      with the windows they are read with. Rules heard of on the wire may be known besides. */
  lemma TickExpires(s: Setup, l: Limiter, batch: Batch, next: Node)
    requires Configured(s) && s.max <= U32_MAX && batch.Expiry?
    requires forall r :: r in s.table ==> Registered(r, batch.rules)
    requires l.clock <= batch.now && Timely(s, batch.now)
    requires Takes(l.node, batch, next, s.max)
    requires Within(l.node.counts, s.max) && |l.node.counts| <= CELL_BOUND && |next.counts| <= CELL_BOUND
    ensures ActStep(s, l, Expire(batch), l.(node := next, clock := batch.now))
  {
    hide Takes, TakesFitting, Within, Registered, Timely;
    NarrowTakesFit(l.node, batch, next, s.max);
  }

  /** A rule registered with a window that fits 32 bits is swept with it; pins are the same after every handler. */
  lemma PinnedRegisters(rt: Runtime, r: Rule)
    requires rt.Valid() && r.fingerprint in rt.store.PinnedRules()
    requires rt.store.PinnedRules()[r.fingerprint].descriptor == DescriptorOf(r)
    requires 0 < r.bucketMillis <= U32_MAX && r.windowMillis <= U32_MAX
    ensures Registered(r, rt.store.KnownRules())
  {
    hide Runtime.Valid, CellStore.PinnedRules, CellStore.KnownRules;
    PinnedAreKnown(rt.store);
  }
}
