/** Stacked rules in the nginx adapter (`access.rs`): one outcome per configured rule, folded into one
    decision for the request. */
module Access {
  import opened Base
  import opened Windows

  const MAX_MATCHED_RULES: nat := 16

  datatype Mode = Enforce | DryRun | Disabled

  datatype Spec = Spec(id: nat, fingerprint: nat, limit: nat, windowMillis: nat, bucketMillis: nat, liveBuckets: nat)

  /** What a variable resolves to. */
  datatype Value = Value(len: nat, utf8: bool)

  datatype Binding = Binding(keyLen: nat, value: Option<Value>)

  /** A rule with its variables looked up for this request; `exempt` when `except_if=` is truthy. */
  datatype Bound = Bound(spec: Spec, mode: Mode, exempt: bool, bindings: seq<Binding>)

  /** The shared-memory reads and the request's fixed inputs. */
  datatype Context = Context(
    domainLen: nat, maxBytes: nat, now: nat,
    keyOf: Spec -> nat, total: Spec -> nat, retryMillis: (Spec, nat) -> nat)

  datatype QueueEvent = QueueEvent(fingerprint: nat, key: nat, bucket: nat, hits: nat, limit: nat, now: nat)

  datatype RejectInfo = RejectInfo(spec: Spec, total: nat, now: nat, delta: nat)
  datatype Snapshot = Snapshot(spec: Spec, remaining: nat)

  datatype Outcome =
    | Allows(snapshot: Snapshot, event: QueueEvent)
    | Rejects(info: RejectInfo)
    | Declines
    | TooLong
    | Exempt(id: nat)

  datatype Decision = Allow(quota: Option<Snapshot>) | Reject(info: RejectInfo) | Cardinality | Decline

  // -- One rule ---------------------------------------------------------------------------------

  /** Descriptor bytes up to and including the first `n` bindings. */
  ghost function Bytes(c: Context, bs: seq<Binding>, n: nat): nat
    requires n <= |bs|
  {
    if n == 0 then c.domainLen
    else
      var b := bs[n - 1];
      SatAdd(SatAdd(Bytes(c, bs, n - 1), b.keyLen, U64_MAX), if b.value.Some? then b.value.value.len else 0, U64_MAX)
  }

  ghost predicate Passes(c: Context, bs: seq<Binding>, i: nat)
    requires i < |bs|
  {
    bs[i].value.Some? && Bytes(c, bs, i + 1) <= c.maxBytes && bs[i].value.value.utf8
  }

  /** The first binding that stops the rule, if any. */
  ghost predicate StopsAt(c: Context, bs: seq<Binding>, i: nat) {
    i < |bs| && !Passes(c, bs, i) && forall j :: 0 <= j < i ==> Passes(c, bs, j)
  }

  ghost function StopOutcome(c: Context, bs: seq<Binding>, i: nat): Outcome
    requires i < |bs|
  {
    if bs[i].value.Some? && Bytes(c, bs, i + 1) > c.maxBytes then TooLong else Declines
  }

  /** A rule whose descriptors are all there. */
  ghost function Evaluated(c: Context, r: Bound): Outcome
    requires r.spec.bucketMillis > 0
  {
    var total := c.total(r.spec);
    if r.mode == Disabled then Declines
    else if SatAdd(total, 1, U64_MAX) > r.spec.limit && r.mode == Enforce then
      Rejects(RejectInfo(r.spec, total, c.now, c.retryMillis(r.spec, total)))
    else
      Allows(Snapshot(r.spec, SatSub(SatSub(r.spec.limit, total), 1)),
             QueueEvent(r.spec.fingerprint, c.keyOf(r.spec), Epoch(c.now, r.spec.bucketMillis), 1, r.spec.limit, c.now))
  }

  /** The per-rule outcome: an unknown index declines, the exemption comes before the descriptors, the
      first bad descriptor decides, and only then is the window read. */
  ghost predicate OutcomeIs(c: Context, rule: Option<Bound>, o: Outcome) {
    if rule.None? then o == Declines
    else if rule.value.exempt then o == Exempt(rule.value.spec.id)
    else if exists i: nat :: StopsAt(c, rule.value.bindings, i) then
      exists i: nat :: StopsAt(c, rule.value.bindings, i) && o == StopOutcome(c, rule.value.bindings, i)
    else rule.value.spec.bucketMillis > 0 && o == Evaluated(c, rule.value)
  }

  /** Rules are compiled with a bucket of at least one millisecond. */
  predicate Compiled(rule: Option<Bound>) {
    rule.Some? ==> rule.value.spec.bucketMillis > 0
  }

  method DecideOne(c: Context, rule: Option<Bound>) returns (o: Outcome)
    requires Compiled(rule)
    ensures OutcomeIs(c, rule, o)
  {
    if rule.None? {
      return Declines;
    }
    var r := rule.value;
    if r.exempt {
      return Exempt(r.spec.id);
    }
    var bytes := c.domainLen;
    for i := 0 to |r.bindings|
      invariant bytes == Bytes(c, r.bindings, i)
      invariant forall j :: 0 <= j < i ==> Passes(c, r.bindings, j)
    {
      var b := r.bindings[i];
      if b.value.None? {
        assert StopsAt(c, r.bindings, i);
        return Declines;
      }
      bytes := SatAdd(SatAdd(bytes, b.keyLen, U64_MAX), b.value.value.len, U64_MAX);
      if bytes > c.maxBytes {
        assert StopsAt(c, r.bindings, i);
        return TooLong;
      }
      if !b.value.value.utf8 {
        assert StopsAt(c, r.bindings, i);
        return Declines;
      }
    }
    if r.mode == Disabled {
      return Declines;
    }
    var total := c.total(r.spec);
    if SatAdd(total, 1, U64_MAX) > r.spec.limit && r.mode == Enforce {
      return Rejects(RejectInfo(r.spec, total, c.now, c.retryMillis(r.spec, total)));
    }
    var event := QueueEvent(r.spec.fingerprint, c.keyOf(r.spec), Epoch(c.now, r.spec.bucketMillis), 1, r.spec.limit,
                            c.now);
    return Allows(Snapshot(r.spec, SatSub(SatSub(r.spec.limit, total), 1)), event);
  }

  // -- All rules --------------------------------------------------------------------------------

  function PickLongestWindow(current: Option<RejectInfo>, candidate: RejectInfo): RejectInfo {
    if current.Some? && current.value.spec.windowMillis >= candidate.spec.windowMillis then current.value else candidate
  }

  function PickMinRemaining(current: Option<Snapshot>, candidate: Snapshot): Snapshot {
    if current.Some?
       && (current.value.remaining < candidate.remaining
           || (current.value.remaining == candidate.remaining
               && current.value.spec.windowMillis >= candidate.spec.windowMillis))
    then current.value else candidate
  }

  /** `a` is reported in preference to `b`: less remaining, then the longer window. */
  predicate Tighter(a: Snapshot, b: Snapshot) {
    a.remaining < b.remaining || (a.remaining == b.remaining && a.spec.windowMillis >= b.spec.windowMillis)
  }

  /** The rejection of the longest window, the first one on a tie. */
  ghost predicate WorstAt(os: seq<Outcome>, i: nat) {
    && i < |os| && os[i].Rejects?
    && (forall j :: 0 <= j < |os| && os[j].Rejects? ==> os[j].info.spec.windowMillis <= os[i].info.spec.windowMillis)
    && (forall j :: 0 <= j < i && os[j].Rejects? ==> os[j].info.spec.windowMillis < os[i].info.spec.windowMillis)
  }

  /** The tightest allowance, the first one on a tie. */
  ghost predicate TightestAt(os: seq<Outcome>, i: nat) {
    && i < |os| && os[i].Allows?
    && (forall j :: 0 <= j < |os| && os[j].Allows? ==> Tighter(os[i].snapshot, os[j].snapshot))
    && (forall j :: 0 <= j < i && os[j].Allows? ==> !Tighter(os[j].snapshot, os[i].snapshot))
  }

  ghost predicate Any(os: seq<Outcome>, p: Outcome -> bool) {
    exists o :: o in os && p(o)
  }

  ghost predicate Worst(os: seq<Outcome>, w: Option<RejectInfo>) {
    if w.None? then !Any(os, (o: Outcome) => o.Rejects?) else exists i: nat :: WorstAt(os, i) && w.value == os[i].info
  }

  ghost predicate Tightest(os: seq<Outcome>, t: Option<Snapshot>) {
    if t.None? then !Any(os, (o: Outcome) => o.Allows?)
    else exists i: nat :: TightestAt(os, i) && t.value == os[i].snapshot
  }

  /** The events of the rules that allow, in rule order. */
  ghost function EventsOf(os: seq<Outcome>): seq<QueueEvent> {
    if os == [] then []
    else
      var before := EventsOf(os[..|os| - 1]);
      if os[|os| - 1].Allows? then before + [os[|os| - 1].event] else before
  }

  /** At most the buffer's worth, the earliest first. */
  ghost function Buffered(os: seq<Outcome>): seq<QueueEvent> {
    EventsOf(os)[..Min(|EventsOf(os)|, MAX_MATCHED_RULES)]
  }

  lemma WorstMore(os: seq<Outcome>, w: Option<RejectInfo>, o: Outcome)
    requires Worst(os, w)
    ensures Worst(os + [o], if o.Rejects? then Some(PickLongestWindow(w, o.info)) else w)
  {
    var more := os + [o];
    assert forall x :: x in more <==> x in os || x == o;
    if o.Rejects? {
      if w.None? {
        forall j | 0 <= j < |os| ensures !os[j].Rejects? {
          assert os[j] in os;
        }
        assert WorstAt(more, |os|);
      } else {
        var i: nat :| WorstAt(os, i) && w.value == os[i].info;
        assert WorstAt(more, if os[i].info.spec.windowMillis >= o.info.spec.windowMillis then i else |os|);
      }
    } else if w.Some? {
      var i: nat :| WorstAt(os, i) && w.value == os[i].info;
      assert WorstAt(more, i);
    }
  }

  lemma TightestMore(os: seq<Outcome>, t: Option<Snapshot>, o: Outcome)
    requires Tightest(os, t)
    ensures Tightest(os + [o], if o.Allows? then Some(PickMinRemaining(t, o.snapshot)) else t)
  {
    var more := os + [o];
    assert forall x :: x in more <==> x in os || x == o;
    if o.Allows? {
      if t.None? {
        forall j | 0 <= j < |os| ensures !os[j].Allows? {
          assert os[j] in os;
        }
        assert TightestAt(more, |os|);
      } else {
        var i: nat :| TightestAt(os, i) && t.value == os[i].snapshot;
        assert TightestAt(more, if Tighter(os[i].snapshot, o.snapshot) then i else |os|);
      }
    } else if t.Some? {
      var i: nat :| TightestAt(os, i) && t.value == os[i].snapshot;
      assert TightestAt(more, i);
    }
  }

  /** The decision for the request and what it offers to the queue. */
  ghost predicate Decided(os: seq<Outcome>, d: Decision, queued: seq<QueueEvent>) {
    if Any(os, (o: Outcome) => o.Rejects?) then
      d.Reject? && Worst(os, Some(d.info)) && queued == []
    else if Any(os, (o: Outcome) => o.Allows?) then
      d.Allow? && d.quota.Some? && Tightest(os, d.quota) && queued == Buffered(os)
    else
      && queued == []
      && d == if Any(os, (o: Outcome) => o.Exempt?) then Allow(None)
              else if Any(os, (o: Outcome) => o.TooLong?) then Cardinality else Decline
  }

  /** Everything folded so far. */
  ghost predicate Folded(os: seq<Outcome>, worst: Option<RejectInfo>, tightest: Option<Snapshot>,
                         events: seq<QueueEvent>,
                         nonExempt: bool, exempt: bool, tooLong: bool)
  {
    && Worst(os, worst) && Tightest(os, tightest) && events == Buffered(os)
    && nonExempt == (worst.Some? || tightest.Some?)
    && exempt == Any(os, (o: Outcome) => o.Exempt?) && tooLong == Any(os, (o: Outcome) => o.TooLong?)
  }

  lemma AnyMore(os: seq<Outcome>, p: Outcome -> bool, o: Outcome)
    ensures Any(os + [o], p) == (Any(os, p) || p(o))
  {
    var more := os + [o];
    assert forall x :: x in more <==> x in os || x == o;
  }

  lemma BufferedMore(os: seq<Outcome>, o: Outcome)
    ensures Buffered(os + [o]) ==
            if o.Allows? && |Buffered(os)| < MAX_MATCHED_RULES then Buffered(os) + [o.event] else Buffered(os)
  {
    assert (os + [o])[..|os|] == os;
  }

  lemma FoldStart()
    ensures Folded([], None, None, [], false, false, false)
  {
  }

  lemma FoldMore(os: seq<Outcome>, worst: Option<RejectInfo>, tightest: Option<Snapshot>, events: seq<QueueEvent>,
                 nonExempt: bool, exempt: bool, tooLong: bool, o: Outcome)
    requires Folded(os, worst, tightest, events, nonExempt, exempt, tooLong)
    ensures
      var room := o.Allows? && |events| < MAX_MATCHED_RULES;
      Folded(os + [o], if o.Rejects? then Some(PickLongestWindow(worst, o.info)) else worst,
             if o.Allows? then Some(PickMinRemaining(tightest, o.snapshot)) else tightest,
             if room then events + [o.event] else events,
             nonExempt || o.Allows? || o.Rejects?, exempt || o.Exempt?, tooLong || o.TooLong?)
  {
    hide Worst, Tightest, Buffered, Any;
    WorstMore(os, worst, o);
    TightestMore(os, tightest, o);
    BufferedMore(os, o);
    AnyMore(os, (x: Outcome) => x.Exempt?, o);
    AnyMore(os, (x: Outcome) => x.TooLong?, o);
  }

  lemma FoldDecides(os: seq<Outcome>, worst: Option<RejectInfo>, tightest: Option<Snapshot>, events: seq<QueueEvent>,
                    nonExempt: bool, exempt: bool, tooLong: bool)
    requires Folded(os, worst, tightest, events, nonExempt, exempt, tooLong)
    ensures Decided(os,
                    if worst.Some? then Reject(worst.value) else if nonExempt then Allow(tightest)
                    else if exempt then Allow(None) else if tooLong then Cardinality else Decline,
                    if worst.None? && nonExempt then events else [])
  {
    if worst.Some? {
      var i: nat :| WorstAt(os, i) && worst.value == os[i].info;
      assert os[i] in os;
    } else if tightest.Some? {
      var i: nat :| TightestAt(os, i) && tightest.value == os[i].snapshot;
      assert os[i] in os;
    }
  }

  /** One outcome per rule, in rule order. */
  ghost predicate OutcomesAre(c: Context, rules: seq<Option<Bound>>, os: seq<Outcome>) {
    |os| == |rules| && forall i :: 0 <= i < |rules| ==> OutcomeIs(c, rules[i], os[i])
  }

  /** `decide_all`. */
  method DecideAll(c: Context, rules: seq<Option<Bound>>) returns (d: Decision, queued: seq<QueueEvent>)
    requires forall i :: 0 <= i < |rules| ==> Compiled(rules[i])
    ensures exists os :: OutcomesAre(c, rules, os) && Decided(os, d, queued)
  {
    hide Folded, OutcomeIs;
    var worst: Option<RejectInfo>, tightest: Option<Snapshot>, events: seq<QueueEvent> := None, None, [];
    var nonExempt, exempt, tooLong := false, false, false;
    ghost var os: seq<Outcome> := [];
    FoldStart();
    for i := 0 to |rules|
      invariant |os| == i && forall j :: 0 <= j < i ==> OutcomeIs(c, rules[j], os[j])
      invariant Folded(os, worst, tightest, events, nonExempt, exempt, tooLong)
    {
      var o := DecideOne(c, rules[i]);
      FoldMore(os, worst, tightest, events, nonExempt, exempt, tooLong, o);
      match o {
        case Allows(snapshot, event) =>
          nonExempt, tightest := true, Some(PickMinRemaining(tightest, snapshot));
          if |events| < MAX_MATCHED_RULES {
            events := events + [event];
          }
        case Rejects(info) =>
          nonExempt, worst := true, Some(PickLongestWindow(worst, info));
        case Declines =>
        case TooLong =>
          tooLong := true;
        case Exempt(_) =>
          exempt := true;
      }
      os := os + [o];
    }
    FoldDecides(os, worst, tightest, events, nonExempt, exempt, tooLong);
    assert OutcomesAre(c, rules, os);
    if worst.Some? {
      return Reject(worst.value), [];
    }
    if nonExempt {
      return Allow(tightest), events;
    }
    if exempt {
      return Allow(None), [];
    }
    return if tooLong then Cardinality else Decline, [];
  }

  // -- What the decision does not depend on -----------------------------------------------------

  lemma SameElements(os: seq<Outcome>, ps: seq<Outcome>, p: Outcome -> bool)
    requires multiset(os) == multiset(ps)
    ensures Any(os, p) == Any(ps, p)
    ensures forall o :: o in os <==> o in ps
  {
    forall o ensures o in os <==> o in ps {
      assert o in os <==> o in multiset(os);
      assert o in ps <==> o in multiset(ps);
    }
  }

  /** The order in which the rules are configured changes neither the kind of decision, nor the window
      a rejection reports, nor the remaining quota and window an allowance reports. */
  lemma OrderIrrelevant(os: seq<Outcome>, ps: seq<Outcome>, d: Decision, e: Decision, q: seq<QueueEvent>,
                        r: seq<QueueEvent>)
    requires multiset(os) == multiset(ps) && Decided(os, d, q) && Decided(ps, e, r)
    ensures d.Allow? == e.Allow? && d.Reject? == e.Reject? && d.Cardinality? == e.Cardinality?
    ensures d.Decline? == e.Decline?
    ensures d.Reject? && e.Reject? ==> d.info.spec.windowMillis == e.info.spec.windowMillis
    ensures d.Allow? && e.Allow? ==>
              if d.quota.None? then e.quota.None?
              else e.quota.Some? && d.quota.value.remaining == e.quota.value.remaining
                   && d.quota.value.spec.windowMillis == e.quota.value.spec.windowMillis
  {
    SameElements(os, ps, (o: Outcome) => o.Rejects?);
    SameElements(os, ps, (o: Outcome) => o.Allows?);
    SameElements(os, ps, (o: Outcome) => o.Exempt?);
    SameElements(os, ps, (o: Outcome) => o.TooLong?);
    if d.Reject? {
      var i: nat :| WorstAt(os, i) && d.info == os[i].info;
      var j: nat :| WorstAt(ps, j) && e.info == ps[j].info;
      WorstBounds(os, i, ps[j]);
      WorstBounds(ps, j, os[i]);
    } else if d.Allow? && d.quota.Some? {
      var i: nat :| TightestAt(os, i) && d.quota.value == os[i].snapshot;
      var j: nat :| TightestAt(ps, j) && e.quota.value == ps[j].snapshot;
      TightestBounds(os, i, ps[j]);
      TightestBounds(ps, j, os[i]);
    }
  }

  lemma WorstBounds(os: seq<Outcome>, i: nat, o: Outcome)
    requires WorstAt(os, i) && o in os && o.Rejects?
    ensures o.info.spec.windowMillis <= os[i].info.spec.windowMillis
  {
    var k :| 0 <= k < |os| && os[k] == o;
  }

  lemma TightestBounds(os: seq<Outcome>, i: nat, o: Outcome)
    requires TightestAt(os, i) && o in os && o.Allows?
    ensures Tighter(os[i].snapshot, o.snapshot)
  {
    var k :| 0 <= k < |os| && os[k] == o;
  }

  // -- How good the reported retry time is --------------------------------------------------------

  /** A single hit in one bucket. */
  function Lone(at: nat): nat -> nat {
    (b: nat) => if b == at then 1 else 0
  }

  lemma {:induction false} LoneSum(at: nat, lo: nat, hi: nat)
    ensures SumRange(Lone(at), lo, hi) == if lo <= at < hi then 1 else 0
    decreases hi
  {
    if lo < hi {
      LoneSum(at, lo, hi - 1);
    }
  }

  lemma {:induction false} LoneFallOff(at: nat, oldest: nat, b: nat, cur: nat)
    requires oldest <= b <= at <= cur
    ensures FallOff(Lone(at), oldest, b, cur, 1) == at
    decreases at - b
  {
    LoneSum(at, oldest, b + 1);
    if b < at {
      LoneFallOff(at, oldest, b + 1, cur);
    }
  }

  lemma LoneDelay(at: nat, now: nat, cur: nat, bm: nat, live: nat)
    requires bm > 0 && Epoch(now, bm) == cur && Oldest(cur, live) <= at <= cur
    ensures AdmitDelay(Lone(at), now, bm, live, 1, 1, 1) == Delay(at, live, bm, now)
  {
    hide FallOff, Lone, Epoch;
    LoneFallOff(at, Oldest(cur, live), Oldest(cur, live), cur);
  }

  lemma LoneAdmits(at: nat, t: nat, cur: nat, bm: nat, live: nat)
    requires bm > 0 && Epoch(t, bm) == cur
    ensures Admits(Lone(at), t, bm, live, 1, 1) <==> !(Oldest(cur, live) <= at <= cur)
  {
    hide SumRange, Lone, Epoch;
    LoneSum(at, Oldest(cur, live), cur + 1);
  }

  /** The longest window is not the longest wait. Two rules of limit one reject at 5.5 s: the 3 s window
      frees its slot after 0.5 s, the 2 s window only after 1.5 s. In either order the decision reports the
      3 s rule, and a client that waits the advertised second is rejected again. */
  lemma LongestWindowRetriesEarly()
    ensures
      var wide, narrow := Spec(1, 1, 1, 3000, 1000, 3), Spec(2, 2, 1, 2000, 1000, 2);
      var first := RejectInfo(wide, 1, 5500, AdmitDelay(Lone(3), 5500, 1000, 3, 1, 1, 1));
      var second := RejectInfo(narrow, 1, 5500, AdmitDelay(Lone(5), 5500, 1000, 2, 1, 1, 1));
      && !Admits(Lone(3), 5500, 1000, 3, 1, 1) && !Admits(Lone(5), 5500, 1000, 2, 1, 1)
      && Decided([Rejects(first), Rejects(second)], Reject(first), [])
      && Decided([Rejects(second), Rejects(first)], Reject(first), [])
      && first.delta == 500 && RetryAfterSeconds(500) == 1 && !Admits(Lone(5), 5500 + 1000, 1000, 2, 1, 1)
  {
    assert Epoch(5500, 1000) == 5 && Epoch(6500, 1000) == 6;
    hide Epoch, Admits, AdmitDelay, Lone;
    LoneAdmits(3, 5500, 5, 1000, 3);
    LoneAdmits(5, 5500, 5, 1000, 2);
    LoneAdmits(5, 6500, 6, 1000, 2);
    LoneDelay(3, 5500, 5, 1000, 3);
    var first := RejectInfo(Spec(1, 1, 1, 3000, 1000, 3), 1, 5500, AdmitDelay(Lone(3), 5500, 1000, 3, 1, 1, 1));
    var second := RejectInfo(Spec(2, 2, 1, 2000, 1000, 2), 1, 5500, AdmitDelay(Lone(5), 5500, 1000, 2, 1, 1, 1));
    WiderWins(first, second);
  }

  lemma WiderWins(first: RejectInfo, second: RejectInfo)
    requires first.spec.windowMillis > second.spec.windowMillis
    ensures Decided([Rejects(first), Rejects(second)], Reject(first), [])
    ensures Decided([Rejects(second), Rejects(first)], Reject(first), [])
  {
    var os, ps := [Rejects(first), Rejects(second)], [Rejects(second), Rejects(first)];
    assert os[0] in os && ps[0] in ps;
    assert WorstAt(os, 0) && WorstAt(ps, 1);
  }

  /** The rejecting rules read true window sums: `column` gives the hits of each rule's key by bucket. */
  ghost predicate TrueReads(os: seq<Outcome>, now: nat, column: Spec -> nat -> nat) {
    forall j :: 0 <= j < |os| && os[j].Rejects? ==> TrueRead(os[j].info, now, column(os[j].info.spec))
  }

  ghost predicate TrueRead(info: RejectInfo, now: nat, c: nat -> nat) {
    var spec := info.spec;
    && info.now == now && Clocked(now, spec.bucketMillis, spec.liveBuckets)
    && Breakdown(c, Epoch(now, spec.bucketMillis), spec.liveBuckets, info.total)
    && spec.limit <= U64_MAX && info.total < U64_MAX
    && info.delta == AdmitDelay(c, now, spec.bucketMillis, spec.liveBuckets, spec.limit, info.total, 1)
  }

  /** The request of one hit passes this rule at `t`. */
  ghost predicate PassesAt(spec: Spec, c: nat -> nat, t: nat) {
    spec.bucketMillis > 0 && Admits(c, t, spec.bucketMillis, spec.liveBuckets, spec.limit, 1)
  }

  lemma PassesFrom(info: RejectInfo, now: nat, c: nat -> nat, wait: nat)
    requires TrueRead(info, now, c) && (now + wait) / info.spec.bucketMillis <= U32_MAX
    ensures PassesAt(info.spec, c, now + wait) <==> info.spec.limit >= 1 && wait >= info.delta
  {
    var spec := info.spec;
    if spec.limit >= 1 {
      RetryExact(c, now, spec.bucketMillis, spec.liveBuckets, spec.limit, info.total, 1);
    } else {
      NeverAdmitted(c, now + wait, spec.bucketMillis, spec.liveBuckets, spec.limit, 1);
    }
  }

  /** What the reported rule's own wait is good for: after the advertised seconds the request passes every
      rule that rejected it, if and only if none of them allows nothing at all and none of their delays is
      longer than those seconds. */
  lemma AdvertisedWaitIff(os: seq<Outcome>, info: RejectInfo, now: nat, column: Spec -> nat -> nat)
    requires Decided(os, Reject(info), []) && TrueReads(os, now, column)
    requires
      forall j :: 0 <= j < |os| && os[j].Rejects? && os[j].info.spec.bucketMillis > 0 ==>
        (now + 1000 * RetryAfterSeconds(info.delta)) / os[j].info.spec.bucketMillis <= U32_MAX
    ensures
      var wait := 1000 * RetryAfterSeconds(info.delta);
      (forall j :: 0 <= j < |os| && os[j].Rejects? ==> PassesAt(os[j].info.spec, column(os[j].info.spec), now + wait))
      <==> (forall j :: 0 <= j < |os| && os[j].Rejects? ==> os[j].info.spec.limit >= 1 && os[j].info.delta <= wait)
  {
    hide RetryAfterSeconds, TrueRead, PassesAt, Decided;
    var wait := 1000 * RetryAfterSeconds(info.delta);
    forall j | 0 <= j < |os| && os[j].Rejects?
      ensures PassesAt(os[j].info.spec, column(os[j].info.spec), now + wait)
              <==> os[j].info.spec.limit >= 1 && os[j].info.delta <= wait
    {
      TrueReadClocks(os[j].info, now, column(os[j].info.spec));
      PassesFrom(os[j].info, now, column(os[j].info.spec), wait);
    }
  }

  lemma TrueReadClocks(info: RejectInfo, now: nat, c: nat -> nat)
    requires TrueRead(info, now, c)
    ensures info.spec.bucketMillis > 0
  {
  }

  /** The report is that of one of the rejecting rules. */
  lemma ReportedRead(os: seq<Outcome>, info: RejectInfo, now: nat, column: Spec -> nat -> nat)
    requires Decided(os, Reject(info), []) && TrueReads(os, now, column)
    ensures TrueRead(info, now, column(info.spec))
  {
    hide TrueRead, Tightest, Buffered;
    var i: nat :| WorstAt(os, i) && info == os[i].info;
  }

  /** The reported rule itself is always satisfied by its own advertised wait. */
  lemma ReportedRulePasses(os: seq<Outcome>, info: RejectInfo, now: nat, column: Spec -> nat -> nat)
    requires Decided(os, Reject(info), []) && TrueReads(os, now, column) && info.spec.limit >= 1
    requires info.spec.bucketMillis > 0
    requires (now + 1000 * RetryAfterSeconds(info.delta)) / info.spec.bucketMillis <= U32_MAX
    ensures PassesAt(info.spec, column(info.spec), now + 1000 * RetryAfterSeconds(info.delta))
  {
    hide RetryAfterSeconds, PassesAt, TrueRead, TrueReads, Decided;
    ReportedRead(os, info, now, column);
    PassesFrom(info, now, column(info.spec), 1000 * RetryAfterSeconds(info.delta));
  }
}
