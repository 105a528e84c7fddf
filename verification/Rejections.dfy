/** Why a node rejects: across the whole cluster, only because of hits really recorded. */
module Rejections {
  import opened Base
  import opened Cells
  import opened Dictionary
  import opened Counters
  import opened Sums
  import opened Windows
  import opened Aggregates
  import opened Clusters
  import opened Admission
  import opened Retention

  /** The hits recorded anywhere for the rule and the request's key in the window, plus the request's
      own, exceed the limit. */
  ghost predicate Exceeded(recorded: Counts, r: Rule, req: Request)
    requires r.bucketMillis > 0
  {
    WindowSum(Column(recorded, r.fingerprint, req.KeyOf(r.id)), Epoch(req.now, r.bucketMillis), r.liveBuckets)
    + req.hits > r.limit
  }

  lemma TotalsAreRecorded(n: Node, recorded: Counts, max: nat, fp: nat, key: nat, b: nat)
    requires NodeSafe(n, recorded, max)
    ensures Buckets(n.aggregate, fp, key)(b) <= Column(recorded, fp, key)(b)
  {
    SumMonotone(n.counts, recorded, CellIdentity(fp, key, b));
  }

  lemma OverMeansExceeded(n: Node, recorded: Counts, max: nat, r: Rule, req: Request)
    requires NodeSafe(n, recorded, max) && r.bucketMillis > 0 && Over(n.aggregate, r, req)
    ensures Exceeded(recorded, r, req)
  {
    var key, cur := req.KeyOf(r.id), Epoch(req.now, r.bucketMillis);
    var seen, truth := Buckets(n.aggregate, r.fingerprint, key), Column(recorded, r.fingerprint, key);
    forall b: nat ensures seen(b) <= truth(b) {
      TotalsAreRecorded(n, recorded, max, r.fingerprint, key, b);
    }
    SumAtMost(seen, truth, Oldest(cur, r.liveBuckets), cur + 1);
  }

  /** No unjustified rejection: in every state of every run of the cluster, whatever was lost, repeated,
      reordered, refused for capacity or expired, the rule a limit rejection by any node reports is an
      enforcing one whose recorded window really has no room for the request. */
  lemma NoUnjustifiedRejection(states: seq<Cluster>, events: seq<Event>, max: nat, i: nat, d: NodeDescriptor,
                               ms: seq<Rule>, req: Request, decision: Decision, plan: seq<Record>)
    requires Run(states, events, max) && i <= |events| && d in states[i].nodes && Usable(ms)
    requires Decided(states[i].nodes[d].aggregate, ms, req, decision, plan)
    requires decision.Reject? && decision.reason == GlobalLimit
    ensures exists j: nat :: j < |ms| && Reports(states[i].nodes[d].aggregate, ms[j], req, decision)
              && ms[j].mode == Enforce && Exceeded(states[i].recorded, ms[j], req)
  {
    hide Over, Exceeded;
    RunSafe(states, events, max, i);
    var n := states[i].nodes[d];
    var j: nat :|
      FirstOver(n.aggregate, Considered(ms), req, j) && decision.context == Some(RejectQuota(n.aggregate, ms[j], req));
    assert Considered(ms)[j] == ms[j];
    OverMeansExceeded(n, states[i].recorded, max, ms[j], req);
    OverEnforces(n.aggregate, ms[j], req);
    assert Reports(n.aggregate, ms[j], req, decision);
  }

  /** The decision carries this rule's limit, what it has left and its retry time. */
  ghost predicate Reports(a: Aggregate, r: Rule, req: Request, d: Decision)
    requires r.bucketMillis > 0
  {
    d.Reject? && Over(a, r, req) && d.context == Some(RejectQuota(a, r, req))
  }

  lemma OverEnforces(a: Aggregate, r: Rule, req: Request)
    requires r.bucketMillis > 0 && Over(a, r, req)
    ensures r.mode == Enforce
  {
  }
}
