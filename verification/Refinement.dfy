/** The live federation beside the in-process cluster over the same kernels. */
module Refinement {
  import opened Models
  import opened Counting
  import opened Quorum
  import opened FederationSpec
  import opened FederationProperties

  /** The same kernels, in the same states, as members of an in-process cluster. */
  function InProcess(fed: FederationConfig, nodes: seq<NodeState>): (r: seq<Member>)
    requires |nodes| == |fed.nodes|
    ensures |r| == |nodes|
  {
    seq(|nodes|, j requires 0 <= j < |nodes| => Member(fed.nodes[j].kernel, nodes[j].kernel))
  }

  /** The same timestamps and handler outcomes. */
  function TurnsOf(env: seq<NodeEnv>): (r: seq<Turn>)
    ensures |r| == |env|
  {
    seq(|env|, j requires 0 <= j < |env| => Turn(env[j].timestamp, env[j].handler))
  }

  /** What a `QuorumCluster` with no quorum of its own decides. */
  function InProcessDecision(fed: FederationConfig, nodes: seq<NodeState>, s: Submission): ClusterDecision
    requires Fits(fed, nodes, s)
  {
    ClusterVerdict(s.request.requestId, DefaultQuorum(|nodes|),
                   Decisions(InProcess(fed, nodes), s.request, TurnsOf(s.env)))
  }

  /** An approving stance is a vote the in-process cluster counts too. */
  lemma LiveApprovalsAreFewer(fed: FederationConfig, nodes: seq<NodeState>, s: Submission)
    requires Fits(fed, nodes, s)
    ensures Count(Stances(fed, nodes, s), Approves) <= InProcessDecision(fed, nodes, s).approvals
  {
    var decisions := Decisions(InProcess(fed, nodes), s.request, TurnsOf(s.env));
    CountMonotone(Stances(fed, nodes, s), Approves, Statuses(decisions), ALLOWED);
  }

  /** Whatever the masks, clocks, policies and losses: what the live cluster
      allows, the in-process cluster allows. */
  lemma LiveRefinesInProcess(fed: FederationConfig, nodes: seq<NodeState>, s: Submission)
    requires Fits(fed, nodes, s) && DigestsSet(fed, nodes)
    ensures IsAllowed(fed, nodes, s) ==> InProcessDecision(fed, nodes, s).status == ALLOWED
  {
    if IsAllowed(fed, nodes, s) {
      var d := SubmitDecides(fed, nodes, s);
      LiveApprovalsAreFewer(fed, nodes, s);
    }
  }

  /** Undisturbed and unmasked, the two clusters agree on everything they count,
      and they leave the same audit logs and handler calls behind. */
  lemma LiveMatchesInProcess(fed: FederationConfig, nodes: seq<NodeState>, s: Submission) returns (d: ClusterDecision)
    requires Fits(fed, nodes, s) && DigestsSet(fed, nodes) && s.request.IsValid()
    requires Undisturbed(fed, nodes, s)
    requires forall j :: 0 <= j < |nodes| ==> fed.nodes[j].nodeId !in nodes[s.entry].mask
    ensures Submit(fed, nodes, s).result == Decided(d)
    ensures var c := InProcessDecision(fed, nodes, s);
            && d.requestId == c.requestId && d.status == c.status && d.reason == c.reason && d.quorum == c.quorum
            && d.approvals == c.approvals && d.denials == c.denials
            && |d.nodeDecisions| == |c.nodeDecisions|
    ensures forall j :: 0 <= j < |nodes| ==>
              Submit(fed, nodes, s).nodes[j].kernel
              == MemberAfter(fed.crypto.eventHash, InProcess(fed, nodes)[j], s.request, TurnsOf(s.env)[j])
  {
    hide Submit, Stances, Undisturbed, DigestsSet, Count, MemberAfter;
    d := SubmitDecides(fed, nodes, s);
    AllVote(fed, nodes, s);
    forall j: nat | j < |nodes|
      ensures Submit(fed, nodes, s).nodes[j].kernel
              == MemberAfter(fed.crypto.eventHash, InProcess(fed, nodes)[j], s.request, TurnsOf(s.env)[j])
    {
      KernelsMatch(fed, nodes, s, j);
    }
  }

  /** An undisturbed, unmasked node is left as the in-process cluster leaves it. */
  lemma KernelsMatch(fed: FederationConfig, nodes: seq<NodeState>, s: Submission, j: nat)
    requires Fits(fed, nodes, s) && DigestsSet(fed, nodes) && s.request.IsValid() && j < |nodes|
    requires Undisturbed(fed, nodes, s) && fed.nodes[j].nodeId !in nodes[s.entry].mask
    ensures Submit(fed, nodes, s).nodes[j].kernel
            == MemberAfter(fed.crypto.eventHash, InProcess(fed, nodes)[j], s.request, TurnsOf(s.env)[j])
  {
    hide Submit, StanceOf, Undisturbed, DigestsSet;
    SubmitAppends(fed, nodes, s, j);
    UndisturbedStances(fed, nodes, s, j);
  }

  lemma AllVote(fed: FederationConfig, nodes: seq<NodeState>, s: Submission)
    requires Fits(fed, nodes, s) && Undisturbed(fed, nodes, s)
    requires forall j :: 0 <= j < |nodes| ==> fed.nodes[j].nodeId !in nodes[s.entry].mask
    ensures var stances := Stances(fed, nodes, s);
            && Count(stances, Approves) == InProcessDecision(fed, nodes, s).approvals
            && Count(stances, Approves) + Count(stances, Denies) == |nodes|
            && Count(stances, Refuses) == 0
  {
    var stances := Stances(fed, nodes, s);
    var statuses := Statuses(Decisions(InProcess(fed, nodes), s.request, TurnsOf(s.env)));
    forall j: nat | j < |nodes|
      ensures stances[j] == if statuses[j] == ALLOWED then Approves else Denies
    {
      UndisturbedStances(fed, nodes, s, j);
    }
    CountMonotone(stances, Approves, statuses, ALLOWED);
    CountMonotone(statuses, ALLOWED, stances, Approves);
    CountPartition(stances, Approves, Denies);
    CountDisjoint(stances, Refuses, seq(|stances|, _ => true), true);
    CountEverywhere(|stances|);
  }

  lemma {:induction false} CountPartition(xs: seq<Stance>, x: Stance, y: Stance)
    requires x != y && forall i :: 0 <= i < |xs| ==> xs[i] == x || xs[i] == y
    ensures Count(xs, x) + Count(xs, y) == |xs|
  {
    if xs == [] {
    } else {
      CountPartition(xs[..|xs| - 1], x, y);
    }
  }

  lemma {:induction false} CountEverywhere(n: nat)
    ensures Count(seq(n, _ => true), true) == n
  {
    if n == 0 {
    } else {
      CountEverywhere(n - 1);
      assert seq(n, _ => true)[..n - 1] == seq(n - 1, _ => true);
    }
  }
}
