/** The in-process cluster: every kernel runs, and a quorum of approvals allows. */
module Quorum {
  import opened Models
  import opened AuditLog
  import opened Kernel
  import opened Counting

  /** What the world contributes to one kernel run. */
  datatype Turn = Turn(timestamp: string, handler: HandlerOutcome)

  datatype Member = Member(config: KernelConfig, state: KernelState)

  function MemberDecision(member: Member, request: ActionRequest, turn: Turn): Decision {
    DecisionFor(member.config, member.state.events, request, turn.handler)
  }

  function MemberAfter(hash: Hash, member: Member, request: ActionRequest, turn: Turn): KernelState {
    Handled(hash, member.config, member.state, request, turn.timestamp, turn.handler)
  }

  function Decisions(members: seq<Member>, request: ActionRequest, turns: seq<Turn>): (r: seq<Decision>)
    requires |members| == |turns|
    ensures |r| == |members|
  {
    seq(|members|, i requires 0 <= i < |members| => MemberDecision(members[i], request, turns[i]))
  }

  function Statuses(decisions: seq<Decision>): (r: seq<DecisionStatus>)
    ensures |r| == |decisions|
  {
    seq(|decisions|, i requires 0 <= i < |decisions| => decisions[i].status)
  }

  function Approvals(decisions: seq<Decision>): (c: nat)
    ensures c <= |decisions|
  {
    Count(Statuses(decisions), ALLOWED)
  }

  /** The majority that stands in for a quorum that is not given. */
  function DefaultQuorum(n: nat): (q: nat)
    ensures 2 * (q - 1) <= n < 2 * q
  {
    n / 2 + 1
  }

  function ClusterVerdict(requestId: string, quorum: nat, decisions: seq<Decision>): ClusterDecision {
    var approvals := Approvals(decisions);
    if approvals >= quorum then
      ClusterDecision(requestId, ALLOWED, QuorumAllowed, quorum, approvals, |decisions| - approvals, decisions)
    else
      ClusterDecision(requestId, DENIED, QuorumNotReached, quorum, approvals, |decisions| - approvals, decisions)
  }

  /** The verdict counts the kernels that allow: a quorum of them allows, and every
      decision is passed on. */
  lemma VerdictCounts(requestId: string, quorum: nat, decisions: seq<Decision>)
    ensures var c := ClusterVerdict(requestId, quorum, decisions);
            var allowing := set i: nat | i < |decisions| && decisions[i].status == ALLOWED;
            && c.approvals == |allowing| && c.denials == |decisions| - |allowing|
            && (c.status == ALLOWED <==> |allowing| >= quorum) && (c.status != ALLOWED ==> c.status == DENIED)
            && (c.reason == if |allowing| >= quorum then QuorumAllowed else QuorumNotReached)
            && c.requestId == requestId && c.quorum == quorum && c.nodeDecisions == decisions
  {
    var allowing := set i: nat | i < |decisions| && decisions[i].status == ALLOWED;
    CountIsCardinality(Statuses(decisions), ALLOWED);
    assert Places(Statuses(decisions), ALLOWED) == allowing;
  }

  datatype BuilderNode = BuilderNode(nodeId: string, kernel: ConstitutionalKernel)

  datatype Built = Built(cluster: QuorumCluster) | NoNodes | QuorumOutOfRange

  /** No two nodes share a kernel or a log. */
  ghost predicate Apart(nodes: seq<BuilderNode>) {
    forall i, j :: 0 <= i < j < |nodes| ==>
      nodes[i].kernel != nodes[j].kernel && nodes[i].kernel.auditLog != nodes[j].kernel.auditLog
  }

  ghost function Heap(nodes: seq<BuilderNode>): set<object> {
    (set n | n in nodes :: n.kernel as object) + (set n | n in nodes :: n.kernel.auditLog as object)
  }

  ghost function MemberOf(node: BuilderNode): Member
    reads node.kernel, node.kernel.auditLog
  {
    Member(node.kernel.config, node.kernel.State())
  }

  ghost function MembersOf(nodes: seq<BuilderNode>): (r: seq<Member>)
    reads Heap(nodes)
    ensures |r| == |nodes|
  {
    seq(|nodes|, i requires 0 <= i < |nodes| reads Heap(nodes) =>
      assert nodes[i] in nodes;
      MemberOf(nodes[i]))
  }

  class QuorumCluster {
    const nodes: seq<BuilderNode>
    const quorum: nat

    constructor (nodes: seq<BuilderNode>, quorum: nat)
      ensures this.nodes == nodes && this.quorum == quorum
    {
      this.nodes := nodes;
      this.quorum := quorum;
    }

    /** `QuorumCluster.__init__` with its two ValueErrors. */
    static method Create(nodes: seq<BuilderNode>, quorum: Option<int>) returns (built: Built)
      ensures built.NoNodes? <==> nodes == []
      ensures built.QuorumOutOfRange? <==>
              nodes != [] && quorum.Some? && !(1 <= quorum.value <= |nodes|)
      ensures built.Built? ==>
                && fresh(built.cluster) && built.cluster.nodes == nodes
                && built.cluster.quorum == (if quorum.Some? then quorum.value else DefaultQuorum(|nodes|))
                && (quorum.None? ==> 2 * (built.cluster.quorum - 1) <= |nodes| < 2 * built.cluster.quorum)
                && 1 <= built.cluster.quorum <= |nodes|
    {
      if nodes == [] {
        return NoNodes;
      }
      var q := if quorum.Some? then quorum.value else |nodes| / 2 + 1;
      if q < 1 || q > |nodes| {
        return QuorumOutOfRange;
      }
      var cluster := new QuorumCluster(nodes, q);
      return Built(cluster);
    }

    /** Node `i` handles the request, and no other node notices. */
    method HandleAt(i: nat, request: ActionRequest, turn: Turn) returns (decision: Decision)
      requires Apart(nodes) && i < |nodes|
      modifies Heap(nodes)
      ensures decision == MemberDecision(old(MemberOf(nodes[i])), request, turn)
      ensures nodes[i].kernel.State()
              == MemberAfter(nodes[i].kernel.auditLog.hash, old(MemberOf(nodes[i])), request, turn)
      ensures forall k :: 0 <= k < |nodes| && k != i ==> MemberOf(nodes[k]) == old(MemberOf(nodes[k]))
    {
      var node := nodes[i];
      assert node in nodes;
      decision := node.kernel.Handle(request, turn.timestamp, turn.handler);
    }

    ghost predicate Done(i: nat, members: seq<Member>, request: ActionRequest, turns: seq<Turn>)
      requires i < |nodes| == |members| == |turns|
      reads nodes[i].kernel, nodes[i].kernel.auditLog
    {
      MemberOf(nodes[i]).state == MemberAfter(nodes[i].kernel.auditLog.hash, members[i], request, turns[i])
    }

    ghost predicate Waiting(i: nat, members: seq<Member>)
      requires i < |nodes| == |members|
      reads nodes[i].kernel, nodes[i].kernel.auditLog
    {
      MemberOf(nodes[i]) == members[i]
    }

    method Submit(request: ActionRequest, turns: seq<Turn>) returns (decision: ClusterDecision)
      requires Apart(nodes) && |turns| == |nodes|
      modifies Heap(nodes)
      ensures decision == ClusterVerdict(request.requestId, quorum, Decisions(old(MembersOf(nodes)), request, turns))
      ensures forall i :: 0 <= i < |nodes| ==> Done(i, old(MembersOf(nodes)), request, turns)
    {
      hide MemberDecision, MemberAfter;
      ghost var members := MembersOf(nodes);
      var decisions: seq<Decision> := [];
      for i := 0 to |nodes|
        modifies Heap(nodes)
        invariant decisions == Decisions(members, request, turns)[..i]
        invariant forall k :: 0 <= k < i ==> Done(k, members, request, turns)
        invariant forall k :: i <= k < |nodes| ==> Waiting(k, members)
      {
        assert Waiting(i, members);
        label before:
        var d := HandleAt(i, request, turns[i]);
        assert Done(i, members, request, turns);
        forall k | 0 <= k < i
          ensures Done(k, members, request, turns)
        {
          assert old@before(Done(k, members, request, turns));
          assert MemberOf(nodes[k]) == old@before(MemberOf(nodes[k]));
        }
        forall k | i < k < |nodes|
          ensures Waiting(k, members)
        {
          assert old@before(Waiting(k, members));
          assert MemberOf(nodes[k]) == old@before(MemberOf(nodes[k]));
        }
        assert d == Decisions(members, request, turns)[i];
        decisions := decisions + [d];
      }
      assert decisions == Decisions(members, request, turns);
      var approvals := CountAllowed(decisions);
      var denials := |decisions| - approvals;
      if approvals >= quorum {
        return ClusterDecision(request.requestId, ALLOWED, QuorumAllowed, quorum, approvals, denials, decisions);
      }
      return ClusterDecision(request.requestId, DENIED, QuorumNotReached, quorum, approvals, denials, decisions);
    }
  }

  method CountAllowed(decisions: seq<Decision>) returns (approvals: nat)
    ensures approvals == Approvals(decisions)
  {
    approvals := 0;
    for i := 0 to |decisions|
      invariant approvals == Approvals(decisions[..i])
    {
      assert decisions[..i + 1] == decisions[..i] + [decisions[i]];
      ApprovalsSnoc(decisions[..i], decisions[i]);
      if decisions[i].Allowed() {
        approvals := approvals + 1;
      }
    }
    assert decisions[..|decisions|] == decisions;
  }

  lemma ApprovalsSnoc(decisions: seq<Decision>, d: Decision)
    ensures Approvals(decisions + [d]) == Approvals(decisions) + (if d.status == ALLOWED then 1 else 0)
  {
    assert Statuses(decisions + [d])[..|decisions|] == Statuses(decisions);
  }
}
