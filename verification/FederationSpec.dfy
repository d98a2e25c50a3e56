/** One submission to the live federation, and the other steps of a cluster, as
    functions on the states of its nodes. The classes of module Federation are
    proved against these functions. */
module FederationSpec {
  import opened Models
  import opened AuditLog
  import opened Policy
  import opened Kernel

  /** The hash functions in use: of audit payloads, of rule lists, of public keys. */
  datatype Crypto = Crypto(
    eventHash: Hash,
    policyDigest: seq<PolicyRule> -> string,
    fingerprint: string -> string)

  datatype NodeConfig = NodeConfig(nodeId: string, publicKey: string, kernel: KernelConfig)

  datatype FederationConfig = FederationConfig(crypto: Crypto, nodes: seq<NodeConfig>, heartbeatTimeout: real)
  {
    function Digest(j: nat): string
      requires j < |nodes|
    {
      crypto.policyDigest(nodes[j].kernel.rules)
    }

    function Quorum(): nat {
      |nodes| / 2 + 1
    }
  }

  /** `peers` notes who has called with which bearer, `peerDigests` which policy a sender had. */
  datatype ServerState = ServerState(
    localPolicyDigest: Option<string>, peers: map<string, string>, peerDigests: map<string, string>)

  datatype DriftRecord = DriftRecord(localDigest: string, remoteDigest: string)

  datatype NodeState = NodeState(
    kernel: KernelState, server: ServerState, mask: set<string>,
    peersSeen: map<string, real>, driftRefusals: map<string, DriftRecord>)

  // ---- the wire ----

  datatype MessageKind = ASK | HEARTBEAT | POLICY_DIGEST_MISMATCH

  /** `body` is None when `ActionRequest.from_dict` would raise; `attester` is
      the sender that an attestation names, if there is one. */
  datatype FederationMessage = FederationMessage(
    kind: MessageKind, body: Option<ActionRequest>,
    policyDigest: Option<string>, senderNodeId: Option<string>, attester: Option<string>)
  {
    /** Whom the server takes the message to be from: no name or an empty one
        leaves it to the attestation. */
    function Sender(): Option<string> {
      if senderNodeId == None || senderNodeId == Some("") then attester else senderNodeId
    }

    /** The name under which the caller is noted. */
    function Caller(): string {
      if attester.Some? then attester.value else "?"
    }
  }

  datatype VoteBody = VoteBody(
    requestId: string, nodeId: string, status: DecisionStatus, reason: Reason,
    auditEventId: string, auditEvent: AuditEvent)
  {
    /** The execution result stays at the peer. */
    function ToDecision(): Decision {
      Decision(requestId, status, reason, auditEventId, None)
    }
  }

  function VoteOf(decision: Decision, nodeId: string, event: AuditEvent): VoteBody {
    VoteBody(decision.requestId, nodeId, decision.status, decision.reason, decision.auditEventId, event)
  }

  datatype Response =
    | VoteResponse(vote: VoteBody)
    | DigestMismatch(localDigest: string, remoteDigest: string)
    | ErrorResponse(code: nat)

  /** The newest event about a request. */
  function LastEventFor(events: seq<AuditEvent>, requestId: string): Option<AuditEvent> {
    if events == [] then None
    else
      var last := events[|events| - 1];
      if last.payload.requestId == requestId then Some(last)
      else LastEventFor(events[..|events| - 1], requestId)
  }

  datatype Posted = Posted(kernel: KernelState, server: ServerState, response: Response)

  /** `do_POST`: bearer, kind, drift refusal, validation, kernel run, in that order. */
  function Post(crypto: Crypto, config: NodeConfig, kernel: KernelState, server: ServerState,
                bearer: Option<string>, message: FederationMessage,
                timestamp: string, outcome: HandlerOutcome): Posted
  {
    if bearer == None then Posted(kernel, server, ErrorResponse(401))
    else if bearer.value != crypto.fingerprint(config.publicKey) then Posted(kernel, server, ErrorResponse(403))
    else
      var met := server.(peers := server.peers[bearer.value := message.Caller()]);
      if message.kind != ASK then Posted(kernel, met, ErrorResponse(404))
      else PostAsk(crypto, config, kernel, met, message, timestamp, outcome)
  }

  /** The message carries another policy than the server announces. */
  predicate PolicyDiffers(server: ServerState, message: FederationMessage) {
    && server.localPolicyDigest.Some? && message.policyDigest.Some?
    && message.policyDigest != server.localPolicyDigest
  }

  /** The sender's digest is noted when the message says both. */
  function DigestNoted(server: ServerState, message: FederationMessage): ServerState {
    if message.policyDigest.Some? && message.Sender().Some?
    then server.(peerDigests := server.peerDigests[message.Sender().value := message.policyDigest.value])
    else server
  }

  /** An ask whose bearer is right. */
  function PostAsk(crypto: Crypto, config: NodeConfig, kernel: KernelState, server: ServerState,
                   message: FederationMessage, timestamp: string, outcome: HandlerOutcome): Posted
  {
    var server' := DigestNoted(server, message);
    if PolicyDiffers(server, message) then
      Posted(kernel, server', DigestMismatch(server.localPolicyDigest.value, message.policyDigest.value))
    else if message.body.None? || !message.body.value.IsValid() then Posted(kernel, server', ErrorResponse(400))
    else
      var request := message.body.value;
      var kernel' := Handled(crypto.eventHash, config.kernel, kernel, request, timestamp, outcome);
      var event := LastEventFor(kernel'.events, request.requestId);
      if event.None? then Posted(kernel', server', ErrorResponse(500))
      else
        var decision := DecisionFor(config.kernel, kernel.events, request, outcome);
        Posted(kernel', server', VoteResponse(VoteOf(decision, config.nodeId, event.value)))
  }

  // ---- asking a peer ----

  /** What the network does to one call: the lost cases cover timeouts and refused connections. */
  datatype Link = DELIVERED | REQUEST_LOST | RESPONSE_LOST

  /** What the world contributes at one node during a submission: the entry's
      clock when it looks at the node, the fate of the call, and the timestamp
      and handler outcome of the node's own kernel run. */
  datatype NodeEnv = NodeEnv(now: real, link: Link, timestamp: string, handler: HandlerOutcome)

  predicate Alive(peersSeen: map<string, real>, peerId: string, now: real, timeout: real) {
    peerId in peersSeen && now - peersSeen[peerId] < timeout
  }

  datatype AskOutcome = Skipped | Failed | Drift(remoteDigest: string) | Vote(vote: VoteBody)

  datatype Asked = Asked(kernel: KernelState, server: ServerState, outcome: AskOutcome)

  function AskMessage(fed: FederationConfig, e: nat, request: ActionRequest): FederationMessage
    requires e < |fed.nodes|
  {
    FederationMessage(ASK, Some(request), Some(fed.Digest(e)), Some(fed.nodes[e].nodeId), None)
  }

  /** How the entry reads a response. */
  function OutcomeOf(response: Response): AskOutcome {
    match response
    case VoteResponse(vote) => Vote(vote)
    case DigestMismatch(localDigest, _) => Drift(localDigest)
    case ErrorResponse(_) => Failed
  }

  /** Entry `e` asks node `j`. */
  function AskPeer(fed: FederationConfig, e: nat, entry: NodeState, j: nat, peer: NodeState,
                   request: ActionRequest, env: NodeEnv): Asked
    requires e < |fed.nodes| && j < |fed.nodes|
  {
    var config := fed.nodes[j];
    if config.nodeId in entry.mask || !Alive(entry.peersSeen, config.nodeId, env.now, fed.heartbeatTimeout) then
      Asked(peer.kernel, peer.server, Skipped)
    else if env.link == REQUEST_LOST then
      Asked(peer.kernel, peer.server, Failed)
    else
      var posted := Post(fed.crypto, config, peer.kernel, peer.server,
                         Some(fed.crypto.fingerprint(config.publicKey)), AskMessage(fed, e, request),
                         env.timestamp, env.handler);
      Asked(posted.kernel, posted.server,
            if env.link == RESPONSE_LOST then Failed else OutcomeOf(posted.response))
  }

  // ---- the tally ----

  datatype Tally = Tally(approvals: nat, denials: nat, decisions: seq<Decision>, drifted: seq<string>)

  function OwnVote(masked: bool, decision: Decision): Tally {
    if masked then Tally(0, 0, [], [])
    else if decision.Allowed() then Tally(1, 0, [decision], [])
    else Tally(0, 1, [decision], [])
  }

  function Counted(tally: Tally, peerId: string, outcome: AskOutcome): Tally {
    match outcome
    case Skipped => tally
    case Failed => tally
    case Drift(_) => tally.(denials := tally.denials + 1, drifted := tally.drifted + [peerId])
    case Vote(vote) =>
      var t := tally.(decisions := tally.decisions + [vote.ToDecision()]);
      if vote.status == ALLOWED then t.(approvals := t.approvals + 1) else t.(denials := t.denials + 1)
  }

  function NoteDrift(drift: map<string, DriftRecord>, localDigest: string, peerId: string,
                     outcome: AskOutcome): map<string, DriftRecord>
  {
    match outcome
    case Drift(remoteDigest) => drift[peerId := DriftRecord(localDigest, remoteDigest)]
    case _ => drift
  }

  /** The decision on a finished tally, against the configured cluster size. */
  function Conclude(requestId: string, quorum: nat, tally: Tally): ClusterDecision {
    var visible := 1 + (if tally.decisions == [] then 0 else |tally.decisions| - 1);
    var status := if visible >= quorum && tally.approvals >= quorum then ALLOWED else DENIED;
    var reason :=
      if visible < quorum then QuorumUnreachable(visible, quorum, tally.drifted)
      else if tally.approvals >= quorum then QuorumAllowed
      else QuorumNotReached;
    ClusterDecision(requestId, status, reason, quorum, tally.approvals, tally.denials, tally.decisions)
  }

  // ---- a submission ----

  datatype SubmitError = InvalidRequest(fields: seq<Field>) | EmptyPolicy | NoAuditEvent

  datatype SubmitResult = Rejected(error: SubmitError) | Decided(decision: ClusterDecision)

  /** The call as a whole: which cluster, who enters, what is asked, and what the
      world does at each node. */
  datatype Submission = Submission(entry: nat, request: ActionRequest, env: seq<NodeEnv>)

  predicate Fits(fed: FederationConfig, nodes: seq<NodeState>, s: Submission) {
    |nodes| == |fed.nodes| == |s.env| && s.entry < |nodes|
  }

  /** What comes of node `j`; the entry does not ask itself. */
  function AskedAt(fed: FederationConfig, nodes: seq<NodeState>, s: Submission, j: nat): Asked
    requires Fits(fed, nodes, s) && j < |nodes|
  {
    if j == s.entry then Asked(nodes[j].kernel, nodes[j].server, Skipped)
    else AskPeer(fed, s.entry, nodes[s.entry], j, nodes[j], s.request, s.env[j])
  }

  /** The kernel state of node `j` after running the request. */
  function RunAt(fed: FederationConfig, nodes: seq<NodeState>, s: Submission, j: nat): KernelState
    requires Fits(fed, nodes, s) && j < |nodes|
  {
    Handled(fed.crypto.eventHash, fed.nodes[j].kernel, nodes[j].kernel, s.request, s.env[j].timestamp, s.env[j].handler)
  }

  function DecisionAt(fed: FederationConfig, nodes: seq<NodeState>, s: Submission, j: nat): Decision
    requires Fits(fed, nodes, s) && j < |nodes|
  {
    DecisionFor(fed.nodes[j].kernel, nodes[j].kernel.events, s.request, s.env[j].handler)
  }

  predicate EntryMasked(fed: FederationConfig, nodes: seq<NodeState>, s: Submission)
    requires Fits(fed, nodes, s)
  {
    fed.nodes[s.entry].nodeId in nodes[s.entry].mask
  }

  /** The tally over the entry's own vote and the first `k` nodes. */
  function TallyUpTo(fed: FederationConfig, nodes: seq<NodeState>, s: Submission, k: nat): Tally
    requires Fits(fed, nodes, s) && k <= |nodes|
  {
    if k == 0 then OwnVote(EntryMasked(fed, nodes, s), DecisionAt(fed, nodes, s, s.entry))
    else Counted(TallyUpTo(fed, nodes, s, k - 1), fed.nodes[k - 1].nodeId, AskedAt(fed, nodes, s, k - 1).outcome)
  }

  /** The entry's drift map after the first `k` nodes. */
  function DriftUpTo(fed: FederationConfig, nodes: seq<NodeState>, s: Submission, k: nat): map<string, DriftRecord>
    requires Fits(fed, nodes, s) && k <= |nodes|
  {
    if k == 0 then nodes[s.entry].driftRefusals
    else NoteDrift(DriftUpTo(fed, nodes, s, k - 1), fed.Digest(s.entry), fed.nodes[k - 1].nodeId,
                   AskedAt(fed, nodes, s, k - 1).outcome)
  }

  function NodeAfter(fed: FederationConfig, nodes: seq<NodeState>, s: Submission, j: nat): NodeState
    requires Fits(fed, nodes, s) && j < |nodes|
  {
    if j == s.entry then
      nodes[j].(kernel := RunAt(fed, nodes, s, j), driftRefusals := DriftUpTo(fed, nodes, s, |nodes|))
    else
      var asked := AskedAt(fed, nodes, s, j);
      nodes[j].(kernel := asked.kernel, server := asked.server)
  }

  datatype Submitted = Submitted(nodes: seq<NodeState>, result: SubmitResult)

  function Submit(fed: FederationConfig, nodes: seq<NodeState>, s: Submission): (r: Submitted)
    requires Fits(fed, nodes, s)
    ensures |r.nodes| == |nodes|
  {
    var e := s.entry;
    if !s.request.IsValid() then Submitted(nodes, Rejected(InvalidRequest(s.request.MissingFields())))
    else if fed.nodes[e].kernel.rules == [] then Submitted(nodes, Rejected(EmptyPolicy))
    else if LastEventFor(RunAt(fed, nodes, s, e).events, s.request.requestId).None? then
      Submitted(nodes[e := nodes[e].(kernel := RunAt(fed, nodes, s, e))], Rejected(NoAuditEvent))
    else
      Submitted(seq(|nodes|, j requires 0 <= j < |nodes| => NodeAfter(fed, nodes, s, j)),
                Decided(Conclude(s.request.requestId, fed.Quorum(), TallyUpTo(fed, nodes, s, |nodes|))))
  }

  /** A submission touches nothing but hosts and the entry's drift map. */
  lemma SubmitKeeps(fed: FederationConfig, before: seq<NodeState>, s: Submission)
    requires Fits(fed, before, s)
    ensures var after := Submit(fed, before, s).nodes;
            forall j :: 0 <= j < |before| ==>
              && after[j].mask == before[j].mask
              && after[j].peersSeen == before[j].peersSeen
              && (j != s.entry ==> after[j].driftRefusals == before[j].driftRefusals)
  {
    hide Handled, AskedAt, TallyUpTo, DriftUpTo;
  }

  // ---- the other steps of a cluster ----

  datatype Action =
    | DoSubmit(submission: Submission)
    | DoSetPartition(partitioned: set<string>)
    | DoHeartbeat(sender: string, clock: seq<real>)
    | DoClearDrift(node: nat, peerId: string)

  /** The action makes sense in a cluster of `n` nodes. */
  predicate Suits(n: nat, action: Action) {
    match action
    case DoSubmit(s) => |s.env| == n && s.entry < n
    case DoSetPartition(_) => true
    case DoHeartbeat(_, clock) => |clock| == n
    case DoClearDrift(i, _) => i < n
  }

  /** A heartbeat received by any server is recorded at every node but the sender. */
  function HeartbeatAt(config: NodeConfig, node: NodeState, sender: string, now: real): NodeState {
    if config.nodeId == sender then node else node.(peersSeen := node.peersSeen[sender := now])
  }

  function Step(fed: FederationConfig, nodes: seq<NodeState>, action: Action): (r: seq<NodeState>)
    requires |nodes| == |fed.nodes| && Suits(|nodes|, action)
    ensures |r| == |nodes|
  {
    match action
    case DoSubmit(s) => Submit(fed, nodes, s).nodes
    case DoSetPartition(partitioned) =>
      seq(|nodes|, j requires 0 <= j < |nodes| => nodes[j].(mask := partitioned))
    case DoHeartbeat(sender, clock) =>
      seq(|nodes|, j requires 0 <= j < |nodes| => HeartbeatAt(fed.nodes[j], nodes[j], sender, clock[j]))
    case DoClearDrift(i, peerId) =>
      nodes[i := nodes[i].(driftRefusals := nodes[i].driftRefusals - {peerId})]
  }

  /** Every server announces the digest of its own kernel's rules, as
      `LiveCluster.__init__` sets it up, and has rules to digest. */
  ghost predicate DigestsSet(fed: FederationConfig, nodes: seq<NodeState>) {
    && |nodes| == |fed.nodes|
    && forall j :: 0 <= j < |nodes| ==>
         nodes[j].server.localPolicyDigest == Some(fed.Digest(j)) && fed.nodes[j].kernel.rules != []
  }
}
