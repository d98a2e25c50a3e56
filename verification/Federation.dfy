/** The live federation as it is built: servers that answer asks, nodes that
    submit and fan out, and the cluster that wires them together. */
module Federation {
  import opened Models
  import opened AuditLog
  import opened Kernel
  import opened FederationSpec

  /** The loop shared by `_last_event_for` and the ask handler. */
  method FindLastEvent(events: seq<AuditEvent>, requestId: string) returns (event: Option<AuditEvent>)
    ensures event == LastEventFor(events, requestId)
  {
    var i := |events|;
    assert events[..i] == events;
    while i > 0
      invariant 0 <= i <= |events|
      invariant LastEventFor(events, requestId) == LastEventFor(events[..i], requestId)
    {
      i := i - 1;
      assert events[..i + 1][..i] == events[..i];
      if events[i].payload.requestId == requestId {
        return Some(events[i]);
      }
    }
    return None;
  }

  class FederationServer {
    const crypto: Crypto
    const nodeId: string
    const publicKey: string
    const expectedFingerprint: string
    /** The kernel that the ask handler closes over. */
    const kernel: ConstitutionalKernel
    var localPolicyDigest: Option<string>
    var peers: map<string, string>
    var peerDigests: map<string, string>

    constructor (crypto: Crypto, nodeId: string, publicKey: string, kernel: ConstitutionalKernel,
                 localPolicyDigest: Option<string>)
      ensures this.crypto == crypto && this.nodeId == nodeId && this.publicKey == publicKey && this.kernel == kernel
      ensures expectedFingerprint == crypto.fingerprint(publicKey)
      ensures State() == ServerState(localPolicyDigest, map[], map[])
    {
      this.crypto := crypto;
      this.nodeId := nodeId;
      this.publicKey := publicKey;
      this.expectedFingerprint := crypto.fingerprint(publicKey);
      this.kernel := kernel;
      this.localPolicyDigest := localPolicyDigest;
      this.peers := map[];
      this.peerDigests := map[];
    }

    ghost function State(): ServerState
      reads this
    {
      ServerState(localPolicyDigest, peers, peerDigests)
    }

    function Config(): NodeConfig {
      NodeConfig(nodeId, publicKey, kernel.config)
    }

    ghost predicate Hosts(fed: FederationConfig, j: nat)
      requires j < |fed.nodes|
    {
      && crypto == fed.crypto && Config() == fed.nodes[j]
      && kernel.auditLog.hash == crypto.eventHash
      && expectedFingerprint == crypto.fingerprint(publicKey)
    }

    method RecordPeer(token: string, caller: string)
      modifies this`peers
      ensures peers == old(peers)[token := caller]
    {
      peers := peers[token := caller];
    }

    method RecordPeerDigest(peerId: string, digest: string)
      modifies this`peerDigests
      ensures peerDigests == old(peerDigests)[peerId := digest]
    {
      peerDigests := peerDigests[peerId := digest];
    }

    /** The ask handler of `_make_ask_handler`; None is its RuntimeError. */
    method OnAsk(request: ActionRequest, timestamp: string, outcome: HandlerOutcome) returns (vote: Option<VoteBody>)
      modifies kernel, kernel.auditLog
      ensures kernel.State()
              == Handled(kernel.auditLog.hash, kernel.config, old(kernel.State()), request, timestamp, outcome)
      ensures var event := LastEventFor(kernel.auditLog.events, request.requestId);
              var decision := DecisionFor(kernel.config, old(kernel.auditLog.events), request, outcome);
              vote == if event.None? then None else Some(VoteOf(decision, nodeId, event.value))
    {
      var local := kernel.Handle(request, timestamp, outcome);
      var event := FindLastEvent(kernel.auditLog.events, request.requestId);
      if event.None? {
        return None;
      }
      return Some(VoteOf(local, nodeId, event.value));
    }

    method DoPost(bearer: Option<string>, message: FederationMessage, timestamp: string, outcome: HandlerOutcome)
      returns (response: Response)
      requires kernel.auditLog.hash == crypto.eventHash && expectedFingerprint == crypto.fingerprint(publicKey)
      modifies this, kernel, kernel.auditLog
      ensures Posted(kernel.State(), State(), response)
              == Post(crypto, Config(), old(kernel.State()), old(State()), bearer, message, timestamp, outcome)
    {
      hide PostAsk;
      if bearer.None? {
        return ErrorResponse(401);
      }
      if bearer.value != expectedFingerprint {
        return ErrorResponse(403);
      }
      RecordPeer(bearer.value, if message.attester.Some? then message.attester.value else "?");
      if message.kind != ASK {
        return ErrorResponse(404);
      }
      response := AnswerAsk(message, timestamp, outcome);
    }

    /** The part of `do_POST` that deals with an ask whose bearer is right. */
    method AnswerAsk(message: FederationMessage, timestamp: string, outcome: HandlerOutcome)
      returns (response: Response)
      requires kernel.auditLog.hash == crypto.eventHash
      modifies this, kernel, kernel.auditLog
      ensures Posted(kernel.State(), State(), response)
              == PostAsk(crypto, Config(), old(kernel.State()), old(State()), message, timestamp, outcome)
    {
      hide Handled, DecisionFor;
      var named := message.senderNodeId.Some? && message.senderNodeId.value != "";
      var sender := if named then message.senderNodeId else message.attester;
      if localPolicyDigest.Some? && message.policyDigest.Some? && message.policyDigest != localPolicyDigest {
        if sender.Some? {
          RecordPeerDigest(sender.value, message.policyDigest.value);
        }
        return DigestMismatch(localPolicyDigest.value, message.policyDigest.value);
      }
      if message.policyDigest.Some? && sender.Some? {
        RecordPeerDigest(sender.value, message.policyDigest.value);
      }
      if message.body.None? || message.body.value.MissingFields() != [] {
        return ErrorResponse(400);
      }
      var vote := OnAsk(message.body.value, timestamp, outcome);
      if vote.None? {
        return ErrorResponse(500);
      }
      return VoteResponse(vote.value);
    }
  }

  /** `url` is the place of the peer's server in the network. */
  datatype Peer = Peer(nodeId: string, url: nat, publicKey: string)

  type Network = seq<FederationServer>

  /** No two servers share a kernel or a log. */
  ghost predicate Apart(network: Network) {
    forall i, j :: 0 <= i < j < |network| ==>
      && network[i] != network[j]
      && network[i].kernel != network[j].kernel
      && network[i].kernel.auditLog != network[j].kernel.auditLog
  }

  ghost function Heap(network: Network): set<object> {
    (set s | s in network :: s as object)
    + (set s | s in network :: s.kernel as object)
    + (set s | s in network :: s.kernel.auditLog as object)
  }

  ghost predicate Hosted(fed: FederationConfig, network: Network) {
    && |network| == |fed.nodes|
    && Apart(network)
    && forall j :: 0 <= j < |network| ==> network[j].Hosts(fed, j)
  }

  datatype HostState = HostState(kernel: KernelState, server: ServerState)

  ghost function HostOf(server: FederationServer): HostState
    reads server, server.kernel, server.kernel.auditLog
  {
    HostState(server.kernel.State(), server.State())
  }

  /** The peers of node `e`: everyone else, in order. */
  function PeerAt(fed: FederationConfig, e: nat, m: nat): (p: Peer)
    requires e < |fed.nodes| && m + 1 < |fed.nodes|
    ensures p.url < |fed.nodes| && p.url != e
  {
    var j := if m < e then m else m + 1;
    Peer(fed.nodes[j].nodeId, j, fed.nodes[j].publicKey)
  }

  /** The entry's books after its own decision. */
  method CountOwn(entryPartitioned: bool, localDecision: Decision) returns (own: Tally)
    ensures own == OwnVote(entryPartitioned, localDecision)
  {
    own := Tally(0, 0, [], []);
    if !entryPartitioned {
      if localDecision.Allowed() {
        own := own.(approvals := own.approvals + 1);
      } else {
        own := own.(denials := own.denials + 1);
      }
      own := own.(decisions := own.decisions + [localDecision]);
    }
  }

  /** The entry's books after one peer. */
  method CountOutcome(tally: Tally, peerId: string, outcome: AskOutcome) returns (counted: Tally)
    ensures counted == Counted(tally, peerId, outcome)
  {
    var approvals, denials := tally.approvals, tally.denials;
    var nodeDecisions, drifted := tally.decisions, tally.drifted;
    match outcome {
      case Skipped =>
      case Failed =>
      case Drift(_) =>
        drifted := drifted + [peerId];
        denials := denials + 1;
      case Vote(vote) =>
        nodeDecisions := nodeDecisions + [vote.ToDecision()];
        if vote.status == ALLOWED {
          approvals := approvals + 1;
        } else {
          denials := denials + 1;
        }
    }
    counted := Tally(approvals, denials, nodeDecisions, drifted);
  }

  /** The end of `submit`: the visible size first, then the approvals. */
  method ConcludeTally(requestId: string, quorum: nat, tally: Tally) returns (decision: ClusterDecision)
    ensures decision == Conclude(requestId, quorum, tally)
  {
    var visible := 1 + (if tally.decisions == [] then 0 else |tally.decisions[1..]|);
    if visible < quorum {
      return ClusterDecision(requestId, DENIED, QuorumUnreachable(visible, quorum, tally.drifted),
                             quorum, tally.approvals, tally.denials, tally.decisions);
    }
    if tally.approvals >= quorum {
      return ClusterDecision(requestId, ALLOWED, QuorumAllowed,
                             quorum, tally.approvals, tally.denials, tally.decisions);
    }
    return ClusterDecision(requestId, DENIED, QuorumNotReached,
                           quorum, tally.approvals, tally.denials, tally.decisions);
  }

  ghost predicate HostIs(network: Network, j: nat, host: HostState)
    requires j < |network|
    reads network[j], network[j].kernel, network[j].kernel.auditLog
  {
    HostOf(network[j]) == host
  }

  /** How many nodes are dealt with once the first `m` peers of node `e` are. */
  ghost function Upto(e: nat, m: nat): (k: nat)
    ensures k <= m + 1
  {
    if m <= e then m else m + 1
  }

  /** The next peer is the next node to be dealt with: the entry, which asks
      nobody about itself, is passed over. */
  lemma NextPeer(fed: FederationConfig, before: seq<NodeState>, s: Submission, m: nat)
    requires Fits(fed, before, s) && m + 1 < |before|
    ensures var j := PeerAt(fed, s.entry, m).url;
            && TallyUpTo(fed, before, s, Upto(s.entry, m + 1))
               == Counted(TallyUpTo(fed, before, s, Upto(s.entry, m)), PeerAt(fed, s.entry, m).nodeId,
                          AskedAt(fed, before, s, j).outcome)
            && DriftUpTo(fed, before, s, Upto(s.entry, m + 1))
               == NoteDrift(DriftUpTo(fed, before, s, Upto(s.entry, m)), fed.Digest(s.entry),
                            PeerAt(fed, s.entry, m).nodeId, AskedAt(fed, before, s, j).outcome)
  {
    hide AskedAt, Counted, NoteDrift, DecisionAt;
    PassOver(fed, before, s);
  }

  /** The entry's own place in the row changes neither tally nor drift map. */
  lemma PassOver(fed: FederationConfig, before: seq<NodeState>, s: Submission)
    requires Fits(fed, before, s)
    ensures TallyUpTo(fed, before, s, s.entry + 1) == TallyUpTo(fed, before, s, s.entry)
    ensures DriftUpTo(fed, before, s, s.entry + 1) == DriftUpTo(fed, before, s, s.entry)
  {
    hide AskPeer, DecisionAt;
  }

  lemma LastPeer(fed: FederationConfig, before: seq<NodeState>, s: Submission)
    requires Fits(fed, before, s)
    ensures var k := Upto(s.entry, |before| - 1);
            && TallyUpTo(fed, before, s, |before|) == TallyUpTo(fed, before, s, k)
            && DriftUpTo(fed, before, s, |before|) == DriftUpTo(fed, before, s, k)
  {
    hide AskedAt, DecisionAt;
    PassOver(fed, before, s);
  }

  /** What the hosts must look like after a submission. */
  ghost function HostsOf(nodes: seq<NodeState>): (r: seq<HostState>)
    ensures |r| == |nodes|
  {
    seq(|nodes|, j requires 0 <= j < |nodes| => HostState(nodes[j].kernel, nodes[j].server))
  }

  /** The hosts once the entry and the first `k` nodes have been dealt with. */
  ghost function HostsUpTo(fed: FederationConfig, before: seq<NodeState>, s: Submission, k: nat): (r: seq<HostState>)
    requires Fits(fed, before, s)
    ensures |r| == |before|
  {
    seq(|before|, j requires 0 <= j < |before| =>
      if j == s.entry then HostState(RunAt(fed, before, s, j), before[j].server)
      else if j < k then HostState(AskedAt(fed, before, s, j).kernel, AskedAt(fed, before, s, j).server)
      else HostState(before[j].kernel, before[j].server))
  }

  /** The four ways a submission can go. */
  lemma SubmissionCases(fed: FederationConfig, before: seq<NodeState>, s: Submission)
    requires Fits(fed, before, s)
    ensures var r := FederationSpec.Submit(fed, before, s);
            var run := RunAt(fed, before, s, s.entry);
            && (!s.request.IsValid() ==> r == Submitted(before, Rejected(InvalidRequest(s.request.MissingFields()))))
            && (s.request.IsValid() && fed.nodes[s.entry].kernel.rules == [] ==>
                  r == Submitted(before, Rejected(EmptyPolicy)))
            && (s.request.IsValid() && fed.nodes[s.entry].kernel.rules != [] ==>
                  if LastEventFor(run.events, s.request.requestId).None? then
                    && r.result == Rejected(NoAuditEvent)
                    && r.nodes[s.entry].driftRefusals == before[s.entry].driftRefusals
                    && HostsOf(r.nodes) == HostsUpTo(fed, before, s, 0)
                  else
                    && r.result
                       == Decided(Conclude(s.request.requestId, fed.Quorum(), TallyUpTo(fed, before, s, |before|)))
                    && r.nodes[s.entry].driftRefusals == DriftUpTo(fed, before, s, |before|)
                    && HostsOf(r.nodes) == HostsUpTo(fed, before, s, |before|))
  {
  }

  /** Before any peer is asked there is the entry's own vote and nothing else. */
  lemma NothingYet(fed: FederationConfig, before: seq<NodeState>, s: Submission)
    requires Fits(fed, before, s)
    ensures DriftUpTo(fed, before, s, Upto(s.entry, 0)) == before[s.entry].driftRefusals
    ensures TallyUpTo(fed, before, s, Upto(s.entry, 0))
            == OwnVote(EntryMasked(fed, before, s), DecisionAt(fed, before, s, s.entry))
  {
    hide DecisionAt, OwnVote;
  }

  /** Asking the next peer changes that peer's host and no other. */
  lemma NextHost(fed: FederationConfig, before: seq<NodeState>, s: Submission, m: nat)
    requires Fits(fed, before, s) && m + 1 < |before|
    ensures var j := PeerAt(fed, s.entry, m).url;
            && HostsUpTo(fed, before, s, Upto(s.entry, m))[j] == HostState(before[j].kernel, before[j].server)
            && HostsUpTo(fed, before, s, Upto(s.entry, m + 1))
               == HostsUpTo(fed, before, s, Upto(s.entry, m))
                  [j := HostState(AskedAt(fed, before, s, j).kernel, AskedAt(fed, before, s, j).server)]
  {
  }

  /** Running at the entry changes the entry's host and no other. */
  lemma EntryHost(fed: FederationConfig, before: seq<NodeState>, s: Submission)
    requires Fits(fed, before, s)
    ensures HostsUpTo(fed, before, s, 0)
            == HostsOf(before)[s.entry := HostState(RunAt(fed, before, s, s.entry), before[s.entry].server)]
  {
  }

  /** Passing over the entry changes nothing. */
  lemma HostsPassOver(fed: FederationConfig, before: seq<NodeState>, s: Submission)
    requires Fits(fed, before, s)
    ensures HostsUpTo(fed, before, s, Upto(s.entry, |before| - 1)) == HostsUpTo(fed, before, s, |before|)
    ensures HostsUpTo(fed, before, s, Upto(s.entry, 0)) == HostsUpTo(fed, before, s, 0)
  {
  }

  /** The servers of the network are in the given states. */
  ghost predicate NetworkIs(network: Network, hosts: seq<HostState>)
    reads Heap(network)
  {
    && |network| == |hosts|
    && forall j :: 0 <= j < |network| ==>
         assert network[j] in network;
         HostIs(network, j, hosts[j])
  }

  class FederationNode {
    const crypto: Crypto
    const nodeId: string
    const kernel: ConstitutionalKernel
    const peers: seq<Peer>
    const heartbeatTimeout: real
    const partitionMask: set<string>
    var peersSeen: map<string, real>
    var driftRefusals: map<string, DriftRecord>

    constructor (crypto: Crypto, nodeId: string, kernel: ConstitutionalKernel, peers: seq<Peer>, heartbeatTimeout: real,
                 partitionMask: set<string>, peersSeen: map<string, real>, driftRefusals: map<string, DriftRecord>)
      ensures this.crypto == crypto && this.nodeId == nodeId && this.kernel == kernel && this.peers == peers
      ensures this.heartbeatTimeout == heartbeatTimeout && this.partitionMask == partitionMask
      ensures this.peersSeen == peersSeen && this.driftRefusals == driftRefusals
    {
      this.crypto := crypto;
      this.nodeId := nodeId;
      this.kernel := kernel;
      this.peers := peers;
      this.heartbeatTimeout := heartbeatTimeout;
      this.partitionMask := partitionMask;
      this.peersSeen := peersSeen;
      this.driftRefusals := driftRefusals;
    }

    /** The node is node `e` of the federation, on the given network. */
    ghost predicate Wired(fed: FederationConfig, network: Network, e: nat) {
      && Hosted(fed, network) && e < |network|
      && crypto == fed.crypto && nodeId == fed.nodes[e].nodeId && kernel == network[e].kernel
      && heartbeatTimeout == fed.heartbeatTimeout
      && |peers| == |network| - 1
      && forall m :: 0 <= m < |peers| ==> peers[m] == PeerAt(fed, e, m)
    }

    lemma IsTheEntry(fed: FederationConfig, network: Network, e: nat)
      requires Wired(fed, network, e)
      ensures kernel.config == fed.nodes[e].kernel && crypto == fed.crypto && nodeId == fed.nodes[e].nodeId
      ensures |peers| + 1 == |fed.nodes|
    {
      assert network[e].Hosts(fed, e);
    }

    lemma PeersAreTheOthers(fed: FederationConfig, network: Network, e: nat)
      requires Wired(fed, network, e)
      ensures |peers| == |network| - 1 == |fed.nodes| - 1
      ensures forall m :: 0 <= m < |peers| ==> peers[m] == PeerAt(fed, e, m)
    {
    }

    /** A copy of a wired node is wired as well. */
    lemma CopyIsWired(copy: FederationNode, fed: FederationConfig, network: Network, e: nat)
      requires Wired(fed, network, e)
      requires copy.crypto == crypto && copy.nodeId == nodeId && copy.kernel == kernel && copy.peers == peers
      requires copy.heartbeatTimeout == heartbeatTimeout
      ensures copy.Wired(fed, network, e)
    {
    }

    /** A copy with another mask. Liveness and drift are carried over. */
    method WithPartition(partitioned: set<string>) returns (node: FederationNode)
      ensures fresh(node)
      ensures node.crypto == crypto && node.nodeId == nodeId && node.kernel == kernel && node.peers == peers
      ensures node.heartbeatTimeout == heartbeatTimeout && node.partitionMask == partitioned
      ensures node.peersSeen == peersSeen && node.driftRefusals == driftRefusals
    {
      node := new FederationNode(
        crypto, nodeId, kernel, peers, heartbeatTimeout, partitioned, peersSeen, driftRefusals);
    }

    method RecordPeerHeartbeat(peerId: string, now: real)
      modifies this`peersSeen
      ensures peersSeen == old(peersSeen)[peerId := now]
    {
      peersSeen := peersSeen[peerId := now];
    }

    method PeerAlive(peerId: string, now: real) returns (alive: bool)
      ensures alive == Alive(peersSeen, peerId, now, heartbeatTimeout)
    {
      if peerId !in peersSeen {
        return false;
      }
      return now - peersSeen[peerId] < heartbeatTimeout;
    }

    method ClearDrift(peerId: string)
      modifies this`driftRefusals
      ensures driftRefusals == old(driftRefusals) - {peerId}
    {
      driftRefusals := driftRefusals - {peerId};
    }

    /** One round of the loop in `submit`, up to the vote or the failure. */
    method Ask(peer: Peer, request: ActionRequest, localDigest: string, network: Network, env: NodeEnv,
               ghost fed: FederationConfig, ghost e: nat, ghost entry: NodeState, ghost before: NodeState)
      returns (outcome: AskOutcome)
      requires Wired(fed, network, e) && peer.url < |network| && peer.url != e
      requires peer == Peer(fed.nodes[peer.url].nodeId, peer.url, fed.nodes[peer.url].publicKey)
      requires localDigest == fed.Digest(e)
      requires entry.mask == partitionMask && entry.peersSeen == peersSeen
      requires HostOf(network[peer.url]) == HostState(before.kernel, before.server)
      modifies network[peer.url], network[peer.url].kernel, network[peer.url].kernel.auditLog
      ensures Asked(network[peer.url].kernel.State(), network[peer.url].State(), outcome)
              == AskPeer(fed, e, entry, peer.url, before, request, env)
    {
      var alive := PeerAlive(peer.nodeId, env.now);
      if peer.nodeId in partitionMask || !alive {
        return Skipped;
      }
      if env.link == REQUEST_LOST {
        return Failed;
      }
      assert network[peer.url].Hosts(fed, peer.url);
      var message := FederationMessage(ASK, Some(request), Some(localDigest), Some(nodeId), None);
      var bearer := crypto.fingerprint(peer.publicKey);
      var response := network[peer.url].DoPost(Some(bearer), message, env.timestamp, env.handler);
      if env.link == RESPONSE_LOST {
        return Failed;
      }
      match response {
        case VoteResponse(vote) => return Vote(vote);
        case DigestMismatch(peerDigest, _) => return Drift(peerDigest);
        case ErrorResponse(_) => return Failed;
      }
    }

    /** `before` is what this node and its network look like when the call starts. */
    ghost predicate Starts(fed: FederationConfig, network: Network, before: seq<NodeState>, s: Submission)
      reads this, Heap(network)
    {
      && Fits(fed, before, s) && Wired(fed, network, s.entry)
      && before[s.entry].mask == partitionMask && before[s.entry].peersSeen == peersSeen
      && before[s.entry].driftRefusals == driftRefusals
      && NetworkIs(network, HostsOf(before))
    }

    method RunLocally(request: ActionRequest, network: Network, env: seq<NodeEnv>, e: nat,
                      ghost fed: FederationConfig, ghost before: seq<NodeState>)
      returns (decision: Decision, event: Option<AuditEvent>)
      requires Starts(fed, network, before, Submission(e, request, env))
      modifies Heap(network)
      ensures NetworkIs(network, HostsUpTo(fed, before, Submission(e, request, env), 0))
      ensures decision == DecisionAt(fed, before, Submission(e, request, env), e)
      ensures event == LastEventFor(RunAt(fed, before, Submission(e, request, env), e).events, request.requestId)
    {
      EntryHost(fed, before, Submission(e, request, env));
      assert network[e].Hosts(fed, e) && network[e] in network;
      assert HostIs(network, e, HostsOf(before)[e]);
      decision := kernel.Handle(request, env[e].timestamp, env[e].handler);
      forall j | 0 <= j < |network| && j != e
        ensures HostIs(network, j, HostsOf(before)[j])
      {
        assert old(HostIs(network, j, HostsOf(before)[j]));
      }
      event := FindLastEvent(kernel.auditLog.events, request.requestId);
    }

    /** The `m`-th peer is asked; nobody else notices. */
    method AskInTurn(m: nat, request: ActionRequest, localDigest: string, network: Network, env: seq<NodeEnv>, e: nat,
                     ghost fed: FederationConfig, ghost before: seq<NodeState>)
      returns (outcome: AskOutcome)
      requires Fits(fed, before, Submission(e, request, env)) && Wired(fed, network, e)
      requires before[e].mask == partitionMask && before[e].peersSeen == peersSeen
      requires m < |peers| && localDigest == fed.Digest(e)
      requires NetworkIs(network, HostsUpTo(fed, before, Submission(e, request, env), Upto(e, m)))
      modifies Heap(network)
      ensures NetworkIs(network, HostsUpTo(fed, before, Submission(e, request, env), Upto(e, m + 1)))
      ensures outcome == AskedAt(fed, before, Submission(e, request, env), peers[m].url).outcome
    {
      ghost var s := Submission(e, request, env);
      var peer := peers[m];
      NextHost(fed, before, s, m);
      ghost var hosts := HostsUpTo(fed, before, s, Upto(e, m));
      assert network[peer.url] in network;
      assert HostIs(network, peer.url, hosts[peer.url]);
      outcome := Ask(peer, request, localDigest, network, env[peer.url], fed, e, before[e], before[peer.url]);
      forall i | 0 <= i < |network| && i != peer.url
        ensures HostIs(network, i, hosts[i])
      {
        assert old(HostIs(network, i, hosts[i]));
      }
    }

    /** The loop over the peers, from the tally of the entry's own vote. */
    method FanOut(request: ActionRequest, localDigest: string, own: Tally, network: Network, env: seq<NodeEnv>, e: nat,
                  ghost fed: FederationConfig, ghost before: seq<NodeState>)
      returns (tally: Tally)
      requires Fits(fed, before, Submission(e, request, env)) && Wired(fed, network, e)
      requires before[e].mask == partitionMask && before[e].peersSeen == peersSeen
      requires localDigest == fed.Digest(e)
      requires driftRefusals == DriftUpTo(fed, before, Submission(e, request, env), Upto(e, 0))
      requires NetworkIs(network, HostsUpTo(fed, before, Submission(e, request, env), Upto(e, 0)))
      requires own == TallyUpTo(fed, before, Submission(e, request, env), Upto(e, 0))
      modifies this`driftRefusals, Heap(network)
      ensures NetworkIs(network, HostsUpTo(fed, before, Submission(e, request, env), Upto(e, |network| - 1)))
      ensures tally == TallyUpTo(fed, before, Submission(e, request, env), |network|)
      ensures driftRefusals == DriftUpTo(fed, before, Submission(e, request, env), |network|)
    {
      hide AskedAt, Handled, DecisionFor, TallyUpTo, DriftUpTo, Counted, NoteDrift, Upto, PeerAt;
      hide FederationNode.Wired, HostsUpTo, NetworkIs;
      PeersAreTheOthers(fed, network, e);
      ghost var s := Submission(e, request, env);
      tally := own;
      for m := 0 to |peers|
        modifies this`driftRefusals, Heap(network)
        invariant NetworkIs(network, HostsUpTo(fed, before, s, Upto(e, m)))
        invariant tally == TallyUpTo(fed, before, s, Upto(e, m))
        invariant driftRefusals == DriftUpTo(fed, before, s, Upto(e, m))
      {
        var outcome := AskInTurn(m, request, localDigest, network, env, e, fed, before);
        NextPeer(fed, before, s, m);
        tally := CountOutcome(tally, peers[m].nodeId, outcome);
        NoteRefusal(localDigest, peers[m].nodeId, outcome);
      }
      LastPeer(fed, before, s);
    }

    /** The own vote, the votes of the peers, and the decision on them. */
    method Gather(entryPartitioned: bool, localDecision: Decision, request: ActionRequest, localDigest: string,
                  network: Network, env: seq<NodeEnv>, e: nat,
                  ghost fed: FederationConfig, ghost before: seq<NodeState>)
      returns (decision: ClusterDecision)
      requires Fits(fed, before, Submission(e, request, env)) && Wired(fed, network, e)
      requires before[e].mask == partitionMask && before[e].peersSeen == peersSeen
      requires before[e].driftRefusals == driftRefusals && localDigest == fed.Digest(e)
      requires NetworkIs(network, HostsUpTo(fed, before, Submission(e, request, env), 0))
      requires entryPartitioned == EntryMasked(fed, before, Submission(e, request, env))
      requires localDecision == DecisionAt(fed, before, Submission(e, request, env), e)
      modifies this`driftRefusals, Heap(network)
      ensures NetworkIs(network, HostsUpTo(fed, before, Submission(e, request, env), |network|))
      ensures driftRefusals == DriftUpTo(fed, before, Submission(e, request, env), |network|)
      ensures decision == Conclude(request.requestId, fed.Quorum(),
                                   TallyUpTo(fed, before, Submission(e, request, env), |network|))
    {
      hide RunAt, DecisionAt, HostsUpTo, NetworkIs, Conclude, FederationNode.Wired, OwnVote, TallyUpTo, DriftUpTo, Upto;
      ghost var s := Submission(e, request, env);
      HostsPassOver(fed, before, s);
      NothingYet(fed, before, s);
      IsTheEntry(fed, network, e);
      PeersAreTheOthers(fed, network, e);
      var own := CountOwn(entryPartitioned, localDecision);
      var tally := FanOut(request, localDigest, own, network, env, e, fed, before);
      decision := ConcludeTally(request.requestId, (|peers| + 1) / 2 + 1, tally);
    }

    method NoteRefusal(localDigest: string, peerId: string, outcome: AskOutcome)
      modifies this`driftRefusals
      ensures driftRefusals == NoteDrift(old(driftRefusals), localDigest, peerId, outcome)
    {
      if outcome.Drift? {
        driftRefusals := driftRefusals[peerId := DriftRecord(localDigest, outcome.remoteDigest)];
      }
    }

    method Submit(request: ActionRequest, network: Network, env: seq<NodeEnv>, e: nat,
                  ghost fed: FederationConfig, ghost before: seq<NodeState>)
      returns (result: SubmitResult)
      requires Starts(fed, network, before, Submission(e, request, env))
      modifies this`driftRefusals, Heap(network)
      ensures var r := FederationSpec.Submit(fed, before, Submission(e, request, env));
              && result == r.result
              && driftRefusals == r.nodes[e].driftRefusals
              && NetworkIs(network, HostsOf(r.nodes))
    {
      hide FederationSpec.Submit, RunAt, DecisionAt, TallyUpTo, DriftUpTo, HostsUpTo, NetworkIs, Conclude;
      hide FederationNode.Wired, Handled, DecisionFor, OwnVote, LastEventFor;
      ghost var s := Submission(e, request, env);
      SubmissionCases(fed, before, s);
      IsTheEntry(fed, network, e);
      if request.MissingFields() != [] {
        return Rejected(InvalidRequest(request.MissingFields()));
      }
      var entryPartitioned := nodeId in partitionMask;
      if kernel.config.rules == [] {
        return Rejected(EmptyPolicy);
      }
      var localDigest := crypto.policyDigest(kernel.config.rules);
      var localDecision, localEvent := RunLocally(request, network, env, e, fed, before);
      if localEvent.None? {
        return Rejected(NoAuditEvent);
      }
      var decision := Gather(entryPartitioned, localDecision, request, localDigest, network, env, e, fed, before);
      result := Decided(decision);
    }
  }
}
