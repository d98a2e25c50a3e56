/** What a submission to the federation guarantees: the meaning of its tally,
    agreement on one policy version, and that it never allows more than the
    nodes' own kernels do. */
module FederationProperties {
  import opened Models
  import opened AuditLog
  import opened Policy
  import opened Kernel
  import opened FederationSpec
  import opened Counting

  // ---- the stance of each node ----

  /** The entry will call node `j`: it is not masked and its heartbeat is fresh. */
  predicate Reachable(fed: FederationConfig, nodes: seq<NodeState>, s: Submission, j: nat)
    requires Fits(fed, nodes, s) && j < |nodes|
  {
    var id := fed.nodes[j].nodeId;
    id !in nodes[s.entry].mask && Alive(nodes[s.entry].peersSeen, id, s.env[j].now, fed.heartbeatTimeout)
  }

  datatype Stance = Approves | Denies | Refuses | Silent

  /** A node is heard when its answer comes through; it then votes by its own
      kernel, or refuses when its policy differs. The entry is heard unless masked. */
  function StanceOf(fed: FederationConfig, nodes: seq<NodeState>, s: Submission, j: nat): Stance
    requires Fits(fed, nodes, s) && j < |nodes|
  {
    var heard := if j == s.entry then !EntryMasked(fed, nodes, s)
                 else Reachable(fed, nodes, s, j) && s.env[j].link == DELIVERED;
    if !heard then Silent
    else if fed.Digest(j) != fed.Digest(s.entry) then Refuses
    else if DecisionAt(fed, nodes, s, j).Allowed() then Approves
    else Denies
  }

  function Stances(fed: FederationConfig, nodes: seq<NodeState>, s: Submission): (r: seq<Stance>)
    requires Fits(fed, nodes, s)
    ensures |r| == |nodes|
  {
    seq(|nodes|, j requires 0 <= j < |nodes| => StanceOf(fed, nodes, s, j))
  }

  ghost function Approvers(fed: FederationConfig, nodes: seq<NodeState>, s: Submission): set<nat>
    requires Fits(fed, nodes, s)
  {
    Places(Stances(fed, nodes, s), Approves)
  }

  // ---- one call to a peer ----

  /** The event that node `j` appends when it runs the request. */
  function EventAt(fed: FederationConfig, nodes: seq<NodeState>, s: Submission, j: nat): AuditEvent
    requires Fits(fed, nodes, s) && j < |nodes|
  {
    EventFor(fed.crypto.eventHash, fed.nodes[j].kernel, nodes[j].kernel.events,
             s.request, s.env[j].timestamp, s.env[j].handler)
  }

  /** The event that is found for a request is the newest about it, and none is
      found exactly when there is none. */
  lemma {:induction false} NewestIsFound(events: seq<AuditEvent>, requestId: string)
    ensures var found := LastEventFor(events, requestId);
            && (found == None <==> forall i :: 0 <= i < |events| ==> events[i].payload.requestId != requestId)
            && (found.Some? ==>
                  exists i ::
                    && 0 <= i < |events| && events[i] == found.value && events[i].payload.requestId == requestId
                    && forall k :: i < k < |events| ==> events[k].payload.requestId != requestId)
  {
    if events == [] {
    } else if events[|events| - 1].payload.requestId == requestId {
    } else {
      var shorter := events[..|events| - 1];
      NewestIsFound(shorter, requestId);
      if LastEventFor(shorter, requestId).Some? {
        var i :| 0 <= i < |shorter| && shorter[i] == LastEventFor(shorter, requestId).value
                 && forall k :: i < k < |shorter| ==> shorter[k].payload.requestId != requestId;
        assert events[i] == shorter[i];
      }
      assert forall i :: 0 <= i < |shorter| ==> shorter[i] == events[i];
    }
  }

  /** After a run of a valid request, its newest event is the one just appended. */
  lemma RunIsFound(fed: FederationConfig, nodes: seq<NodeState>, s: Submission, j: nat)
    requires Fits(fed, nodes, s) && j < |nodes| && s.request.IsValid()
    ensures LastEventFor(RunAt(fed, nodes, s, j).events, s.request.requestId) == Some(EventAt(fed, nodes, s, j))
  {
    var events := RunAt(fed, nodes, s, j).events;
    assert events[|events| - 1] == EventAt(fed, nodes, s, j);
  }

  /** The kernel of node `j` runs: it is the entry, or the request reaches it and
      carries its own digest. */
  predicate Runs(fed: FederationConfig, nodes: seq<NodeState>, s: Submission, j: nat)
    requires Fits(fed, nodes, s) && j < |nodes|
  {
    || j == s.entry
    || (Reachable(fed, nodes, s, j) && s.env[j].link != REQUEST_LOST && fed.Digest(j) == fed.Digest(s.entry))
  }

  /** A peer's kernel runs exactly when the ask reaches it with its own digest;
      its vote carries the event of that very run; and what the entry hears is
      the peer's stance. */
  lemma AskIsFaithful(fed: FederationConfig, nodes: seq<NodeState>, s: Submission, j: nat)
    requires Fits(fed, nodes, s) && DigestsSet(fed, nodes) && s.request.IsValid()
    requires j < |nodes| && j != s.entry
    ensures var asked := AskedAt(fed, nodes, s, j);
            && asked.kernel == (if Runs(fed, nodes, s, j) then RunAt(fed, nodes, s, j) else nodes[j].kernel)
            && asked.server.localPolicyDigest == nodes[j].server.localPolicyDigest
            && match StanceOf(fed, nodes, s, j)
               case Silent => asked.outcome == if Reachable(fed, nodes, s, j) then Failed else Skipped
               case Refuses => asked.outcome == Drift(fed.Digest(j))
               case _ =>
                 asked.outcome
                 == Vote(VoteOf(DecisionAt(fed, nodes, s, j), fed.nodes[j].nodeId, EventAt(fed, nodes, s, j)))
  {
    hide Handled, DecisionFor, EventAt;
    RunIsFound(fed, nodes, s, j);
  }

  /** The vote carries the event that a run of the request appends, speaks for it,
      and approves exactly when the gates authorize and the handler returns. */
  ghost predicate VotesFor(crypto: Crypto, config: NodeConfig, kernel: KernelState, request: ActionRequest,
                           timestamp: string, outcome: HandlerOutcome, vote: VoteBody)
  {
    var event := EventFor(crypto.eventHash, config.kernel, kernel.events, request, timestamp, outcome);
    && vote.auditEvent == event && vote.nodeId == config.nodeId
    && vote.requestId == event.payload.requestId && vote.auditEventId == event.payload.eventId
    && vote.status == event.payload.status && vote.reason == event.payload.reason
    && (vote.status == ALLOWED <==> Authorized(config.kernel, request) && outcome.Returned?)
  }

  /** An ask whose bearer is right: refused for another policy, refused as
      malformed, or run and voted on. */
  lemma PostAskExactly(crypto: Crypto, config: NodeConfig, kernel: KernelState, server: ServerState,
                       message: FederationMessage, timestamp: string, outcome: HandlerOutcome)
    ensures var p := PostAsk(crypto, config, kernel, server, message, timestamp, outcome);
            && p.server == DigestNoted(server, message)
            && (p.response.DigestMismatch? <==> PolicyDiffers(server, message))
            && (p.response.VoteResponse? <==>
                !PolicyDiffers(server, message) && message.body.Some? && message.body.value.IsValid())
            && (PolicyDiffers(server, message) ==>
                  p.response == DigestMismatch(server.localPolicyDigest.value, message.policyDigest.value))
            && (p.response.ErrorResponse? ==> p.response.code == 400)
            && (!p.response.VoteResponse? ==> p.kernel == kernel)
            && (p.response.VoteResponse? ==>
                  var request := message.body.value;
                  && p.kernel == Handled(crypto.eventHash, config.kernel, kernel, request, timestamp, outcome)
                  && VotesFor(crypto, config, kernel, request, timestamp, outcome, p.response.vote))
  {
    hide AuditLog.EventId, Gates, Evaluate, Check, PolicyDiffers, DigestNoted;
    if message.body.Some? && message.body.value.IsValid() {
      var request := message.body.value;
      GatesAuthorize(config.kernel, request);
      var event := EventFor(crypto.eventHash, config.kernel, kernel.events, request, timestamp, outcome);
      var events := Handled(crypto.eventHash, config.kernel, kernel, request, timestamp, outcome).events;
      assert events[|events| - 1] == event && event.payload.requestId == request.requestId;
      assert LastEventFor(events, request.requestId) == Some(event);
    }
  }

  /** What a server does with any message whatever: its kernel runs exactly for
      an authenticated, well-formed ask that does not carry another policy than
      the server's own, and then the answer is a vote that carries the event of
      that run, and speaks for it. The "no audit event" error cannot occur, and
      without the right bearer nothing at all changes. */
  lemma PostExactly(crypto: Crypto, config: NodeConfig, kernel: KernelState, server: ServerState,
                    bearer: Option<string>, message: FederationMessage, timestamp: string, outcome: HandlerOutcome)
    ensures var p := Post(crypto, config, kernel, server, bearer, message, timestamp, outcome);
            var authentic := bearer == Some(crypto.fingerprint(config.publicKey));
            var differs := server.localPolicyDigest.Some? && message.policyDigest.Some?
                           && message.policyDigest.value != server.localPolicyDigest.value;
            var named := message.senderNodeId.Some? && message.senderNodeId.value != "";
            var sender := if named then message.senderNodeId else message.attester;
            && (p.response.VoteResponse? <==>
                authentic && message.kind == ASK && !differs && message.body.Some? && message.body.value.IsValid())
            && (p.response.DigestMismatch? <==> authentic && message.kind == ASK && differs)
            && (p.response == ErrorResponse(401) <==> bearer == None)
            && (p.response == ErrorResponse(403) <==> bearer.Some? && !authentic)
            && (p.response == ErrorResponse(404) <==> authentic && message.kind != ASK)
            && p.response != ErrorResponse(500)
            && (!p.response.VoteResponse? ==> p.kernel == kernel)
            && (p.response.VoteResponse? ==>
                  var request := message.body.value;
                  && p.kernel.events == kernel.events + [p.response.vote.auditEvent]
                  && VotesFor(crypto, config, kernel, request, timestamp, outcome, p.response.vote))
            && (!authentic ==> p.server == server)
            && p.server.localPolicyDigest == server.localPolicyDigest
            && (authentic ==>
                  p.server.peers
                  == server.peers[bearer.value := if message.attester.Some? then message.attester.value else "?"])
            && p.server.peerDigests
               == (if authentic && message.kind == ASK && message.policyDigest.Some? && sender.Some?
                   then server.peerDigests[sender.value := message.policyDigest.value]
                   else server.peerDigests)
  {
    hide PostAsk, EventFor;
    var met := server.(peers := server.peers[if bearer.Some? then bearer.value else "" := message.Caller()]);
    PostAskExactly(crypto, config, kernel, met, message, timestamp, outcome);
  }

  // ---- the tally ----

  /** The stances of the peers alone, the entry counted as silent. */
  function PeerStances(fed: FederationConfig, nodes: seq<NodeState>, s: Submission): (r: seq<Stance>)
    requires Fits(fed, nodes, s)
    ensures |r| == |nodes|
  {
    Stances(fed, nodes, s)[s.entry := Silent]
  }

  ghost predicate TallyAgrees(t: Tally, own: Tally, peers: seq<Stance>) {
    && t.approvals == own.approvals + Count(peers, Approves)
    && t.denials == own.denials + Count(peers, Denies) + Count(peers, Refuses)
    && |t.decisions| == |own.decisions| + Count(peers, Approves) + Count(peers, Denies)
    && |t.drifted| == |own.drifted| + Count(peers, Refuses)
  }

  /** The outcome of an ask, as the tally takes it, is the peer's stance. */
  predicate Voices(outcome: AskOutcome, stance: Stance) {
    match stance
    case Silent => outcome.Skipped? || outcome.Failed?
    case Refuses => outcome.Drift?
    case Approves => outcome.Vote? && outcome.vote.status == ALLOWED
    case Denies => outcome.Vote? && outcome.vote.status != ALLOWED
  }

  lemma NoPeersAgree(own: Tally)
    ensures TallyAgrees(own, own, [])
  {
  }

  lemma CountSnoc(xs: seq<Stance>, y: Stance, x: Stance)
    ensures Count(xs + [y], x) == Count(xs, x) + (if y == x then 1 else 0)
  {
    assert (xs + [y])[..|xs|] == xs;
  }

  lemma CountedAgrees(t: Tally, own: Tally, peers: seq<Stance>, peerId: string, outcome: AskOutcome, stance: Stance)
    requires TallyAgrees(t, own, peers) && Voices(outcome, stance)
    ensures TallyAgrees(Counted(t, peerId, outcome), own, peers + [stance])
  {
    CountSnoc(peers, stance, Approves);
    CountSnoc(peers, stance, Denies);
    CountSnoc(peers, stance, Refuses);
  }

  lemma PeerVoices(fed: FederationConfig, nodes: seq<NodeState>, s: Submission, j: nat)
    requires Fits(fed, nodes, s) && DigestsSet(fed, nodes) && s.request.IsValid() && j < |nodes|
    ensures Voices(AskedAt(fed, nodes, s, j).outcome, PeerStances(fed, nodes, s)[j])
  {
    if j != s.entry {
      AskIsFaithful(fed, nodes, s, j);
    }
  }

  lemma {:induction false} TallyOfPeers(fed: FederationConfig, nodes: seq<NodeState>, s: Submission, k: nat)
    requires Fits(fed, nodes, s) && DigestsSet(fed, nodes) && s.request.IsValid() && k <= |nodes|
    ensures TallyAgrees(TallyUpTo(fed, nodes, s, k), TallyUpTo(fed, nodes, s, 0), PeerStances(fed, nodes, s)[..k])
  {
    hide AskedAt, PeerStances, StanceOf, Voices, Counted, Count;
    if k == 0 {
      NoPeersAgree(TallyUpTo(fed, nodes, s, 0));
    } else {
      var peers := PeerStances(fed, nodes, s);
      assert peers[..k] == peers[..k - 1] + [peers[k - 1]];
      TallyOfPeers(fed, nodes, s, k - 1);
      PeerVoices(fed, nodes, s, k - 1);
      CountedAgrees(TallyUpTo(fed, nodes, s, k - 1), TallyUpTo(fed, nodes, s, 0), peers[..k - 1],
                    fed.nodes[k - 1].nodeId, AskedAt(fed, nodes, s, k - 1).outcome, peers[k - 1]);
    }
  }

  /** The entry's own vote is its stance, counted. */
  lemma OwnStance(fed: FederationConfig, nodes: seq<NodeState>, s: Submission)
    requires Fits(fed, nodes, s)
    ensures var own, t := StanceOf(fed, nodes, s, s.entry), TallyUpTo(fed, nodes, s, 0);
            && t.approvals == (if own == Approves then 1 else 0)
            && t.denials == (if own == Denies then 1 else 0)
            && |t.decisions| == (if own == Silent then 0 else 1)
            && t.drifted == [] && own != Refuses
  {
    hide DecisionAt;
  }

  /** The tally counts stances: approvals are the approving nodes, denials are
      the denying and the refusing ones, and only voting nodes leave a decision. */
  lemma TallyMeaning(fed: FederationConfig, nodes: seq<NodeState>, s: Submission)
    requires Fits(fed, nodes, s) && DigestsSet(fed, nodes) && s.request.IsValid()
    ensures var t := TallyUpTo(fed, nodes, s, |nodes|);
            var stances := Stances(fed, nodes, s);
            && t.approvals == Count(stances, Approves)
            && t.denials == Count(stances, Denies) + Count(stances, Refuses)
            && |t.decisions| == Count(stances, Approves) + Count(stances, Denies)
            && |t.drifted| == Count(stances, Refuses)
  {
    hide Count, AskedAt, RunAt, Counted, Reachable, DecisionAt, TallyUpTo;
    OwnStance(fed, nodes, s);
    var peers := PeerStances(fed, nodes, s);
    var own := StanceOf(fed, nodes, s, s.entry);
    TallyOfPeers(fed, nodes, s, |nodes|);
    assert peers[..|nodes|] == peers;
    assert peers[s.entry := own] == Stances(fed, nodes, s);
    CountUpdated(peers, s.entry, own, Approves);
    CountUpdated(peers, s.entry, own, Denies);
    CountUpdated(peers, s.entry, own, Refuses);
  }

  /** The quorum is the least number that is more than half. */
  predicate IsMajority(quorum: nat, n: nat) {
    2 * (quorum - 1) <= n < 2 * quorum
  }

  /** The decisions behind a result, among the first `k` nodes: the entry's own in
      front, unless it is masked, and those of the voting peers in order, whose
      execution results stay with them. */
  function Ballots(fed: FederationConfig, nodes: seq<NodeState>, s: Submission, k: nat): seq<Decision>
    requires Fits(fed, nodes, s) && k <= |nodes|
  {
    if k == 0 then
      if EntryMasked(fed, nodes, s) then [] else [DecisionAt(fed, nodes, s, s.entry)]
    else
      var stance := StanceOf(fed, nodes, s, k - 1);
      Ballots(fed, nodes, s, k - 1)
      + if k - 1 != s.entry && (stance == Approves || stance == Denies)
        then [DecisionAt(fed, nodes, s, k - 1).(result := None)] else []
  }

  /** The names of the refusing nodes, in order. */
  function RefusersUpTo(fed: FederationConfig, nodes: seq<NodeState>, s: Submission, k: nat): seq<string>
    requires Fits(fed, nodes, s) && k <= |nodes|
  {
    if k == 0 then []
    else RefusersUpTo(fed, nodes, s, k - 1)
         + if StanceOf(fed, nodes, s, k - 1) == Refuses then [fed.nodes[k - 1].nodeId] else []
  }

  lemma {:induction false} TallyLists(fed: FederationConfig, nodes: seq<NodeState>, s: Submission, k: nat)
    requires Fits(fed, nodes, s) && DigestsSet(fed, nodes) && s.request.IsValid() && k <= |nodes|
    ensures TallyUpTo(fed, nodes, s, k).decisions == Ballots(fed, nodes, s, k)
    ensures TallyUpTo(fed, nodes, s, k).drifted == RefusersUpTo(fed, nodes, s, k)
  {
    hide AskedAt, DecisionAt, StanceOf;
    if k == 0 {
    } else {
      TallyLists(fed, nodes, s, k - 1);
      PeerLists(fed, nodes, s, k - 1);
    }
  }

  /** What a peer's answer adds to the lists. */
  lemma PeerLists(fed: FederationConfig, nodes: seq<NodeState>, s: Submission, j: nat)
    requires Fits(fed, nodes, s) && DigestsSet(fed, nodes) && s.request.IsValid() && j < |nodes|
    ensures var outcome, stance := AskedAt(fed, nodes, s, j).outcome, StanceOf(fed, nodes, s, j);
            && (outcome.Drift? <==> stance == Refuses)
            && (outcome.Vote? <==> j != s.entry && (stance == Approves || stance == Denies))
            && (outcome.Vote? ==> outcome.vote.ToDecision() == DecisionAt(fed, nodes, s, j).(result := None))
  {
    hide AskPeer, RunAt, EventAt;
    if j != s.entry {
      AskIsFaithful(fed, nodes, s, j);
    }
  }

  /** A submission of a valid request always ends in a decision: the "no audit
      event" errors cannot occur. It is ALLOWED exactly when a majority of the
      configured cluster approves; too few visible nodes only change the reason. */
  lemma SubmitDecides(fed: FederationConfig, nodes: seq<NodeState>, s: Submission) returns (d: ClusterDecision)
    requires Fits(fed, nodes, s) && DigestsSet(fed, nodes) && s.request.IsValid()
    ensures Submit(fed, nodes, s).result == Decided(d)
    ensures var stances := Stances(fed, nodes, s);
            var votes := Count(stances, Approves) + Count(stances, Denies);
            && d.requestId == s.request.requestId && IsMajority(d.quorum, |fed.nodes|)
            && d.approvals == Count(stances, Approves)
            && d.denials == Count(stances, Denies) + Count(stances, Refuses)
            && |d.nodeDecisions| == votes && d.nodeDecisions == Ballots(fed, nodes, s, |nodes|)
            && (d.status == ALLOWED <==> 2 * d.approvals > |fed.nodes|)
            && (d.status != ALLOWED ==> d.status == DENIED)
            && (d.reason == QuorumAllowed <==> d.status == ALLOWED)
            && (d.reason.QuorumUnreachable? <==> (if votes == 0 then 1 else votes) < d.quorum)
            && (d.reason.QuorumUnreachable? ==>
                  && d.reason.visible == (if votes == 0 then 1 else votes)
                  && d.reason.configured == d.quorum
                  && d.reason.drifted == RefusersUpTo(fed, nodes, s, |nodes|)
                  && |d.reason.drifted| == Count(stances, Refuses))
  {
    hide TallyUpTo, RunAt, Stances, Ballots, RefusersUpTo, Count;
    RunIsFound(fed, nodes, s, s.entry);
    TallyMeaning(fed, nodes, s);
    TallyLists(fed, nodes, s, |nodes|);
    d := Conclude(s.request.requestId, fed.Quorum(), TallyUpTo(fed, nodes, s, |nodes|));
  }

  /** A submission is rejected exactly for blank fields or an entry without rules,
      before anything has run. */
  lemma RejectedExactly(fed: FederationConfig, nodes: seq<NodeState>, s: Submission)
    requires Fits(fed, nodes, s)
    ensures var r := Submit(fed, nodes, s);
            && (r.result.Rejected? <==> !s.request.IsValid() || fed.nodes[s.entry].kernel.rules == [])
            && (!s.request.IsValid() ==> r.result == Rejected(InvalidRequest(s.request.MissingFields())))
            && (s.request.IsValid() && fed.nodes[s.entry].kernel.rules == [] ==> r.result == Rejected(EmptyPolicy))
            && (r.result.Rejected? ==> r.nodes == nodes)
  {
    hide RunAt, AskedAt, TallyUpTo, Conclude;
    if s.request.IsValid() {
      RunIsFound(fed, nodes, s, s.entry);
    }
  }

  /** A peer that an ask has reached has noted the entry's policy under its name,
      and a caller without an attestation, whatever it has answered. */
  lemma AskIsNoted(fed: FederationConfig, nodes: seq<NodeState>, s: Submission, j: nat)
    requires Fits(fed, nodes, s) && s.request.IsValid() && j < |nodes| && j != s.entry
    ensures var before, after := nodes[j].server, AskedAt(fed, nodes, s, j).server;
            var name := fed.nodes[s.entry].nodeId;
            if !Reachable(fed, nodes, s, j) || s.env[j].link == REQUEST_LOST then after == before
            else
              && after.peers == before.peers[fed.crypto.fingerprint(fed.nodes[j].publicKey) := "?"]
              && after.peerDigests
                 == (if name == "" then before.peerDigests else before.peerDigests[name := fed.Digest(s.entry)])
  {
    hide PostAsk;
    var server := nodes[j].server;
    var met := server.(peers := server.peers[fed.crypto.fingerprint(fed.nodes[j].publicKey) := "?"]);
    PostAskExactly(fed.crypto, fed.nodes[j], nodes[j].kernel, met,
                   AskMessage(fed, s.entry, s.request), s.env[j].timestamp, s.env[j].handler);
  }

  // ---- agreement on one policy version ----

  predicate IsAllowed(fed: FederationConfig, nodes: seq<NodeState>, s: Submission)
    requires Fits(fed, nodes, s)
  {
    var r := Submit(fed, nodes, s).result;
    r.Decided? && r.decision.status == ALLOWED
  }

  lemma AllowedMeansMajority(fed: FederationConfig, nodes: seq<NodeState>, s: Submission)
    requires Fits(fed, nodes, s) && DigestsSet(fed, nodes)
    ensures IsAllowed(fed, nodes, s) <==>
            s.request.IsValid() && 2 * |Approvers(fed, nodes, s)| > |fed.nodes|
  {
    if s.request.IsValid() {
      var d := SubmitDecides(fed, nodes, s);
      CountIsCardinality(Stances(fed, nodes, s), Approves);
    }
  }

  /** Two nodes have one policy digest: their rule lists are equal, or a collision. */
  predicate PolicyAgrees(fed: FederationConfig, i: nat, j: nat)
    requires i < |fed.nodes| && j < |fed.nodes|
  {
    var a, b := fed.nodes[i].kernel.rules, fed.nodes[j].kernel.rules;
    fed.Digest(i) == fed.Digest(j) && (a == b || (a != b && fed.crypto.policyDigest(a) == fed.crypto.policyDigest(b)))
  }

  /** At most one policy version wins. Two ALLOWED results, whatever the states,
      masks, clocks and losses they were reached with, share an approving node,
      and the approvers of both and the two entries all have one digest, and
      equal rule lists unless `policyDigest` collides on them. */
  lemma OneVersionWins(fed: FederationConfig, nodes: seq<NodeState>, s: Submission,
                       nodes': seq<NodeState>, s': Submission)
    requires Fits(fed, nodes, s) && DigestsSet(fed, nodes)
    requires Fits(fed, nodes', s') && DigestsSet(fed, nodes')
    ensures IsAllowed(fed, nodes, s) && IsAllowed(fed, nodes', s') ==>
              var approvers, approvers' := Approvers(fed, nodes, s), Approvers(fed, nodes', s');
              && approvers * approvers' != {}
              && (forall j :: j in approvers + approvers' ==> j < |fed.nodes| && PolicyAgrees(fed, j, s.entry))
              && PolicyAgrees(fed, s.entry, s'.entry)
  {
    hide IsAllowed, Stances;
    if IsAllowed(fed, nodes, s) && IsAllowed(fed, nodes', s') {
      AllowedMeansMajority(fed, nodes, s);
      AllowedMeansMajority(fed, nodes', s');
      CountIsCardinality(Stances(fed, nodes, s), Approves);
      CountIsCardinality(Stances(fed, nodes', s'), Approves);
      var common := CommonPlace(Stances(fed, nodes, s), Approves, Stances(fed, nodes', s'), Approves);
      assert common in Approvers(fed, nodes, s) * Approvers(fed, nodes', s');
      ApproversShareDigest(fed, nodes, s);
      ApproversShareDigest(fed, nodes', s');
    }
  }

  lemma ApproversShareDigest(fed: FederationConfig, nodes: seq<NodeState>, s: Submission)
    requires Fits(fed, nodes, s)
    ensures forall j :: j in Approvers(fed, nodes, s) ==> j < |nodes| && fed.Digest(j) == fed.Digest(s.entry)
  {
    forall j | j in Approvers(fed, nodes, s)
      ensures j < |nodes| && fed.Digest(j) == fed.Digest(s.entry)
    {
      assert StanceOf(fed, nodes, s, j) == Approves;
    }
  }

  // ---- local authority ----

  /** Node `j` has passed all its own gates, its handler has returned, and its
      newest event, just appended, is the `allowed` event of this request. */
  ghost predicate AllowedLocally(fed: FederationConfig, nodes: seq<NodeState>, s: Submission, j: nat)
    requires Fits(fed, nodes, s) && j < |nodes|
  {
    && Authorized(fed.nodes[j].kernel, s.request) && s.env[j].handler.Returned?
    && EventAt(fed, nodes, s, j).payload.status == ALLOWED
    && EventAt(fed, nodes, s, j).payload.requestId == s.request.requestId
    && Submit(fed, nodes, s).nodes[j].kernel.events == nodes[j].kernel.events + [EventAt(fed, nodes, s, j)]
  }

  /** Approval is never given by the federation in a node's stead. */
  lemma ApproverAllowedLocally(fed: FederationConfig, nodes: seq<NodeState>, s: Submission, j: nat)
    requires Fits(fed, nodes, s) && DigestsSet(fed, nodes) && s.request.IsValid()
    requires j < |nodes|
    ensures StanceOf(fed, nodes, s, j) == Approves ==> AllowedLocally(fed, nodes, s, j)
  {
    hide Submit, Gates, Evaluate, Check;
    GatesAuthorize(fed.nodes[j].kernel, s.request);
    SubmitAppends(fed, nodes, s, j);
  }

  /** The federation never weakens local authorization: behind an ALLOWED result
      stand at least a quorum of distinct nodes that have all allowed the request
      themselves. */
  lemma AllowedIsLocallyAuthorized(fed: FederationConfig, nodes: seq<NodeState>, s: Submission)
    requires Fits(fed, nodes, s) && DigestsSet(fed, nodes)
    ensures IsAllowed(fed, nodes, s) ==>
              && 2 * |Approvers(fed, nodes, s)| > |fed.nodes|
              && forall j :: j in Approvers(fed, nodes, s) ==> j < |nodes| && AllowedLocally(fed, nodes, s, j)
  {
    hide IsAllowed, AllowedLocally;
    if IsAllowed(fed, nodes, s) {
      AllowedMeansMajority(fed, nodes, s);
      forall j | j in Approvers(fed, nodes, s)
        ensures j < |nodes| && AllowedLocally(fed, nodes, s, j)
      {
        ApproverAllowedLocally(fed, nodes, s, j);
      }
    }
  }

  /** Who runs and who does not: a submission appends to each log the event of
      this request where the kernel runs, and nothing anywhere else. A counted
      vote means one event, a refusal means none. */
  lemma SubmitAppends(fed: FederationConfig, nodes: seq<NodeState>, s: Submission, j: nat)
    requires Fits(fed, nodes, s) && DigestsSet(fed, nodes) && s.request.IsValid() && j < |nodes|
    ensures Submit(fed, nodes, s).nodes[j].kernel
            == if Runs(fed, nodes, s, j) then RunAt(fed, nodes, s, j) else nodes[j].kernel
    ensures StanceOf(fed, nodes, s, j).Approves? || StanceOf(fed, nodes, s, j).Denies? ==> Runs(fed, nodes, s, j)
    ensures StanceOf(fed, nodes, s, j).Refuses? ==> !Runs(fed, nodes, s, j)
  {
    hide RunAt, DecisionAt, Conclude, TallyUpTo, DriftUpTo, AskedAt, LastEventFor, EventAt;
    RunIsFound(fed, nodes, s, s.entry);
    if j != s.entry {
      AskIsFaithful(fed, nodes, s, j);
    }
  }

  // ---- fail closed ----

  ghost function Unmasked(fed: FederationConfig, nodes: seq<NodeState>, s: Submission): set<nat>
    requires Fits(fed, nodes, s)
  {
    set j: nat | j < |nodes| && fed.nodes[j].nodeId !in nodes[s.entry].mask
  }

  ghost predicate AllStale(fed: FederationConfig, nodes: seq<NodeState>, s: Submission)
    requires Fits(fed, nodes, s)
  {
    forall j :: 0 <= j < |nodes| && j != s.entry ==>
      !Alive(nodes[s.entry].peersSeen, fed.nodes[j].nodeId, s.env[j].now, fed.heartbeatTimeout)
  }

  /** Only unmasked nodes vote, and of the peers only those that are alive. */
  lemma VotersAreWithin(fed: FederationConfig, nodes: seq<NodeState>, s: Submission)
    requires Fits(fed, nodes, s)
    ensures var stances := Stances(fed, nodes, s);
            Count(stances, Approves) + Count(stances, Denies) <= |Unmasked(fed, nodes, s)|
    ensures var stances := Stances(fed, nodes, s);
            AllStale(fed, nodes, s) ==> Count(stances, Approves) + Count(stances, Denies) <= 1
  {
    CountWithin(Stances(fed, nodes, s), Approves, Denies, Unmasked(fed, nodes, s));
    if AllStale(fed, nodes, s) {
      CountWithin(Stances(fed, nodes, s), Approves, Denies, {s.entry});
    }
  }

  /** A cluster of two or more that has lost its majority, or whose heartbeats
      are all stale, denies with the partition reason, whichever node is the entry. */
  lemma FailsClosed(fed: FederationConfig, nodes: seq<NodeState>, s: Submission) returns (d: ClusterDecision)
    requires Fits(fed, nodes, s) && DigestsSet(fed, nodes) && s.request.IsValid() && |nodes| >= 2
    requires 2 * |Unmasked(fed, nodes, s)| <= |fed.nodes| || AllStale(fed, nodes, s)
    ensures Submit(fed, nodes, s).result == Decided(d)
    ensures d.status == DENIED && d.reason.QuorumUnreachable?
  {
    d := SubmitDecides(fed, nodes, s);
    VotersAreWithin(fed, nodes, s);
  }

  // ---- entry independence ----

  /** Nothing stands between the entry and the unmasked nodes. */
  ghost predicate Undisturbed(fed: FederationConfig, nodes: seq<NodeState>, s: Submission)
    requires Fits(fed, nodes, s)
  {
    forall j :: 0 <= j < |nodes| ==>
      && fed.Digest(j) == fed.Digest(s.entry)
      && s.env[j].link == DELIVERED
      && (j != s.entry ==> Alive(nodes[s.entry].peersSeen, fed.nodes[j].nodeId, s.env[j].now, fed.heartbeatTimeout))
  }

  lemma UndisturbedStances(fed: FederationConfig, nodes: seq<NodeState>, s: Submission, j: nat)
    requires Fits(fed, nodes, s) && Undisturbed(fed, nodes, s) && j < |nodes|
    ensures StanceOf(fed, nodes, s, j)
            == if fed.nodes[j].nodeId in nodes[s.entry].mask then Silent
               else if DecisionAt(fed, nodes, s, j).Allowed() then Approves
               else Denies
  {
  }

  /** With equal policies, fresh heartbeats and no lost calls, the result does
      not depend on the entry, masked entries included. */
  lemma EntryIndependence(fed: FederationConfig, nodes: seq<NodeState>, s: Submission, s': Submission)
    returns (d: ClusterDecision, d': ClusterDecision)
    requires Fits(fed, nodes, s) && Fits(fed, nodes, s') && DigestsSet(fed, nodes)
    requires s.request == s'.request && s.request.IsValid()
    requires nodes[s.entry].mask == nodes[s'.entry].mask
    requires Undisturbed(fed, nodes, s) && Undisturbed(fed, nodes, s')
    requires forall j :: 0 <= j < |nodes| ==> s.env[j].handler == s'.env[j].handler
    ensures Submit(fed, nodes, s).result == Decided(d) && Submit(fed, nodes, s').result == Decided(d')
    ensures d.status == d'.status && d.reason == d'.reason && d.quorum == d'.quorum
    ensures d.approvals == d'.approvals && d.denials == d'.denials
  {
    hide Submit, AskedAt, DecisionAt, StanceOf;
    var stances := Stances(fed, nodes, s);
    SameStances(fed, nodes, s, s');
    d := SubmitDecides(fed, nodes, s);
    d' := SubmitDecides(fed, nodes, s');
    CountIsCardinality(stances, Refuses);
    assert Places(stances, Refuses) == {} by {
      forall j: nat | j < |nodes|
        ensures stances[j] != Refuses
      {
        UndisturbedStances(fed, nodes, s, j);
      }
    }
  }

  lemma SameStances(fed: FederationConfig, nodes: seq<NodeState>, s: Submission, s': Submission)
    requires Fits(fed, nodes, s) && Fits(fed, nodes, s')
    requires s.request == s'.request
    requires nodes[s.entry].mask == nodes[s'.entry].mask
    requires Undisturbed(fed, nodes, s) && Undisturbed(fed, nodes, s')
    requires forall j :: 0 <= j < |nodes| ==> s.env[j].handler == s'.env[j].handler
    ensures Stances(fed, nodes, s) == Stances(fed, nodes, s')
  {
    forall j: nat | j < |nodes|
      ensures StanceOf(fed, nodes, s, j) == StanceOf(fed, nodes, s', j)
    {
      UndisturbedStances(fed, nodes, s, j);
      UndisturbedStances(fed, nodes, s', j);
    }
  }
}
