/** Whole runs of a cluster: any sequence of submissions, partition changes,
    heartbeats and drift clearings, from any state a cluster can start in. */
module FederationRuns {
  import opened Models
  import opened AuditLog
  import opened Kernel
  import opened FederationSpec
  import opened FederationProperties

  ghost predicate AllSuit(n: nat, actions: seq<Action>) {
    forall m :: 0 <= m < |actions| ==> Suits(n, actions[m])
  }

  /** The nodes after a run. */
  ghost function Run(fed: FederationConfig, start: seq<NodeState>, actions: seq<Action>): (r: seq<NodeState>)
    requires |start| == |fed.nodes| && AllSuit(|start|, actions)
    ensures |r| == |start|
  {
    if actions == [] then start
    else Step(fed, Run(fed, start, actions[..|actions| - 1]), actions[|actions| - 1])
  }

  // ---- what every step keeps ----

  /** A digest that a server has noted for a sender is the digest of a node of that name. */
  ghost predicate Attributed(fed: FederationConfig, digests: map<string, string>) {
    forall id :: id in digests ==>
      exists i :: 0 <= i < |fed.nodes| && fed.nodes[i].nodeId == id && fed.Digest(i) == digests[id]
  }

  ghost predicate NodeSound(fed: FederationConfig, node: NodeState, j: nat)
    requires j < |fed.nodes|
  {
    && ChainValid(fed.crypto.eventHash, node.kernel.events)
    && Numbered(node.kernel.events)
    && node.server.localPolicyDigest == Some(fed.Digest(j))
    && Attributed(fed, node.server.peerDigests)
  }

  /** Every log is a valid, numbered chain; every server still announces the
      digest of its own kernel; and digests are attributed to their owners. */
  ghost predicate Sound(fed: FederationConfig, nodes: seq<NodeState>) {
    && |nodes| == |fed.nodes|
    && (forall j :: 0 <= j < |fed.nodes| ==> fed.nodes[j].kernel.rules != [])
    && forall j :: 0 <= j < |nodes| ==> NodeSound(fed, nodes[j], j)
  }

  /** A cluster as it is built, on valid logs, is sound. */
  lemma NewClusterIsSound(fed: FederationConfig, nodes: seq<NodeState>)
    requires DigestsSet(fed, nodes)
    requires forall j :: 0 <= j < |nodes| ==>
               && nodes[j].server.peerDigests == map[]
               && ChainValid(fed.crypto.eventHash, nodes[j].kernel.events) && Numbered(nodes[j].kernel.events)
    ensures Sound(fed, nodes)
  {
  }

  lemma SoundMeansDigestsSet(fed: FederationConfig, nodes: seq<NodeState>)
    requires Sound(fed, nodes)
    ensures DigestsSet(fed, nodes)
  {
    forall j | 0 <= j < |nodes|
      ensures nodes[j].server.localPolicyDigest == Some(fed.Digest(j))
    {
      assert NodeSound(fed, nodes[j], j);
    }
  }

  lemma RunKeepsChain(hash: Hash, config: KernelConfig, state: KernelState, request: ActionRequest,
                      timestamp: string, outcome: HandlerOutcome)
    requires ChainValid(hash, state.events) && Numbered(state.events)
    ensures var after := Handled(hash, config, state, request, timestamp, outcome);
            ChainValid(hash, after.events) && Numbered(after.events)
  {
    var r := Rule(config, request, outcome);
    AppendKeepsChain(hash, state.events, EntryFor(request, r.status, r.reason, r.metadata), timestamp);
  }

  lemma AskNotesAtMostTheAsker(fed: FederationConfig, nodes: seq<NodeState>, s: Submission, j: nat)
    requires Fits(fed, nodes, s) && j < |nodes|
    ensures var before, after := nodes[j].server.peerDigests, AskedAt(fed, nodes, s, j).server.peerDigests;
            after == before || after == before[fed.nodes[s.entry].nodeId := fed.Digest(s.entry)]
  {
    hide Handled, DecisionFor;
  }

  /** Being asked notes the asker's true digest, or nothing. */
  lemma AskAttributes(fed: FederationConfig, nodes: seq<NodeState>, s: Submission, j: nat)
    requires Fits(fed, nodes, s) && j < |nodes|
    requires Attributed(fed, nodes[j].server.peerDigests)
    ensures Attributed(fed, AskedAt(fed, nodes, s, j).server.peerDigests)
  {
    hide AskedAt;
    var before, after := nodes[j].server.peerDigests, AskedAt(fed, nodes, s, j).server.peerDigests;
    var e := s.entry;
    AskNotesAtMostTheAsker(fed, nodes, s, j);
    forall id | id in after
      ensures exists i :: 0 <= i < |fed.nodes| && fed.nodes[i].nodeId == id && fed.Digest(i) == after[id]
    {
      if after != before && id == fed.nodes[e].nodeId {
        assert fed.Digest(e) == after[id];
      } else {
        assert id in before && before[id] == after[id];
      }
    }
  }

  lemma SubmitKeepsNode(fed: FederationConfig, nodes: seq<NodeState>, s: Submission, j: nat)
    requires Fits(fed, nodes, s) && Sound(fed, nodes) && s.request.IsValid() && j < |nodes|
    ensures NodeSound(fed, Submit(fed, nodes, s).nodes[j], j)
  {
    assert NodeSound(fed, nodes[j], j);
    SoundMeansDigestsSet(fed, nodes);
    SubmitAppends(fed, nodes, s, j);
    RunKeepsChain(fed.crypto.eventHash, fed.nodes[j].kernel, nodes[j].kernel,
                  s.request, s.env[j].timestamp, s.env[j].handler);
    AskAttributes(fed, nodes, s, j);
    RunIsFound(fed, nodes, s, s.entry);
    if j != s.entry {
      AskIsFaithful(fed, nodes, s, j);
    }
  }

  lemma StepKeepsSound(fed: FederationConfig, nodes: seq<NodeState>, action: Action)
    requires Sound(fed, nodes) && |nodes| == |fed.nodes| && Suits(|nodes|, action)
    ensures Sound(fed, Step(fed, nodes, action))
  {
    var after := Step(fed, nodes, action);
    forall j | 0 <= j < |nodes|
      ensures NodeSound(fed, after[j], j)
    {
      assert NodeSound(fed, nodes[j], j);
      if action.DoSubmit? && action.submission.request.IsValid() {
        SubmitKeepsNode(fed, nodes, action.submission, j);
      }
    }
  }

  /** Over any run the cluster stays sound, whatever the world does. */
  lemma {:induction false} RunStaysSound(fed: FederationConfig, start: seq<NodeState>, actions: seq<Action>)
    requires Sound(fed, start) && AllSuit(|start|, actions)
    ensures Sound(fed, Run(fed, start, actions))
  {
    if actions == [] {
    } else {
      var m := |actions| - 1;
      RunStaysSound(fed, start, actions[..m]);
      StepKeepsSound(fed, Run(fed, start, actions[..m]), actions[m]);
    }
  }

  // ---- safety over whole runs ----

  /** Whatever happens between them, two submissions of one run that are both
      ALLOWED were entered under one and the same policy version. */
  lemma RunsAgreeOnPolicy(fed: FederationConfig, start: seq<NodeState>, actions: seq<Action>, k: nat, m: nat)
    requires Sound(fed, start) && AllSuit(|start|, actions)
    requires k < |actions| && m < |actions| && actions[k].DoSubmit? && actions[m].DoSubmit?
    ensures && IsAllowed(fed, Run(fed, start, actions[..k]), actions[k].submission)
            && IsAllowed(fed, Run(fed, start, actions[..m]), actions[m].submission) ==>
              PolicyAgrees(fed, actions[k].submission.entry, actions[m].submission.entry)
  {
    hide IsAllowed, Step;
    assert Suits(|start|, actions[k]) && Suits(|start|, actions[m]);
    var before, before' := Run(fed, start, actions[..k]), Run(fed, start, actions[..m]);
    RunStaysSound(fed, start, actions[..k]);
    RunStaysSound(fed, start, actions[..m]);
    SoundMeansDigestsSet(fed, before);
    SoundMeansDigestsSet(fed, before');
    OneVersionWins(fed, before, actions[k].submission, before', actions[m].submission);
  }

  /** No step loses or changes what was recorded. */
  lemma StepOnlyGrows(fed: FederationConfig, nodes: seq<NodeState>, action: Action, j: nat)
    requires Sound(fed, nodes) && Suits(|nodes|, action) && j < |nodes|
    ensures nodes[j].kernel.events <= Step(fed, nodes, action)[j].kernel.events
    ensures nodes[j].kernel.calls <= Step(fed, nodes, action)[j].kernel.calls
  {
    SoundMeansDigestsSet(fed, nodes);
    if action.DoSubmit? && action.submission.request.IsValid() {
      hide Submit, AskedAt, Sound, DigestsSet;
      SubmitAppends(fed, nodes, action.submission, j);
    }
  }

  /** Logs only grow over a run: nothing that was recorded is lost or changed. */
  lemma {:induction false} LogsOnlyGrow(fed: FederationConfig, start: seq<NodeState>, actions: seq<Action>, j: nat)
    requires Sound(fed, start) && AllSuit(|start|, actions) && j < |start|
    ensures start[j].kernel.events <= Run(fed, start, actions)[j].kernel.events
    ensures start[j].kernel.calls <= Run(fed, start, actions)[j].kernel.calls
  {
    hide Step;
    if actions == [] {
    } else {
      var m := |actions| - 1;
      LogsOnlyGrow(fed, start, actions[..m], j);
      RunStaysSound(fed, start, actions[..m]);
      assert Suits(|start|, actions[m]);
      StepOnlyGrows(fed, Run(fed, start, actions[..m]), actions[m], j);
    }
  }

  // ---- masks and liveness over whole runs ----

  /** All nodes of a cluster are always under one mask, whatever happens. */
  lemma {:induction false} MasksAgree(fed: FederationConfig, start: seq<NodeState>, actions: seq<Action>, i: nat,
                                      j: nat)
    requires |start| == |fed.nodes| && AllSuit(|start|, actions) && i < |start| && j < |start|
    requires start[i].mask == start[j].mask
    ensures Run(fed, start, actions)[i].mask == Run(fed, start, actions)[j].mask
  {
    hide Submit;
    if actions == [] {
    } else {
      var m := |actions| - 1;
      MasksAgree(fed, start, actions[..m], i, j);
      if actions[m].DoSubmit? {
        SubmitKeeps(fed, Run(fed, start, actions[..m]), actions[m].submission);
      }
    }
  }

  /** The mask that the latest partition of the run has set at a node. */
  function LastMask(start: seq<NodeState>, actions: seq<Action>, e: nat): set<string>
    requires e < |start|
  {
    if actions == [] then start[e].mask
    else if actions[|actions| - 1].DoSetPartition? then actions[|actions| - 1].partitioned
    else LastMask(start, actions[..|actions| - 1], e)
  }

  /** The mask of a node is the one set last, whatever else has happened. */
  lemma {:induction false} MaskIsLatest(fed: FederationConfig, start: seq<NodeState>, actions: seq<Action>, e: nat)
    requires |start| == |fed.nodes| && AllSuit(|start|, actions) && e < |start|
    ensures Run(fed, start, actions)[e].mask == LastMask(start, actions, e)
  {
    hide Submit;
    if actions == [] {
    } else {
      var m := |actions| - 1;
      MaskIsLatest(fed, start, actions[..m], e);
      if actions[m].DoSubmit? {
        SubmitKeeps(fed, Run(fed, start, actions[..m]), actions[m].submission);
      }
    }
  }

  /** When node `e` last heard from `id`, by its own clock: the latest heartbeat
      of the run, or else what it knew at the start. It does not listen to itself. */
  function LastSeen(fed: FederationConfig, start: seq<NodeState>, actions: seq<Action>,
                    e: nat, id: string): Option<real>
    requires |start| == |fed.nodes| && e < |start|
  {
    if actions == [] then
      if id in start[e].peersSeen then Some(start[e].peersSeen[id]) else None
    else
      match actions[|actions| - 1]
      case DoHeartbeat(sender, clock) =>
        if sender == id && fed.nodes[e].nodeId != id && e < |clock| then Some(clock[e])
        else LastSeen(fed, start, actions[..|actions| - 1], e, id)
      case _ => LastSeen(fed, start, actions[..|actions| - 1], e, id)
  }

  /** Over any run a peer is alive to a node exactly when the node last heard
      from it within the timeout; no change of partition or submission disturbs that. */
  lemma {:induction false} AliveMeansHeard(fed: FederationConfig, start: seq<NodeState>, actions: seq<Action>,
                                           e: nat, id: string, now: real)
    requires |start| == |fed.nodes| && AllSuit(|start|, actions) && e < |start|
    ensures var seen := Run(fed, start, actions)[e].peersSeen;
            var last := LastSeen(fed, start, actions, e, id);
            && (id in seen <==> last.Some?) && (id in seen ==> seen[id] == last.value)
            && (Alive(seen, id, now, fed.heartbeatTimeout) <==> last.Some? && now - last.value < fed.heartbeatTimeout)
  {
    hide Submit;
    if actions == [] {
    } else {
      var m := |actions| - 1;
      AliveMeansHeard(fed, start, actions[..m], e, id, now);
      assert Suits(|start|, actions[m]);
      if actions[m].DoSubmit? {
        SubmitKeeps(fed, Run(fed, start, actions[..m]), actions[m].submission);
      }
    }
  }

  /** After any run: an entry that has lately heard from nobody denies, with the
      partition reason, whatever the request, the masks and the other nodes say. */
  lemma {:induction false} SilenceFailsClosed(fed: FederationConfig, start: seq<NodeState>, actions: seq<Action>,
                                              s: Submission)
    requires Sound(fed, start) && AllSuit(|start|, actions) && |start| >= 2
    requires Fits(fed, start, s) && s.request.IsValid()
    requires forall j :: 0 <= j < |start| && j != s.entry ==>
               var last := LastSeen(fed, start, actions, s.entry, fed.nodes[j].nodeId);
               last.None? || s.env[j].now - last.value >= fed.heartbeatTimeout
    ensures var r := Submit(fed, Run(fed, start, actions), s).result;
            r.Decided? && r.decision.status == DENIED && r.decision.reason.QuorumUnreachable?
  {
    hide Submit, Run, LastSeen, Alive;
    var nodes := Run(fed, start, actions);
    RunStaysSound(fed, start, actions);
    SoundMeansDigestsSet(fed, nodes);
    forall j | 0 <= j < |nodes| && j != s.entry
      ensures !Alive(nodes[s.entry].peersSeen, fed.nodes[j].nodeId, s.env[j].now, fed.heartbeatTimeout)
    {
      AliveMeansHeard(fed, start, actions, s.entry, fed.nodes[j].nodeId, s.env[j].now);
    }
    var d := FailsClosed(fed, nodes, s);
  }

  // ---- the drift map over whole runs ----

  /** Node `p` has the name and refuses. */
  predicate RefusesAs(fed: FederationConfig, nodes: seq<NodeState>, s: Submission, id: string, p: nat)
    requires Fits(fed, nodes, s) && p < |nodes|
  {
    fed.nodes[p].nodeId == id && StanceOf(fed, nodes, s, p) == Refuses
  }

  /** The last of the first `k` nodes that has the name and refuses. Names may repeat. */
  ghost function LastRefuser(fed: FederationConfig, nodes: seq<NodeState>, s: Submission, id: string, k: nat)
    : (r: Option<nat>)
    requires Fits(fed, nodes, s) && k <= |nodes|
    ensures r.Some? ==> r.value < k && RefusesAs(fed, nodes, s, id, r.value)
    ensures forall p :: 0 <= p < k && RefusesAs(fed, nodes, s, id, p) ==> r.Some? && p <= r.value
  {
    if k == 0 then None
    else if RefusesAs(fed, nodes, s, id, k - 1) then Some(k - 1)
    else LastRefuser(fed, nodes, s, id, k - 1)
  }

  function Lookup(drift: map<string, DriftRecord>, id: string): Option<DriftRecord> {
    if id in drift then Some(drift[id]) else None
  }

  lemma DriftMeansRefusal(fed: FederationConfig, nodes: seq<NodeState>, s: Submission, j: nat)
    requires Fits(fed, nodes, s) && DigestsSet(fed, nodes) && s.request.IsValid() && j < |nodes|
    ensures var outcome := AskedAt(fed, nodes, s, j).outcome;
            && (outcome.Drift? <==> StanceOf(fed, nodes, s, j) == Refuses)
            && (outcome.Drift? ==> outcome == Drift(fed.Digest(j)))
  {
    if j != s.entry {
      AskIsFaithful(fed, nodes, s, j);
    }
  }

  /** What one submission does to the entry's drift map: a name of which some node
      refuses is entered, with the entry's digest and that of the last such node,
      and the entry of any other name stays as it was. */
  lemma {:induction false} DriftOfSubmit(fed: FederationConfig, nodes: seq<NodeState>, s: Submission, id: string,
                                         k: nat)
    requires Fits(fed, nodes, s) && DigestsSet(fed, nodes) && s.request.IsValid() && k <= |nodes|
    ensures var last := LastRefuser(fed, nodes, s, id, k);
            Lookup(DriftUpTo(fed, nodes, s, k), id)
            == if last.Some? then Some(DriftRecord(fed.Digest(s.entry), fed.Digest(last.value)))
               else Lookup(nodes[s.entry].driftRefusals, id)
  {
    hide AskedAt, StanceOf, Suits, DigestsSet;
    if k == 0 {
    } else {
      DriftOfSubmit(fed, nodes, s, id, k - 1);
      DriftMeansRefusal(fed, nodes, s, k - 1);
    }
  }

  /** The last node of the name that refused entry `e` in this step, if any. */
  ghost function RefuserIn(fed: FederationConfig, nodes: seq<NodeState>, action: Action,
                           e: nat, id: string): Option<nat>
    requires |nodes| == |fed.nodes| && Suits(|nodes|, action)
  {
    if action.DoSubmit? && action.submission.entry == e && action.submission.request.IsValid()
    then LastRefuser(fed, nodes, action.submission, id, |nodes|)
    else None
  }

  /** What one step does to the record of a name. */
  lemma DriftStep(fed: FederationConfig, nodes: seq<NodeState>, action: Action, e: nat, id: string)
    requires DigestsSet(fed, nodes) && |nodes| == |fed.nodes| && Suits(|nodes|, action) && e < |nodes|
    ensures var refuser := RefuserIn(fed, nodes, action, e, id);
            Lookup(Step(fed, nodes, action)[e].driftRefusals, id)
            == if refuser.Some? then Some(DriftRecord(fed.Digest(e), fed.Digest(refuser.value)))
               else if action == DoClearDrift(e, id) then None
               else Lookup(nodes[e].driftRefusals, id)
  {
    hide StanceOf, TallyUpTo, RunAt, AskedAt, Conclude, DecisionAt, LastRefuser, DriftUpTo;
    if action.DoSubmit? && action.submission.request.IsValid() {
      var s := action.submission;
      RunIsFound(fed, nodes, s, s.entry);
      if s.entry == e {
        DriftOfSubmit(fed, nodes, s, id, |nodes|);
      }
    }
  }

  /** The last node of the name that refused entry `e` in step `m` of a run. */
  ghost function RefusalAt(fed: FederationConfig, start: seq<NodeState>, actions: seq<Action>, m: nat,
                           e: nat, id: string): Option<nat>
    requires |start| == |fed.nodes| && AllSuit(|start|, actions) && m < |actions|
  {
    RefuserIn(fed, Run(fed, start, actions[..m]), actions[m], e, id)
  }

  /** In step `m` a node of the name refused, and no later step has cleared the name. */
  ghost predicate Outstanding(fed: FederationConfig, start: seq<NodeState>, actions: seq<Action>, m: nat,
                              e: nat, id: string)
    requires |start| == |fed.nodes| && AllSuit(|start|, actions) && m < |actions|
  {
    && RefusalAt(fed, start, actions, m, e, id).Some?
    && forall k :: m < k < |actions| ==> actions[k] != DoClearDrift(e, id)
  }

  /** It is the newest refusal of the name. */
  ghost predicate Newest(fed: FederationConfig, start: seq<NodeState>, actions: seq<Action>, m: nat, e: nat, id: string)
    requires |start| == |fed.nodes| && AllSuit(|start|, actions) && m < |actions|
  {
    forall k :: m < k < |actions| ==> RefusalAt(fed, start, actions, k, e, id) == None
  }

  /** Some node of the name has refused since the last clearing of the name. */
  ghost predicate Drifted(fed: FederationConfig, start: seq<NodeState>, actions: seq<Action>, e: nat, id: string)
    requires |start| == |fed.nodes| && AllSuit(|start|, actions)
  {
    exists m :: 0 <= m < |actions| && Outstanding(fed, start, actions, m, e, id)
  }

  /** Steps before the last look the same without it. */
  lemma EarlierSteps(fed: FederationConfig, start: seq<NodeState>, actions: seq<Action>, m: nat, e: nat, id: string)
    requires |start| == |fed.nodes| && AllSuit(|start|, actions) && m + 1 < |actions|
    ensures RefusalAt(fed, start, actions[..|actions| - 1], m, e, id) == RefusalAt(fed, start, actions, m, e, id)
  {
    assert actions[..|actions| - 1][..m] == actions[..m];
  }

  /** An earlier refusal is outstanding after one more step exactly when it was
      before and the step does not clear it. */
  lemma OutstandingSnoc(fed: FederationConfig, start: seq<NodeState>, actions: seq<Action>, m: nat, e: nat, id: string)
    requires |start| == |fed.nodes| && AllSuit(|start|, actions) && m + 1 < |actions|
    ensures var n := |actions| - 1;
            Outstanding(fed, start, actions, m, e, id) <==>
            Outstanding(fed, start, actions[..n], m, e, id) && actions[n] != DoClearDrift(e, id)
  {
    hide Run, RefusalAt;
    EarlierSteps(fed, start, actions, m, e, id);
    var n := |actions| - 1;
    assert forall k :: m < k < n ==> actions[..n][k] == actions[k];
  }

  lemma OutstandingLast(fed: FederationConfig, start: seq<NodeState>, actions: seq<Action>, e: nat, id: string)
    requires |start| == |fed.nodes| && AllSuit(|start|, actions) && actions != []
    ensures Outstanding(fed, start, actions, |actions| - 1, e, id) <==>
            RefusalAt(fed, start, actions, |actions| - 1, e, id).Some?
  {
  }

  lemma DriftedSnoc(fed: FederationConfig, start: seq<NodeState>, actions: seq<Action>, e: nat, id: string)
    requires |start| == |fed.nodes| && AllSuit(|start|, actions) && actions != []
    ensures var n := |actions| - 1;
            Drifted(fed, start, actions, e, id) <==>
            || RefusalAt(fed, start, actions, n, e, id).Some?
            || (Drifted(fed, start, actions[..n], e, id) && actions[n] != DoClearDrift(e, id))
  {
    hide Run, RefusalAt, Outstanding;
    var n := |actions| - 1;
    OutstandingLast(fed, start, actions, e, id);
    forall m: nat | m < n
      ensures Outstanding(fed, start, actions, m, e, id) <==>
              Outstanding(fed, start, actions[..n], m, e, id) && actions[n] != DoClearDrift(e, id)
    {
      OutstandingSnoc(fed, start, actions, m, e, id);
    }
  }

  /** `drifted_peers()` of node `e` lists exactly the names of which some node has
      refused it since the last clearing of that name, through every change of
      partition. */
  lemma {:induction false} DriftIsExact(fed: FederationConfig, start: seq<NodeState>, actions: seq<Action>, e: nat,
                                        id: string)
    requires Sound(fed, start) && AllSuit(|start|, actions)
    requires e < |start| && id !in start[e].driftRefusals
    ensures id in Run(fed, start, actions)[e].driftRefusals <==> Drifted(fed, start, actions, e, id)
  {
    hide Step, RefuserIn, Drifted;
    if actions == [] {
      NoneDrifted(fed, start, e, id);
    } else {
      var n := |actions| - 1;
      DriftIsExact(fed, start, actions[..n], e, id);
      StepOfRun(fed, start, actions, e, id);
      DriftedSnoc(fed, start, actions, e, id);
    }
  }

  lemma NoneDrifted(fed: FederationConfig, start: seq<NodeState>, e: nat, id: string)
    requires |start| == |fed.nodes|
    ensures !Drifted(fed, start, [], e, id)
  {
  }

  /** The last step of a run, on the record of a name. */
  lemma StepOfRun(fed: FederationConfig, start: seq<NodeState>, actions: seq<Action>, e: nat, id: string)
    requires Sound(fed, start) && AllSuit(|start|, actions) && actions != [] && e < |start|
    ensures var n := |actions| - 1;
            var refuser := RefusalAt(fed, start, actions, n, e, id);
            Lookup(Run(fed, start, actions)[e].driftRefusals, id)
            == if refuser.Some? then Some(DriftRecord(fed.Digest(e), fed.Digest(refuser.value)))
               else if actions[n] == DoClearDrift(e, id) then None
               else Lookup(Run(fed, start, actions[..n])[e].driftRefusals, id)
  {
    hide Step, RefuserIn;
    var n := |actions| - 1;
    var before := Run(fed, start, actions[..n]);
    assert Suits(|start|, actions[n]);
    RunStaysSound(fed, start, actions[..n]);
    SoundMeansDigestsSet(fed, before);
    DriftStep(fed, before, actions[n], e, id);
  }

  /** What it shows for a name are the digests of `e` and of the newest refuser. */
  lemma {:induction false} DriftShowsNewest(fed: FederationConfig, start: seq<NodeState>, actions: seq<Action>, m: nat,
                                            e: nat, id: string)
    requires Sound(fed, start) && AllSuit(|start|, actions) && e < |start| && m < |actions|
    requires Outstanding(fed, start, actions, m, e, id) && Newest(fed, start, actions, m, e, id)
    ensures Lookup(Run(fed, start, actions)[e].driftRefusals, id)
            == Some(DriftRecord(fed.Digest(e), fed.Digest(RefusalAt(fed, start, actions, m, e, id).value)))
  {
    hide Run, RefusalAt;
    var n := |actions| - 1;
    StepOfRun(fed, start, actions, e, id);
    if m == n {
    } else {
      OutstandingSnoc(fed, start, actions, m, e, id);
      NewestSnoc(fed, start, actions, m, e, id);
      EarlierSteps(fed, start, actions, m, e, id);
      DriftShowsNewest(fed, start, actions[..n], m, e, id);
    }
  }

  lemma NewestSnoc(fed: FederationConfig, start: seq<NodeState>, actions: seq<Action>, m: nat, e: nat, id: string)
    requires |start| == |fed.nodes| && AllSuit(|start|, actions) && m + 1 < |actions|
    requires Newest(fed, start, actions, m, e, id)
    ensures var n := |actions| - 1;
            Newest(fed, start, actions[..n], m, e, id) && RefusalAt(fed, start, actions, n, e, id) == None
  {
    hide Run, RefusalAt;
    var n := |actions| - 1;
    forall k | m < k < n
      ensures RefusalAt(fed, start, actions[..n], k, e, id) == None
    {
      EarlierSteps(fed, start, actions, k, e, id);
    }
  }

  /** No name but a node's ever enters a drift map. */
  lemma {:induction false} OnlyNodesDrift(fed: FederationConfig, start: seq<NodeState>, actions: seq<Action>, e: nat,
                                          id: string)
    requires |start| == |fed.nodes| && AllSuit(|start|, actions) && e < |start| && id !in start[e].driftRefusals
    requires forall p :: 0 <= p < |fed.nodes| ==> fed.nodes[p].nodeId != id
    ensures id !in Run(fed, start, actions)[e].driftRefusals
  {
    hide Step;
    if actions == [] {
    } else {
      var n := |actions| - 1;
      OnlyNodesDrift(fed, start, actions[..n], e, id);
      StrangerStaysOut(fed, Run(fed, start, actions[..n]), actions[n], e, id);
    }
  }

  lemma StrangerStaysOut(fed: FederationConfig, nodes: seq<NodeState>, action: Action, e: nat, id: string)
    requires |nodes| == |fed.nodes| && Suits(|nodes|, action) && e < |nodes| && id !in nodes[e].driftRefusals
    requires forall p :: 0 <= p < |fed.nodes| ==> fed.nodes[p].nodeId != id
    ensures id !in Step(fed, nodes, action)[e].driftRefusals
  {
    hide TallyUpTo, RunAt, AskedAt, Conclude, DecisionAt;
    if action.DoSubmit? && action.submission.entry == e {
      StrangersDoNotDrift(fed, nodes, action.submission, id, |nodes|);
    }
  }

  lemma {:induction false} StrangersDoNotDrift(fed: FederationConfig, nodes: seq<NodeState>, s: Submission,
                                               id: string, k: nat)
    requires Fits(fed, nodes, s) && k <= |nodes| && id !in nodes[s.entry].driftRefusals
    requires forall p :: 0 <= p < |fed.nodes| ==> fed.nodes[p].nodeId != id
    ensures id !in DriftUpTo(fed, nodes, s, k)
  {
    hide AskedAt;
    if k == 0 {
    } else {
      StrangersDoNotDrift(fed, nodes, s, id, k - 1);
    }
  }
}
