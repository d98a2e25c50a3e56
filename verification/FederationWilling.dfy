/** When a submission can be allowed at all, told from the state before it: which
    nodes would approve if every call came through and every handler returned. */
module FederationWilling {
  import opened Models
  import opened Policy
  import opened Kernel
  import opened FederationSpec
  import opened FederationProperties

  /** Node `j` would approve: it has the entry's policy, its own gates let the
      request through, and it is in the entry's sight. */
  ghost predicate IsWilling(fed: FederationConfig, nodes: seq<NodeState>, s: Submission, j: nat)
    requires Fits(fed, nodes, s) && j < |nodes|
  {
    && fed.Digest(j) == fed.Digest(s.entry)
    && Authorized(fed.nodes[j].kernel, s.request)
    && if j == s.entry then !EntryMasked(fed, nodes, s) else Reachable(fed, nodes, s, j)
  }

  ghost function Willing(fed: FederationConfig, nodes: seq<NodeState>, s: Submission): set<nat>
    requires Fits(fed, nodes, s)
  {
    set j: nat | j < |nodes| && IsWilling(fed, nodes, s, j)
  }

  /** Another world that reads the same clocks: calls, timestamps and handlers may differ. */
  ghost predicate SameClocks(env: seq<NodeEnv>, env': seq<NodeEnv>) {
    |env'| == |env| && forall j :: 0 <= j < |env| ==> env'[j].now == env[j].now
  }

  ghost predicate AllowedIn(fed: FederationConfig, nodes: seq<NodeState>, s: Submission, env: seq<NodeEnv>)
    requires Fits(fed, nodes, s)
  {
    SameClocks(s.env, env) && IsAllowed(fed, nodes, s.(env := env))
  }

  /** In every world only willing nodes approve. */
  lemma ApproversAreWilling(fed: FederationConfig, nodes: seq<NodeState>, s: Submission, env: seq<NodeEnv>)
    requires Fits(fed, nodes, s) && SameClocks(s.env, env)
    ensures Approvers(fed, nodes, s.(env := env)) <= Willing(fed, nodes, s)
  {
    hide Gates, Evaluate, Check, Authorized;
    forall j | j in Approvers(fed, nodes, s.(env := env))
      ensures j in Willing(fed, nodes, s)
    {
      assert StanceOf(fed, nodes, s.(env := env), j) == Approves;
      GatesAuthorize(fed.nodes[j].kernel, s.request);
    }
  }

  /** The world in which every call comes through and every handler returns. */
  function GoodWorld(env: seq<NodeEnv>): (r: seq<NodeEnv>)
    ensures |r| == |env|
  {
    seq(|env|, j requires 0 <= j < |env| => env[j].(link := DELIVERED, handler := Returned(map[])))
  }

  /** In the good world all willing nodes do. */
  lemma WillingApprove(fed: FederationConfig, nodes: seq<NodeState>, s: Submission)
    requires Fits(fed, nodes, s)
    ensures Willing(fed, nodes, s) <= Approvers(fed, nodes, s.(env := GoodWorld(s.env)))
  {
    hide Gates, Evaluate, Check, Authorized;
    var good := s.(env := GoodWorld(s.env));
    forall j | j in Willing(fed, nodes, s)
      ensures j in Approvers(fed, nodes, good)
    {
      GatesAuthorize(fed.nodes[j].kernel, s.request);
      assert StanceOf(fed, nodes, good, j) == Approves;
    }
  }

  /** A request can be allowed, in some world of the given clocks, exactly when a
      majority of the configured cluster is willing before the call. */
  lemma CanBeAllowedExactly(fed: FederationConfig, nodes: seq<NodeState>, s: Submission)
    requires Fits(fed, nodes, s) && DigestsSet(fed, nodes)
    ensures (exists env :: AllowedIn(fed, nodes, s, env)) <==> 2 * |Willing(fed, nodes, s)| > |fed.nodes|
    ensures 2 * |Willing(fed, nodes, s)| > |fed.nodes| ==> AllowedIn(fed, nodes, s, GoodWorld(s.env))
  {
    hide IsAllowed, Willing, Approvers;
    var willing := Willing(fed, nodes, s);
    if env :| AllowedIn(fed, nodes, s, env) {
      ApproversAreWilling(fed, nodes, s, env);
      AllowedMeansMajority(fed, nodes, s.(env := env));
      NoLarger(Approvers(fed, nodes, s.(env := env)), willing);
    }
    if 2 * |willing| > |fed.nodes| {
      var good := s.(env := GoodWorld(s.env));
      WillingAreValid(fed, nodes, s);
      WillingApprove(fed, nodes, s);
      NoLarger(willing, Approvers(fed, nodes, good));
      AllowedMeansMajority(fed, nodes, good);
      assert SameClocks(s.env, good.env);
      assert AllowedIn(fed, nodes, s, good.env);
    }
  }

  lemma WillingAreValid(fed: FederationConfig, nodes: seq<NodeState>, s: Submission)
    requires Fits(fed, nodes, s) && |Willing(fed, nodes, s)| > 0
    ensures s.request.IsValid()
  {
    var j :| j in Willing(fed, nodes, s);
    assert Authorized(fed.nodes[j].kernel, s.request);
  }

  lemma NoLarger(a: set<nat>, b: set<nat>)
    requires a <= b
    ensures |a| <= |b|
  {
    assert b == a + (b - a);
  }

  /** What is written of a masked entry, "it must deny", holds exactly when fewer
      of the other nodes than a quorum are willing: its own vote is all it loses. */
  lemma MaskedEntryDeniesExactly(fed: FederationConfig, nodes: seq<NodeState>, s: Submission)
    requires Fits(fed, nodes, s) && DigestsSet(fed, nodes) && EntryMasked(fed, nodes, s)
    ensures s.entry !in Willing(fed, nodes, s)
    ensures (forall env :: SameClocks(s.env, env) ==> !IsAllowed(fed, nodes, s.(env := env)))
            <==> 2 * |Willing(fed, nodes, s) - {s.entry}| <= |fed.nodes|
  {
    hide IsAllowed, Reachable, Authorized;
    assert s.entry !in Willing(fed, nodes, s);
    assert Willing(fed, nodes, s) - {s.entry} == Willing(fed, nodes, s);
    CanBeAllowedExactly(fed, nodes, s);
    forall env | SameClocks(s.env, env)
      ensures IsAllowed(fed, nodes, s.(env := env)) <==> AllowedIn(fed, nodes, s, env)
    {
    }
  }

  // ---- a masked entry that allows ----

  function ExampleKernel(): KernelConfig {
    KernelConfig(
      map["u" := Subject("u", "u", [], true)],
      [PolicyRule("p", ALLOW, "*", "*", "*", "")],
      [CapabilityGrant("g", "u", "*", "*")],
      {"op"})
  }

  /** Three nodes of one policy. */
  function ExampleFederation(crypto: Crypto): FederationConfig {
    FederationConfig(
      crypto,
      [NodeConfig("a", "", ExampleKernel()),
       NodeConfig("b", "", ExampleKernel()),
       NodeConfig("c", "", ExampleKernel())],
      5.0)
  }

  /** Node "a" is partitioned; everyone has just been heard of. */
  function ExampleNode(crypto: Crypto): NodeState {
    NodeState(
      KernelState([], []),
      ServerState(Some(crypto.policyDigest(ExampleKernel().rules)), map[], map[]),
      {"a"},
      map["a" := 0.0, "b" := 0.0, "c" := 0.0],
      map[])
  }

  function ExampleNodes(crypto: Crypto): seq<NodeState> {
    [ExampleNode(crypto), ExampleNode(crypto), ExampleNode(crypto)]
  }

  /** A request through the partitioned node. */
  function ExampleSubmission(): Submission {
    var env := NodeEnv(1.0, DELIVERED, "", Returned(map[]));
    Submission(0, ActionRequest("r", "u", "op", "x", map[]), [env, env, env])
  }

  /** The masked entry answers ALLOWED, on the votes of its two peers. */
  lemma MaskedEntryCanAllow(crypto: Crypto)
    ensures var fed, nodes, s := ExampleFederation(crypto), ExampleNodes(crypto), ExampleSubmission();
            && Fits(fed, nodes, s) && DigestsSet(fed, nodes)
            && EntryMasked(fed, nodes, s)
            && Willing(fed, nodes, s) == {1, 2}
            && IsAllowed(fed, nodes, s)
  {
    hide IsAllowed, SomeRule, SomeGrant;
    var fed, nodes, s := ExampleFederation(crypto), ExampleNodes(crypto), ExampleSubmission();
    assert DigestsSet(fed, nodes);
    ExampleIsAuthorized();
    assert forall j :: 0 <= j < 3 ==> fed.nodes[j].kernel == ExampleKernel();
    assert Willing(fed, nodes, s) == {1, 2};
    CanBeAllowedExactly(fed, nodes, s);
    assert GoodWorld(s.env) == s.env;
  }

  lemma ExampleIsAuthorized()
    ensures Authorized(ExampleKernel(), ExampleSubmission().request)
  {
    var config, request := ExampleKernel(), ExampleSubmission().request;
    assert config.rules[0] in config.rules && Says(config.rules[0], ALLOW, request);
    assert config.grants[0] in config.grants && Grants(config.grants[0], request);
    forall r | r in config.rules
      ensures r.effect == ALLOW
    {
    }
  }
}
