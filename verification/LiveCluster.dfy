/** The cluster object: it builds one server and one node for each kernel, and
    every one of its operations is a step of FederationSpec. */
module LiveCluster {
  import opened Models
  import opened Text
  import opened Kernel
  import opened FederationSpec
  import opened Federation

  /** The default of `heartbeat_timeout_seconds`. */
  const HEARTBEAT_TIMEOUT: real := 5.0

  datatype Built =
    | Built(cluster: LiveCluster)
    | NoKernels
    | IdCountMismatch
    | KeyCountMismatch
    | EmptyPolicyList

  function DefaultId(i: nat): string {
    "node-" + Decimal(i + 1)
  }

  function DefaultKey(i: nat): string {
    "pubkey-" + Decimal(i)
  }

  function DefaultIds(n: nat): (r: seq<string>)
    ensures |r| == n
  {
    seq(n, i requires 0 <= i => DefaultId(i))
  }

  function DefaultKeys(n: nat): (r: seq<string>)
    ensures |r| == n
  {
    seq(n, i requires 0 <= i => DefaultKey(i))
  }

  /** `list(given) if given else defaults`: an empty list counts as not given. */
  function Chosen(given: seq<string>, defaults: seq<string>): seq<string> {
    if given == [] then defaults else given
  }

  /** The default names are "node-" and the place, counted from one, and differ
      from each other; the default keys count from zero. */
  lemma DefaultsTell(i: nat, j: nat)
    ensures |DefaultId(i)| > 5 && DefaultId(i)[..5] == "node-"
    ensures AllDigits(DefaultId(i)[5..]) && ParseDecimal(DefaultId(i)[5..]) == i + 1
    ensures |DefaultKey(i)| > 7 && DefaultKey(i)[..7] == "pubkey-"
    ensures AllDigits(DefaultKey(i)[7..]) && ParseDecimal(DefaultKey(i)[7..]) == i
    ensures i != j ==> DefaultId(i) != DefaultId(j) && DefaultKey(i) != DefaultKey(j)
  {
    hide Decimal;
    DefaultTells(i);
    DefaultTells(j);
  }

  lemma DefaultTells(i: nat)
    ensures |DefaultId(i)| > 5 && DefaultId(i)[..5] == "node-" && DefaultId(i)[5..] == Decimal(i + 1)
    ensures |DefaultKey(i)| > 7 && DefaultKey(i)[..7] == "pubkey-" && DefaultKey(i)[7..] == Decimal(i)
    ensures ParseDecimal(Decimal(i)) == i && ParseDecimal(Decimal(i + 1)) == i + 1
  {
    hide Decimal, ParseDecimal;
    DecimalRoundTrip(i);
    DecimalRoundTrip(i + 1);
  }

  /** Kernels that share neither themselves nor their logs, all hashing alike. */
  ghost predicate KernelsApart(crypto: Crypto, kernels: seq<ConstitutionalKernel>) {
    && (forall i :: 0 <= i < |kernels| ==> kernels[i].auditLog.hash == crypto.eventHash)
    && forall i, j :: 0 <= i < j < |kernels| ==>
         kernels[i] != kernels[j] && kernels[i].auditLog != kernels[j].auditLog
  }

  function ConfigOf(crypto: Crypto, kernels: seq<ConstitutionalKernel>, ids: seq<string>,
                    keys: seq<string>): FederationConfig
    requires |kernels| == |ids| == |keys|
  {
    FederationConfig(
      crypto,
      seq(|kernels|, i requires 0 <= i < |kernels| => NodeConfig(ids[i], keys[i], kernels[i].config)),
      HEARTBEAT_TIMEOUT)
  }

  ghost function OtherIds(fed: FederationConfig, i: nat): set<string>
    requires i < |fed.nodes|
  {
    set j: nat | j < |fed.nodes| && j != i :: fed.nodes[j].nodeId
  }

  /** Every other node has just been seen. */
  ghost function SeenAtStart(fed: FederationConfig, i: nat, now: real): map<string, real>
    requires i < |fed.nodes|
  {
    map id | id in OtherIds(fed, i) :: now
  }

  ghost function StateOf(node: FederationNode, server: FederationServer): NodeState
    reads node, server, server.kernel, server.kernel.auditLog
  {
    NodeState(server.kernel.State(), server.State(), node.partitionMask, node.peersSeen, node.driftRefusals)
  }

  /** The peer list of node `i`, in the order of the slots. */
  method PeersFor(fed: FederationConfig, i: nat) returns (peers: seq<Peer>)
    requires i < |fed.nodes|
    ensures |peers| == |fed.nodes| - 1
    ensures forall m :: 0 <= m < |peers| ==> peers[m] == PeerAt(fed, i, m)
  {
    peers := [];
    for j := 0 to |fed.nodes|
      invariant |peers| == if j <= i then j else j - 1
      invariant forall m :: 0 <= m < |peers| ==> peers[m] == PeerAt(fed, i, m)
    {
      if i != j {
        peers := peers + [Peer(fed.nodes[j].nodeId, j, fed.nodes[j].publicKey)];
      }
    }
  }

  class LiveCluster {
    const fed: FederationConfig
    const servers: Network
    var nodes: seq<FederationNode>
    var partitionMask: set<string>

    ghost predicate Valid()
      reads this
    {
      && |nodes| == |servers| == |fed.nodes| >= 1
      && (forall i :: 0 <= i < |nodes| ==> WiredAt(i))
      && forall i, j :: 0 <= i < j < |nodes| ==> nodes[i] != nodes[j]
    }

    ghost predicate WiredAt(i: nat)
      requires i < |nodes|
      reads this
    {
      nodes[i].Wired(fed, servers, i) && nodes[i].partitionMask == partitionMask
    }

    ghost function View(): (r: seq<NodeState>)
      requires |nodes| == |servers|
      reads this, nodes, Heap(servers)
      ensures |r| == |nodes|
    {
      seq(|nodes|, i requires 0 <= i < |nodes| == |servers| reads this, nodes, Heap(servers) =>
        assert servers[i] in servers;
        StateOf(nodes[i], servers[i]))
    }

    constructor (fed: FederationConfig, servers: Network, nodes: seq<FederationNode>)
      ensures this.fed == fed && this.servers == servers && this.nodes == nodes && partitionMask == {}
    {
      this.fed := fed;
      this.servers := servers;
      this.nodes := nodes;
      this.partitionMask := {};
    }

    /** `set_partition`: every slot gets a copy of its node under the new mask. */
    method SetPartition(partitioned: set<string>)
      requires Valid()
      modifies this
      ensures Valid() && partitionMask == partitioned
      ensures View() == Step(fed, old(View()), DoSetPartition(partitioned))
      ensures fresh(nodes)
    {
      hide FederationNode.Wired;
      var before := nodes;
      partitionMask := partitioned;
      var renewed: seq<FederationNode> := [];
      for i := 0 to |before|
        invariant nodes == before && partitionMask == partitioned
        invariant |renewed| == i
        invariant fresh(renewed)
        invariant forall k, l :: 0 <= k < l < i ==> renewed[k] != renewed[l]
        invariant forall k :: 0 <= k < i ==>
                    renewed[k].Wired(fed, servers, k) && renewed[k].partitionMask == partitioned
        invariant forall k :: 0 <= k < i ==>
                    renewed[k].peersSeen == before[k].peersSeen && renewed[k].driftRefusals == before[k].driftRefusals
      {
        assert old(WiredAt(i));
        var node := before[i].WithPartition(partitioned);
        before[i].CopyIsWired(node, fed, servers, i);
        renewed := renewed + [node];
      }
      nodes := renewed;
      assert forall i :: 0 <= i < |nodes| ==> WiredAt(i);
      assert forall i :: 0 <= i < |nodes| ==> servers[i] in servers;
    }

    method Submit(request: ActionRequest, entry: nat, env: seq<NodeEnv>) returns (result: SubmitResult)
      requires Valid() && entry < |nodes| && |env| == |nodes|
      modifies nodes[entry], Heap(servers)
      ensures Valid()
      ensures var s := Submission(entry, request, env);
              && result == FederationSpec.Submit(fed, old(View()), s).result
              && View() == Step(fed, old(View()), DoSubmit(s))
    {
      hide FederationSpec.Submit, FederationNode.Wired;
      ghost var before := View();
      ghost var s := Submission(entry, request, env);
      SubmitKeeps(fed, before, s);
      assert WiredAt(entry);
      assert NetworkIs(servers, HostsOf(before));
      result := nodes[entry].Submit(request, servers, env, entry, fed, before);
      ghost var after := FederationSpec.Submit(fed, before, s).nodes;
      forall j | 0 <= j < |nodes|
        ensures View()[j] == after[j] && WiredAt(j)
      {
        assert HostIs(servers, j, HostsOf(after)[j]);
        assert old(WiredAt(j));
        assert before[j].mask == nodes[j].partitionMask;
        assert j != entry ==> nodes[j] != nodes[entry];
      }
      assert View() == after;
    }

    /** One node hears of a heartbeat, and no other notices. */
    method Hear(i: nat, sender: string, now: real)
      requires Valid() && i < |nodes|
      modifies nodes[i]
      ensures Valid()
      ensures View() == old(View())[i := HeartbeatAt(fed.nodes[i], old(View())[i], sender, now)]
    {
      hide FederationNode.Wired;
      assert WiredAt(i);
      nodes[i].IsTheEntry(fed, servers, i);
      if nodes[i].nodeId != sender {
        nodes[i].RecordPeerHeartbeat(sender, now);
      }
      assert forall k :: 0 <= k < |nodes| ==> old(WiredAt(k));
    }

    /** A heartbeat from `sender` has reached one of the servers. */
    method OnHeartbeat(sender: string, clock: seq<real>)
      requires Valid() && |clock| == |nodes|
      modifies nodes
      ensures Valid()
      ensures View() == Step(fed, old(View()), DoHeartbeat(sender, clock))
    {
      hide View, WiredAt, HeartbeatAt;
      ghost var before := View();
      for i := 0 to |nodes|
        invariant Valid()
        invariant forall k :: 0 <= k < i ==> View()[k] == HeartbeatAt(fed.nodes[k], before[k], sender, clock[k])
        invariant forall k :: i <= k < |nodes| ==> View()[k] == before[k]
      {
        Hear(i, sender, clock[i]);
      }
    }

    method ClearDrift(i: nat, peerId: string)
      requires Valid() && i < |nodes|
      modifies nodes[i]
      ensures Valid()
      ensures View() == Step(fed, old(View()), DoClearDrift(i, peerId))
    {
      nodes[i].ClearDrift(peerId);
    }

    /** `LiveCluster.__init__`, with its ValueErrors and the TypeError of
        `policy_digest`. One clock reading stands for all of its heartbeats. */
    static method Create(crypto: Crypto, kernels: seq<ConstitutionalKernel>, nodeIds: seq<string>,
                         publicKeys: seq<string>, now: real)
      returns (built: Built)
      requires KernelsApart(crypto, kernels)
      ensures built.NoKernels? <==> kernels == []
      ensures built.IdCountMismatch? <==> kernels != [] && nodeIds != [] && |nodeIds| != |kernels|
      ensures built.KeyCountMismatch? <==>
              && kernels != [] && (nodeIds == [] || |nodeIds| == |kernels|)
              && publicKeys != [] && |publicKeys| != |kernels|
      ensures built.EmptyPolicyList? ==> exists i :: 0 <= i < |kernels| && kernels[i].config.rules == []
      ensures built.Built? ==> forall i :: 0 <= i < |kernels| ==> kernels[i].config.rules != []
      ensures built.Built? ==>
                var ids := Chosen(nodeIds, DefaultIds(|kernels|));
                var keys := Chosen(publicKeys, DefaultKeys(|kernels|));
                && |ids| == |keys| == |kernels|
                && fresh(built.cluster) && built.cluster.Valid()
                && built.cluster.fed == ConfigOf(crypto, kernels, ids, keys)
                && built.cluster.fed.heartbeatTimeout == 5.0
                && (forall i :: 0 <= i < |kernels| ==>
                      && built.cluster.fed.nodes[i].nodeId == (if nodeIds == [] then DefaultId(i) else nodeIds[i])
                      && built.cluster.fed.nodes[i].publicKey
                         == (if publicKeys == [] then DefaultKey(i) else publicKeys[i])
                      && built.cluster.fed.nodes[i].kernel == kernels[i].config)
                && DigestsSet(built.cluster.fed, built.cluster.View())
                && forall i :: 0 <= i < |kernels| ==>
                     built.cluster.View()[i]
                     == NodeState(kernels[i].State(), ServerState(Some(built.cluster.fed.Digest(i)), map[], map[]), {},
                                  SeenAtStart(built.cluster.fed, i, now), map[])
    {
      if kernels == [] {
        return NoKernels;
      }
      var n := |kernels|;
      var ids := Chosen(nodeIds, DefaultIds(n));
      if |ids| != n {
        return IdCountMismatch;
      }
      var keys := Chosen(publicKeys, DefaultKeys(n));
      if |keys| != n {
        return KeyCountMismatch;
      }
      var fed := ConfigOf(crypto, kernels, ids, keys);
      var ok, servers := StartServers(fed, kernels);
      if !ok {
        return EmptyPolicyList;
      }
      var nodes := StartNodes(fed, kernels, servers, now);
      var cluster := new LiveCluster(fed, servers, nodes);
      assert forall i :: 0 <= i < n ==> cluster.WiredAt(i);
      return Built(cluster);
    }
  }

  /** The fresh server of kernel `j`. */
  ghost predicate Serves(server: FederationServer, fed: FederationConfig, kernels: seq<ConstitutionalKernel>, j: nat)
    requires |kernels| == |fed.nodes| && j < |kernels|
    reads server
  {
    && server.kernel == kernels[j] && server.Hosts(fed, j)
    && server.State() == ServerState(Some(fed.Digest(j)), map[], map[])
  }

  method StartServers(fed: FederationConfig, kernels: seq<ConstitutionalKernel>) returns (ok: bool, servers: Network)
    requires |kernels| == |fed.nodes| && KernelsApart(fed.crypto, kernels)
    requires forall j :: 0 <= j < |kernels| ==> fed.nodes[j].kernel == kernels[j].config
    ensures ok <==> forall j :: 0 <= j < |kernels| ==> fed.nodes[j].kernel.rules != []
    ensures ok ==> Hosted(fed, servers) && fresh(servers)
    ensures ok ==> forall j :: 0 <= j < |kernels| ==> Serves(servers[j], fed, kernels, j)
  {
    servers := [];
    for i := 0 to |kernels|
      invariant |servers| == i && fresh(servers)
      invariant forall j :: 0 <= j < i ==> fed.nodes[j].kernel.rules != [] && Serves(servers[j], fed, kernels, j)
      invariant Apart(servers)
    {
      if kernels[i].config.rules == [] {
        return false, [];
      }
      var digest := fed.crypto.policyDigest(kernels[i].config.rules);
      var server := new FederationServer(
        fed.crypto, fed.nodes[i].nodeId, fed.nodes[i].publicKey, kernels[i], Some(digest));
      assert forall j :: 0 <= j < i ==> Serves(servers[j], fed, kernels, j);
      servers := servers + [server];
    }
    ok := true;
  }

  method StartNodes(fed: FederationConfig, kernels: seq<ConstitutionalKernel>, servers: Network, now: real)
    returns (nodes: seq<FederationNode>)
    requires Hosted(fed, servers) && |kernels| == |servers|
    requires forall j :: 0 <= j < |kernels| ==> servers[j].kernel == kernels[j]
    ensures |nodes| == |kernels| && fresh(nodes)
    ensures forall i, j :: 0 <= i < j < |nodes| ==> nodes[i] != nodes[j]
    ensures forall i :: 0 <= i < |nodes| ==>
              && nodes[i].Wired(fed, servers, i) && nodes[i].partitionMask == {}
              && nodes[i].peersSeen == SeenAtStart(fed, i, now) && nodes[i].driftRefusals == map[]
  {
    nodes := [];
    for i := 0 to |kernels|
      invariant |nodes| == i && fresh(nodes)
      invariant forall k, l :: 0 <= k < l < i ==> nodes[k] != nodes[l]
      invariant forall k :: 0 <= k < i ==>
                  && nodes[k].Wired(fed, servers, k) && nodes[k].partitionMask == {}
                  && nodes[k].peersSeen == SeenAtStart(fed, k, now) && nodes[k].driftRefusals == map[]
    {
      var node := StartNode(fed, kernels[i], servers, i, now);
      nodes := nodes + [node];
    }
  }

  method StartNode(fed: FederationConfig, kernel: ConstitutionalKernel, servers: Network, i: nat, now: real)
    returns (node: FederationNode)
    requires Hosted(fed, servers) && i < |servers| && kernel == servers[i].kernel
    ensures fresh(node) && node.Wired(fed, servers, i) && node.partitionMask == {}
    ensures node.peersSeen == SeenAtStart(fed, i, now) && node.driftRefusals == map[]
  {
    var peers := PeersFor(fed, i);
    node := new FederationNode(fed.crypto, fed.nodes[i].nodeId, kernel, peers, fed.heartbeatTimeout, {}, map[], map[]);
    for m := 0 to |peers|
      invariant node.driftRefusals == map[]
      invariant forall id :: id in node.peersSeen <==> exists k :: 0 <= k < m && peers[k].nodeId == id
      invariant forall id :: id in node.peersSeen ==> node.peersSeen[id] == now
    {
      node.RecordPeerHeartbeat(peers[m].nodeId, now);
    }
    forall id: string
      ensures id in node.peersSeen <==> id in OtherIds(fed, i)
    {
      if id in OtherIds(fed, i) {
        var j: nat :| j < |fed.nodes| && j != i && fed.nodes[j].nodeId == id;
        assert peers[if j < i then j else j - 1].nodeId == id;
      }
    }
  }
}
