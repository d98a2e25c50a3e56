# Verified model of the constitutional builder and of its product's algorithms

The kernel of the constitutional builder passes every request through identity,
policy, capability and handler gates and writes one hash-linked audit event for
every decision. Several kernels form a cluster, in one process (`QuorumCluster`)
or as a live federation of nodes that ask each other over messages
(`LiveCluster`). This project models that machinery and proves what it promises:
the chain binds the log, a majority of the configured cluster stands behind
every ALLOWED, at most one policy version wins, the live federation refines the
in-process cluster, and logs and drift records stay right over every run. A
second part does the same for four stand-alone algorithms of the ThirstyAI
Builder product: rate limiting, one-use confirmation codes, the hand-written
PDF, and skill files.

## How it is built

Where the program works by changing objects step by step, the model has classes
and loops (`InMemoryAuditLog`, `FileAuditLog`, `ConstitutionalKernel`,
`QuorumCluster`, `FederationServer`, `FederationNode`, `LiveCluster`, `Bucket`,
`TokenStore`, and the loops of the PDF writer, the verifiers and the skill
parser). Each method's contract ties its result and new state to a function of
the old state, and the properties are proved about those functions.

- `Text`, `PythonText`: strings as Python prints, compares, strips and reads them.
- `Models`, `Policy`, `Kernel`: requests, decisions, gates, one kernel and its runs.
- `AuditLog`, `FileAuditLog`: the hash chain, its verifiers, and the log on disk.
- `Counting`, `Quorum`: votes and the in-process cluster.
- `FederationSpec`: one submission and the other cluster steps, as functions on
  node states. `Federation` and `LiveCluster` are the objects, proved against it.
- `FederationProperties`, `FederationWilling`, `Refinement`, `FederationRuns`,
  `FederationHash`: what holds of one submission, what can be told before it, the
  in-process cluster beside it, whole runs, and the hash over all logs.
- `TokenBucket`, `ConfirmTokens`, `PdfText`, `PdfFile`, `Pdf`, `Skills`: the
  product's algorithms. `PdfReader` is a reader of PDF files that takes no
  text from the writer; `SkillsParsing` and `SkillsRoundTrip` say what the skill parser
  accepts and that it undoes the printer.

Hashes, the handlers' outcomes, clocks, timestamps, nonces and the fate of each
network call are inputs. Nothing is assumed of the hashes: a binding result
says "equal, or here is a collision". A call to a peer is one atomic step that
is skipped, refused, lost (before or after the peer ran) or answered.

## Where the code and its own words differ

The model follows the code. Paths are under `source/constitutional_builder` unless
the product is named.

- `federation/node.py:197-200`: the comment counts a failed peer call as a
  denial; the code counts it as nothing.
- `federation/node.py:129-137` and `federation/cluster_live.py:174-179` say that a
  partitioned entry must deny; the code drops only its own vote, and
  `MaskedEntryCanAllow` gives three nodes whose masked entry answers ALLOWED on
  the votes of its peers. `MaskedEntryDeniesExactly` says when it must deny:
  exactly when, before the call, fewer than a quorum of the other nodes have the
  entry's policy, authorize the request and are in its sight.
- `federation/protocol.py:213-215` raises a TypeError on an empty rule list, where
  its text promises a digest of any policy.
- `evt-{n:08d}` sorts in append order only below ten to the eighth events
  (`IdOrderExactly`).
- Reading a text file turns CR and CR LF into line feeds, so a skill's body or a
  PDF line comes back exactly when it has no CR (`RoundTripExactly`,
  `PdfRoundTripExactly`).
- Appending to an audit file whose last line is unfinished puts two events on
  one line, and the log can no longer be opened (`OneUnfinishedEvent`). An append
  is read back exactly when that line holds nothing but characters that the line
  reader skips (`AppendIsRead`).
- `tools.py:80-82` of the product says that a code cannot be replayed against a
  different command; a code for the number 1 is accepted for the text "1"
  (`NumberAndTextShareACode`), as for any arguments of the same texts
  (`AcceptedForTexts`).
- The report's PDF has one page, and lines after the 39th run off it
  (`OnThePageExactly`).
- The `Retry-After` of the rate limiter (`hardening.py:233-239` of the product) is
  right exactly for a burst of at least one (`RetryIsExact`).

## Model

| member | source | states |
|---|---|---|
| AuditLog.InMemoryAuditLog.Append | source/constitutional_builder/audit.py:46-75 | The log grows by exactly one event, numbered by its position, linked to the event before and sealed; a valid chain stays valid. |
| AuditLog.InMemoryAuditLog.Verify | source/constitutional_builder/audit.py:77-86 | Answers true exactly when every event is linked and sealed: the same answer as replay. |
| AuditLog.Replay | source/constitutional_builder/replay.py:16-24 | Valid exactly when the whole chain is; otherwise the report names the first event that is not intact and which check it failed, everything before it being intact. |
| AuditLog.AppendKeepsChain | source/constitutional_builder/audit.py:57-73 | Appending keeps a chain valid and its events numbered. |
| AuditLog.NextEventExactly | source/constitutional_builder/audit.py:57-75 | An event says what it was given and when, carries the next number, the hash of the event before it, or 64 zeros when it is the first, and the hash of its own payload. |
| AuditLog.ChainBinding | source/constitutional_builder/audit.py:33-35 | Two valid logs of any lengths with one last hash are equal event for event, or two of their events collide, or some event's hash is the genesis hash. |
| AuditLog.NumberedChainBinding | source/constitutional_builder/audit.py:57-75 | For logs made by appending the genesis exception falls away: equal, or a collision between an event of each. |
| AuditLog.TamperIsLocated | source/constitutional_builder/replay.py:18-23 | Replacing an event other than the last breaks replay at that event or at the next one and nowhere before, or the replacement collides with the original. |
| AuditLog.TamperIsReported | source/constitutional_builder/replay.py:16-24 | So any report of replay on the changed log names that event or the next one, or the replacement collides. |
| AuditLog.ForgedLastEvent | source/constitutional_builder/replay.py:18-23 | What the chain does not protect: a replaced last event passes exactly when it is linked and sealed, whatever it says. |
| AuditLog.EventIdText | source/constitutional_builder/audit.py:58 | An identifier is "evt-" and the position in at least eight digits, in exactly eight below ten to the eighth. |
| AuditLog.EventIdInjective | source/constitutional_builder/audit.py:58 | Different positions give different event identifiers, for all lengths. |
| FileAuditLog.FileAuditLog.Open | source/constitutional_builder/audit.py:90-94 | Opening fails exactly on a malformed line; otherwise memory is what the file's lines decode to, blank lines skipped. |
| FileAuditLog.FileAuditLog.Append | source/constitutional_builder/audit.py:96-101 | Memory gains the chained event and the file its line. |
| FileAuditLog.AppendIsRead | source/constitutional_builder/audit.py:96-108 | A file that was appended to reads as its old events and the new one exactly when its unfinished last line has only characters that the line reader skips; nothing is unfinished afterwards. |
| FileAuditLog.GluedEventsAreLost | source/constitutional_builder/audit.py:96-108 | When the unfinished last line holds an event, an append makes a file that was readable one that cannot be opened. |
| FileAuditLog.OneUnfinishedEvent | source/constitutional_builder/audit.py:96-108 | Such a file: one event without its line feed reads as that event, and after an append not at all. |
| FileAuditLog.BlankLineIsSkipped | source/constitutional_builder/audit.py:104-108 | A blank line changes nothing of what is read, wherever it stands. |
| FileAuditLog.StepKeepsSound | source/constitutional_builder/audit.py:89-108 | Append keeps memory equal to what the file reads as, nothing unfinished and the chain valid; a restart changes nothing. |
| FileAuditLog.RestartsAreInvisible | source/constitutional_builder/audit.py:89-108 | For every interleaving of appends and restarts, log and file are those of the same appends with no restart, memory is what the file reads as, and the chain is valid. |
| Policy.PolicyAllows | source/constitutional_builder/policy.py:22-56 | Allowed exactly when some ALLOW rule and no DENY rule has each of subject, operation and resource equal to "*" or to the request's own; the last fallback reason is unreachable. |
| Policy.PolicyDecides | source/constitutional_builder/policy.py:41-56 | The first denial about the request speaks, with its own reason or the default; else the first allowance; else nobody does. |
| Policy.OtherRuleIsIdle | source/constitutional_builder/policy.py:23-26 | A rule about another named operation changes nothing, wherever it stands. |
| Policy.OtherGrantIsIdle | source/constitutional_builder/capability.py:16-20 | Neither does a grant of another named operation. |
| Policy.CapabilityAllows | source/constitutional_builder/capability.py:15-38 | Allowed exactly when some grant names the request's subject and has its operation and resource equal to "*" or to the request's; the first such grant is named. |
| Kernel.ConstitutionalKernel.Handle | source/constitutional_builder/kernel.py:34-104 | The ordered early exits compute the ruling of the gates and the handler, append its one event, and call the handler exactly when all gates pass. |
| Kernel.GatesAuthorize | source/constitutional_builder/kernel.py:34-88 | A request reaches the handler exactly when its fields are set, its subject is known and active, by their fields some rule allows it and none denies it and some grant is for it, and its operation has a handler. |
| Kernel.VerdictExactly | source/constitutional_builder/kernel.py:34-128 | ALLOWED, FAILED and DENIED each with its exact condition; the handler ran once, on the request's own operation, resource and parameters, unless DENIED. |
| Kernel.EventExactly | source/constitutional_builder/kernel.py:90-128 | Each request leaves one more event, in its own words or "<invalid>" for a blank field, with the decision's status, reason and number and its time; the result goes out with ALLOWED only. |
| Kernel.ReasonExactly | source/constitutional_builder/kernel.py:34-104 | The reason is that of the first gate that stops the request, or of the handler. |
| Kernel.MetadataExactly | source/constitutional_builder/kernel.py:34-104 | Policy, grant, plan and output are logged exactly as far as the request got, with the values its gates gave. |
| Kernel.MissingExactly | source/constitutional_builder/models.py:22-31 | The missing fields named are the blank ones, each once, in order. |
| Kernel.OthersAreIdle | source/constitutional_builder/kernel.py:34-88 | Rules and grants about other named operations change nothing of a ruling. |
| Kernel.StatusIgnoresOrder | source/constitutional_builder/policy.py:41-56 | The status of a decision, and whether the handler runs, depend on the sets of rules and grants, not on order or repetition, and never on the parameters. |
| Kernel.ReasonFollowsOrder | source/constitutional_builder/policy.py:45-49 | The reason does depend on the order: of two matching denying rules the first one gives it. |
| Kernel.HandledMirrors | source/constitutional_builder/kernel.py:34-128 | One more request keeps the log valid and a mirror of the requests. |
| Kernel.EveryRunIsAudited | source/constitutional_builder/kernel.py:34-128 | Over any run: one event for each request, in order, in its words, with the status its authorization and handler demand and the reason and metadata of its ruling; the chain is valid; the handlers ran for exactly the authorized requests. |
| Quorum.QuorumCluster.Create | source/constitutional_builder/cluster.py:38-44 | Both ValueErrors with their exact conditions, and the default majority. |
| Quorum.QuorumCluster.Submit | source/constitutional_builder/cluster.py:46-68 | Every kernel handles the request once, approvals are counted over their decisions, and a quorum of them allows. |
| Quorum.VerdictCounts | source/constitutional_builder/cluster.py:46-68 | For every quorum: ALLOWED exactly when the set of allowing kernels has that many members; the counts are of that set and the rest; every decision is passed on. |
| Quorum.CountAllowed | source/constitutional_builder/cluster.py:46-50 | The number of approvals is the number of ALLOWED decisions. |
| Federation.FindLastEvent | source/constitutional_builder/federation/node.py:263-273 | The newest event about a request, or none. |
| Federation.FederationServer.OnAsk | source/constitutional_builder/federation/cluster_live.py:213-225 | Runs the kernel once and votes with its decision and the newest event about the request. |
| Federation.FederationServer.DoPost | source/constitutional_builder/federation/transport.py:187-239 | The decision order of the ask endpoint, its effects on kernel, noted callers and noted digests, and its response. |
| FederationProperties.PostExactly | source/constitutional_builder/federation/transport.py:187-239 | The kernel runs exactly for an authenticated, valid ask that carries no other policy; the vote then carries the event of that run and agrees with it in request, status, reason and event number; each refusal has its exact status and condition, and 500 is unreachable; exactly an authenticated caller is noted, and exactly its digest. |
| FederationProperties.PostAskExactly | source/constitutional_builder/federation/transport.py:199-239 | Once the bearer is right: refused for another policy, refused as malformed, or run and voted on, each with its exact condition. |
| Federation.FederationNode.WithPartition | source/constitutional_builder/federation/node.py:69-90 | A new node with the new mask and the old liveness and drift maps. |
| Federation.FederationNode.PeerAlive | source/constitutional_builder/federation/node.py:96-101 | Alive exactly when seen within the timeout. |
| Federation.FederationNode.Ask | source/constitutional_builder/federation/node.py:163-200 | Masked and stale peers are skipped, lost calls fail (the peer may have run), a 409 is drift, the rest are votes. |
| Federation.FederationNode.FanOut | source/constitutional_builder/federation/node.py:163-206 | The loop over the peers computes the tally and the drift map of the specification and changes each asked peer once. |
| Federation.FederationNode.Submit | source/constitutional_builder/federation/node.py:120-247 | The node's submission is the specified one: result, drift map and the state of every kernel and server. |
| Federation.CountOutcome | source/constitutional_builder/federation/node.py:174-206 | Drift counts as a denial, a failed call as nothing, a vote by its status. |
| Federation.ConcludeTally | source/constitutional_builder/federation/node.py:208-247 | Visible size first, then approvals, against the configured quorum. |
| LiveCluster.LiveCluster.Create | source/constitutional_builder/federation/cluster_live.py:93-160 | Every error with its condition; otherwise servers announce their own kernels' digests and each node knows all others, as alive, with no mask and no drift. |
| LiveCluster.DefaultsTell | source/constitutional_builder/federation/cluster_live.py:102-105 | Default names and keys are numbered by place, names from one and keys from zero, and differ from each other. |
| LiveCluster.PeersFor | source/constitutional_builder/federation/cluster_live.py:142-146 | The peers of a node are all the other nodes, in order. |
| LiveCluster.LiveCluster.SetPartition | source/constitutional_builder/federation/cluster_live.py:171-185 | All nodes are replaced by copies under the one new mask; everything else is carried over. |
| LiveCluster.LiveCluster.Submit | source/constitutional_builder/federation/cluster_live.py:193-194 | The cluster's submission is the specified step on the states of all nodes. |
| LiveCluster.LiveCluster.OnHeartbeat | source/constitutional_builder/federation/cluster_live.py:227-233 | A heartbeat is recorded at every node but its sender. |
| LiveCluster.LiveCluster.ClearDrift | source/constitutional_builder/federation/node.py:114-116 | Exactly one entry of one drift map goes. |
| FederationProperties.NewestIsFound | source/constitutional_builder/federation/node.py:263-273 | The event found is the newest about the request, and none is found exactly when there is none. |
| FederationProperties.RunIsFound | source/constitutional_builder/federation/node.py:144-147 | After a valid request was handled, the newest event about it is the one just appended, so the missing-event error is unreachable. |
| FederationProperties.AskIsFaithful | source/constitutional_builder/federation/node.py:163-206 | A peer's kernel runs exactly when the ask reaches it with its own digest; its vote carries the event of that run; the entry hears what the peer decided. |
| FederationProperties.TallyMeaning | source/constitutional_builder/federation/node.py:149-206 | Approvals count approving nodes, denials denying and refusing ones, and only voters leave a decision. |
| FederationProperties.SubmitDecides | source/constitutional_builder/federation/node.py:139-247 | A valid request always ends in a decision; ALLOWED exactly when twice the approvals exceed the configured size; the quorum is the least majority; the decisions passed on are the entry's, unless masked, and those of the voting peers in order, without their results; too few visible nodes change only the reason, which names the refusing peers in order. |
| FederationProperties.RejectedExactly | source/constitutional_builder/federation/node.py:139-147 | A submission is rejected exactly for blank fields or an entry without rules, before any kernel has run and with nothing changed. |
| FederationProperties.AskIsNoted | source/constitutional_builder/federation/transport.py:196-226 | A peer that an ask has reached has noted the caller, and the entry's digest under its name, whatever it has answered and whether or not the answer arrives; any other peer has noted nothing. |
| FederationProperties.AllowedMeansMajority | source/constitutional_builder/federation/node.py:139-247 | ALLOWED exactly when the request is valid and more than half of all configured nodes, as a set, approve. |
| FederationProperties.OneVersionWins | source/constitutional_builder/federation/transport.py:211-223 | Two ALLOWED results in any states, masks, clocks and losses share an approver; all approvers and both entries have one digest, and equal rule lists unless the policy digest collides on them. |
| FederationProperties.ApproverAllowedLocally | source/constitutional_builder/federation/node.py:155-206 | Every approver passed all its own gates, its handler returned, and its newest event is the allowed event of this request. |
| FederationProperties.AllowedIsLocallyAuthorized | source/constitutional_builder/federation/node.py:144-206 | Behind ALLOWED stand more than half of the configured nodes, which have all allowed the request themselves, by their own gates and in their own logs. |
| FederationProperties.SubmitAppends | source/constitutional_builder/federation/node.py:144-206 | One event at the entry, one at each peer whose kernel ran, none elsewhere; a counted vote means one event and a refusal none. |
| FederationProperties.FailsClosed | source/constitutional_builder/federation/node.py:208-227 | With two nodes or more, at most half of them unmasked or all heartbeats stale means DENIED with the partition reason, through every entry. |
| FederationProperties.EntryIndependence | source/constitutional_builder/federation/node.py:141-247 | With equal digests, live peers and no lost call, status, reason, quorum, approvals and denials do not depend on the entry, masked entries included. |
| FederationWilling.CanBeAllowedExactly | source/constitutional_builder/federation/node.py:139-247 | With the clocks given, there is a world of calls and handlers in which a request is ALLOWED exactly when more than half of the configured nodes have the entry's policy, authorize the request and are in the entry's sight. |
| FederationWilling.MaskedEntryDeniesExactly | source/constitutional_builder/federation/cluster_live.py:174-179 | A masked entry denies in every such world exactly when at most half of the configured nodes are willing others. |
| FederationWilling.MaskedEntryCanAllow | source/constitutional_builder/federation/node.py:155-161 | Three nodes of one policy, the entry masked: the answer is ALLOWED. |
| Refinement.LiveRefinesInProcess | source/constitutional_builder/cluster.py:38-68 | Whatever the masks, drift, staleness and losses, what the live cluster allows the in-process cluster of the same kernels and default quorum allows. |
| Refinement.LiveMatchesInProcess | source/constitutional_builder/cluster.py:38-68 | Undisturbed and unmasked, the live cluster and the in-process cluster of default quorum agree on status, reason, quorum, approvals and denials, and leave the same logs and handler calls. |
| FederationRuns.StepKeepsSound | source/constitutional_builder/federation/cluster_live.py:171-233 | Every step keeps all logs valid and numbered, every announced digest right, and every noted digest attributed to a node of that name. |
| FederationRuns.RunStaysSound | source/constitutional_builder/federation/cluster_live.py:171-233 | So does every run. |
| FederationRuns.RunsAgreeOnPolicy | source/constitutional_builder/federation/transport.py:204-223 | Any two ALLOWED submissions of one run were entered under one policy digest, and equal rule lists unless the digest collides. |
| FederationRuns.LogsOnlyGrow | source/constitutional_builder/federation/cluster_live.py:171-233 | Over any run every log and every list of handler calls only grows at its end. |
| FederationRuns.MasksAgree | source/constitutional_builder/federation/cluster_live.py:171-185 | Over any run all nodes stay under one mask, as `EntryIndependence` needs. |
| FederationRuns.MaskIsLatest | source/constitutional_builder/federation/cluster_live.py:171-185 | Over any run the mask of every node is the one set last. |
| FederationRuns.AliveMeansHeard | source/constitutional_builder/federation/node.py:92-101 | Over any run a peer is alive to a node exactly when the latest heartbeat it recorded from it is younger than the timeout, through every partition copy. |
| FederationRuns.SilenceFailsClosed | source/constitutional_builder/federation/node.py:208-227 | After any run, an entry that has lately heard from no peer denies every valid request with the partition reason. |
| FederationRuns.DriftOfSubmit | source/constitutional_builder/federation/node.py:174-200 | A submission enters exactly the names of which some node refuses, with the digests of the entry and of the last such node, and leaves every other name as it was; names may repeat. |
| FederationRuns.DriftIsExact | source/constitutional_builder/federation/node.py:103-116 | Over any run a node's drift map lists exactly the names of which some node has refused it since the last clearing of the name, through every partition change; names may repeat. |
| FederationRuns.DriftShowsNewest | source/constitutional_builder/federation/node.py:189-194 | What the map shows for a name are the digests of the node itself and of the newest refuser. |
| FederationRuns.OnlyNodesDrift | source/constitutional_builder/federation/node.py:189-194 | No name but a node's ever enters a drift map. |
| FederationHash.Verify | source/constitutional_builder/cluster.py:80-91 | Valid exactly when every chain is; otherwise the first broken node is named, with the replay verifier's report on it: its first broken event and the check that failed. |
| FederationHash.LiveHash | source/constitutional_builder/federation/cluster_live.py:261-284 | The live hash is the verifier's hash of the same logs. |
| FederationHash.SortedIsOrdered | source/constitutional_builder/cluster.py:94-105 | Items with distinct keys are sorted into an ordered permutation. |
| FederationHash.SortedIsStable | source/constitutional_builder/cluster.py:102 | For any items, repeated keys included: sorting loses and invents nothing and keeps the order of items of one key. |
| FederationHash.OrderedIsUnique | source/constitutional_builder/cluster.py:94-105 | A collection has one ordered arrangement. |
| FederationHash.DigestedIsLogsInOrder | source/constitutional_builder/cluster.py:94-105 | What is hashed for nodes in any order is their logs in the string order of the node names, whole logs one after the other, each in the order of appending, for distinct names and fewer than ten to the eighth events a log. |
| FederationHash.EntryInPlace | source/constitutional_builder/cluster.py:95-103 | Entry by entry: behind the events of earlier nodes, event k of a node is entered with its name, number, request and hash. |
| FederationHash.HashIgnoresOrder | source/constitutional_builder/cluster.py:94-105 | For distinct node names and append-built logs the hash is the same for every order of the nodes. |
| FederationHash.HashBindsLogs | source/constitutional_builder/cluster.py:94-105 | Equal federation hashes force equal logs for every node name, or two colliding events, or two colliding lists. |
| FederationHash.IdOrderExactly | source/constitutional_builder/audit.py:58 | String order of event identifiers is append order exactly below ten to the eighth events. |
| TokenBucket.Bucket.Take | thirsty-ai-builder/backend/thirsty_ai_builder_backend/hardening.py:172-188 | Answer and new state of a take, in the two dictionaries, for fresh and known keys. |
| TokenBucket.WindowBudget | thirsty-ai-builder/backend/thirsty_ai_builder_backend/hardening.py:172-188 | What was allowed in a window and what is left in the bucket stay within burst and inflow. |
| TokenBucket.RateBound | thirsty-ai-builder/backend/thirsty_ai_builder_backend/hardening.py:165-188 | In every window, the takes of a key that are allowed, as a set, number at most burst plus rate per minute times its length in seconds over 60. |
| TokenBucket.FirstTakeExactly | thirsty-ai-builder/backend/thirsty_ai_builder_backend/hardening.py:168-184 | The first take of a key finds a full bucket, less what the rate makes of the time between its two clock readings, and is allowed exactly when that leaves a token. |
| TokenBucket.BurstIsAllowed | thirsty-ai-builder/backend/thirsty_ai_builder_backend/hardening.py:172-184 | A key's first takes, as many as the burst, are all allowed, at whatever times and whatever other keys take in between. |
| TokenBucket.SteadyPaceIsAllowed | thirsty-ai-builder/backend/thirsty_ai_builder_backend/hardening.py:165-184 | A caller whose takes are at least 60 seconds over the rate per minute apart is never refused, however long it goes on. |
| TokenBucket.OthersDoNotMatter | thirsty-ai-builder/backend/thirsty_ai_builder_backend/hardening.py:175-183 | Takes on other keys leave a key's bucket alone. |
| TokenBucket.RetryIsExact | thirsty-ai-builder/backend/thirsty_ai_builder_backend/hardening.py:185-188 | With no other take on its key, a refused caller is next allowed exactly when it has waited the time it was told and the burst is at least one; with a negative rate never. |
| TokenBucket.HeaderIsLeast | thirsty-ai-builder/backend/thirsty_ai_builder_backend/hardening.py:238 | The header is the least whole number of seconds above the time to wait. |
| TokenBucket.RetryAfterIsEnough | thirsty-ai-builder/backend/thirsty_ai_builder_backend/hardening.py:233-239 | Waiting the whole seconds of the header suffices exactly when the burst is at least one. |
| ConfirmTokens.StampExactly | thirsty-ai-builder/backend/thirsty_ai_builder_backend/tools.py:96-98 | Commands share a stamp exactly when they have one tool and arguments of the same texts, or collide. |
| ConfirmTokens.CodeIsSixDigits | thirsty-ai-builder/backend/thirsty_ai_builder_backend/tools.py:105-106 | Every code has six digits: the last six of the number drawn from tool, stamp and nonce. |
| ConfirmTokens.TextStandsForValue | thirsty-ai-builder/backend/thirsty_ai_builder_backend/tools.py:96-98 | Any argument and the text it prints as stand for each other; numbers print as their digits, and true, false and none as words. |
| ConfirmTokens.TokenStore.PurgeExpired | thirsty-ai-builder/backend/thirsty_ai_builder_backend/tools.py:88-93 | Exactly the codes past expiry go. |
| ConfirmTokens.TokenStore.IssueToken | thirsty-ai-builder/backend/thirsty_ai_builder_backend/tools.py:101-113 | The code drawn from tool, stamp and nonce, and the store after the issue. |
| ConfirmTokens.TokenStore.VerifyToken | thirsty-ai-builder/backend/thirsty_ai_builder_backend/tools.py:116-126 | The answer, and the code is gone whatever the answer. |
| ConfirmTokens.StoreHolds | thirsty-ai-builder/backend/thirsty_ai_builder_backend/tools.py:88-126 | After any run the store holds the codes whose latest use was an issue not past expiry, with that issue's tool, fingerprint and expiry. |
| ConfirmTokens.NothingExpiredIsKept | thirsty-ai-builder/backend/thirsty_ai_builder_backend/tools.py:88-119 | No operation leaves a token behind that was past expiry when it began. |
| ConfirmTokens.VerifyExactly | thirsty-ai-builder/backend/thirsty_ai_builder_backend/tools.py:116-126 | Accepted exactly when the code's latest use was an issue for the same tool and fingerprint that is not past expiry. |
| ConfirmTokens.AcceptedForTexts | thirsty-ai-builder/backend/thirsty_ai_builder_backend/tools.py:96-126 | The same without the stamp: one tool and arguments of the same texts, or a collision. |
| ConfirmTokens.NumberAndTextShareACode | thirsty-ai-builder/backend/thirsty_ai_builder_backend/tools.py:96-98 | A code issued for the number 1 is accepted for the text "1". |
| ConfirmTokens.OneUsePerIssue | thirsty-ai-builder/backend/thirsty_ai_builder_backend/tools.py:116-126 | Between two acceptances of a code it was issued again. |
| PdfText.EscapeIsPerCharacter | thirsty-ai-builder/backend/thirsty_ai_builder_backend/letterhead.py:43 | The three replaces together put one backslash before each special character. |
| PdfText.EscapedIsReadBack | thirsty-ai-builder/backend/thirsty_ai_builder_backend/letterhead.py:43-46 | A reader of literal strings (section 7.3.4.2 of ISO 32000-1) stops at the closing parenthesis and gets the line, line ends normalized. |
| PdfText.ContentShowsLines | thirsty-ai-builder/backend/thirsty_ai_builder_backend/letterhead.py:42-47 | A reader of the content stream sees every line, in order, line ends normalized. |
| PdfText.LinesSurviveExactly | thirsty-ai-builder/backend/thirsty_ai_builder_backend/letterhead.py:42-47 | It sees exactly the lines precisely when none has a CR. |
| PdfText.LinesArePlaced | thirsty-ai-builder/backend/thirsty_ai_builder_backend/letterhead.py:42-47 | Line i of the content stream stands at 50 and 770 - 20 i. |
| PdfText.OnThePageExactly | thirsty-ai-builder/backend/thirsty_ai_builder_backend/letterhead.py:42-50 | A line stands on the one page exactly when it is among the first 39; a longer report runs off its lower edge. |
| PdfText.ChunksConcatenate | thirsty-ai-builder/backend/thirsty_ai_builder_backend/letterhead.py:106-111 | The pieces of a line are of 90 characters, the last possibly shorter, as few as can be, and concatenate to the line. |
| PdfText.WrapLine | thirsty-ai-builder/backend/thirsty_ai_builder_backend/letterhead.py:106-111 | The loop cuts a line into those pieces. |
| PdfFile.WriteFile | thirsty-ai-builder/backend/thirsty_ai_builder_backend/letterhead.py:61-74 | The file that the loop over objects and offsets writes. |
| PdfFile.RowIsTwenty | thirsty-ai-builder/backend/thirsty_ai_builder_backend/letterhead.py:68-69 | A table row has its 20 bytes exactly when the offset is below ten to the tenth. |
| PdfFile.ObjectIsFound | thirsty-ai-builder/backend/thirsty_ai_builder_backend/letterhead.py:63-69 | There the reader finds the object's number and generation, and behind them its value. |
| PdfFile.RowLeadsToObject | thirsty-ai-builder/backend/thirsty_ai_builder_backend/letterhead.py:61-74 | Following `startxref` and the row of an object, in a table whose first number and count are read, leads to the offset at which it was written, at generation zero. |
| PdfFile.TrailerIsRead | thirsty-ai-builder/backend/thirsty_ai_builder_backend/letterhead.py:70-73 | The trailer behind the last row says how many rows there are, and that the root is object one. |
| PdfFile.FileReadsBack | thirsty-ai-builder/backend/thirsty_ai_builder_backend/letterhead.py:61-74 | For any objects: the table, found from the end of the file, has a free row and one row per object, and each object is found at the byte where its exact value and end stand (sections 7.5.4 and 7.5.5 of ISO 32000-1). |
| Pdf.BuildMinimalPdf | thirsty-ai-builder/backend/thirsty_ai_builder_backend/letterhead.py:30-74 | The whole writer, and its encoding error exactly when a line leaves Latin-1. |
| Pdf.StreamIsRead | thirsty-ai-builder/backend/thirsty_ai_builder_backend/letterhead.py:52-58 | A reader that takes `/Length` bytes of the stream object gets the content byte for byte (section 7.3.8 of ISO 32000-1). |
| Pdf.ContentReadsBack | thirsty-ai-builder/backend/thirsty_ai_builder_backend/letterhead.py:39-59 | A reader that goes from the trailer's `/Root` over the catalog's `/Pages` and the first of `/Kids` to the page, checking types, count and parent, finds its size, its font and, by its `/Contents`, the content stream byte for byte. |
| Pdf.PdfRoundTrip | thirsty-ai-builder/backend/thirsty_ai_builder_backend/letterhead.py:30-74 | From the end of the file over the page tree to the shown strings: the lines come back, line ends normalized. |
| Pdf.PdfRoundTripExactly | thirsty-ai-builder/backend/thirsty_ai_builder_backend/letterhead.py:30-74 | They come back unchanged exactly when none has a CR. |
| SkillsParsing.MatchesExactly | thirsty-ai-builder/cli/thirsty_ai_builder_cli/skills.py:39 | The hand-written matcher finds front matter exactly in the texts of the expression's shape. |
| SkillsParsing.MatchIsShape | thirsty-ai-builder/cli/thirsty_ai_builder_cli/skills.py:39 | What it finds are the parts of the text in the expression's places. |
| SkillsParsing.LastLineWins | thirsty-ai-builder/cli/thirsty_ai_builder_cli/skills.py:52-63 | Name, description and tools are what the last line with their key says, stripped. |
| SkillsParsing.ParsesExactly | thirsty-ai-builder/cli/thirsty_ai_builder_cli/skills.py:42-67 | A file parses exactly when it has front matter; without a name line the name is the folder's; the body is what follows, stripped. |
| SkillsParsing.SplitsAtBreak | thirsty-ai-builder/cli/thirsty_ai_builder_cli/skills.py:55 | A line ends at the first line break of any kind, and a CR LF pair is one. |
| Skills.ParseSkillFile | thirsty-ai-builder/cli/thirsty_ai_builder_cli/skills.py:42-67 | The loop over front-matter lines reads the keys, later ones winning, and a file without front matter is refused. |
| SkillsRoundTrip.RenderShape | thirsty-ai-builder/cli/thirsty_ai_builder_cli/skills.py:138-148 | What is printed: the fence, one line for each of name, description and tools, the fence, and the body. |
| SkillsRoundTrip.ToolsComeBack | thirsty-ai-builder/cli/thirsty_ai_builder_cli/skills.py:61-63 | Splitting and trimming a printed tool list gives the list back, the empty one included. |
| SkillsRoundTrip.NoEarlierClose | thirsty-ai-builder/cli/thirsty_ai_builder_cli/skills.py:39 | The lazy match finds no closing fence inside printed front matter. |
| SkillsRoundTrip.ParsePrinted | thirsty-ai-builder/cli/thirsty_ai_builder_cli/skills.py:138-148 | Parsing a printed skill gives back name, description, tools and the body as a text file keeps it, fences in the body included. |
| SkillsRoundTrip.RoundTripExactly | thirsty-ai-builder/cli/thirsty_ai_builder_cli/skills.py:138-148 | The round trip is exact precisely for bodies without a CR. |

## Left out

- HTTP, sockets, ports, threads and time limits: a call to a peer is one atomic step with an outcome. The ask endpoint is modelled from its bearer check on; body size and malformed JSON are refused before it.
- Concurrency in `append`, which holds no lock: one append at a time. A second `FileAuditLog` object open on the same file is not modelled either.
- The heartbeat thread, which assigns to a field of a frozen dataclass (`federation/node.py:281`): a heartbeat is an event from outside that the servers' handler records. The endpoint that receives it is not modelled.
- Attestations beyond the sender they name: described in `federation/protocol.py`, but no code signs or checks them. The times in the noted peer digests are left out too.
- SHA-256, JSON text and regular expressions over error text: hashes are parameters, messages are values, a refusal carries its two digests as fields, and reasons and statuses are tags instead of sentences.
- Rounding of floating-point numbers: the token bucket and the clocks are over the reals.
- Audit metadata that is not plain JSON, and an append that raises.
- What a handler does: whether it returned or raised is an input, and its calls are recorded.
- LiveCluster.LiveCluster.Create: takes one clock reading for all of its first heartbeats, does not start servers, and is for kernels that share neither themselves nor their logs.
- FileAuditLog.AppendIsRead: the codec is any that reads its own lines back behind the characters it skips, with or without their line feed, and takes other leading space or more text after an event for malformed; that canonical JSON is such a codec is not shown.
- ConfirmTokens.StampExactly: what is hashed is the pair of tool and sorted items, not its text `tool:items`; the text of a list or a dictionary is a parameter.
- Quorum.QuorumCluster.Submit: nodes that share a kernel or a log, as some tests set up, are excluded: the model has one kernel and one log for each node.
- Federation.FederationServer.DoPost: begins at the bearer; the path is the ask endpoint's, and a handler is set.
- `set_local_policy_digest`, `submit_via` with a node kept from before a partition change, `respond_to_request`, `_quorum_size` and the ignored `quorum` argument of `build_live_cluster`.
- Truncating a log at its end, or recomputing it from a changed event on: the chain does not detect either, and nothing here says that it does.
- The letter text around the PDF lines, `splitlines` of a report body, and the reportlab branch of `render_audit_report`.
- The path and draft flag of a skill, and files that cannot be read or decoded.
- Loading skill folders, drafts and matching a message to a skill.
- API, gRPC, SDKs, command line, frontend, storage selection, authentication headers, shell blocklist and deployment.
