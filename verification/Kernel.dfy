/** The constitutional kernel: every request passes the gates in order, and every
    decision leaves exactly one event in the audit log. */
module Kernel {
  import opened Models
  import opened AuditLog
  import opened Policy

  datatype KernelConfig = KernelConfig(
    subjects: map<string, Subject>, rules: seq<PolicyRule>, grants: seq<CapabilityGrant>,
    handlers: set<string>)

  /** What a registered handler does when it is called: handlers are arbitrary
      code, so the outcome is an input of every call. */
  datatype HandlerOutcome = Returned(output: map<string, Json>) | Raised(message: string)

  datatype HandlerCall = HandlerCall(operation: string, resource: string, parameters: map<string, Json>)

  datatype KernelState = KernelState(events: seq<AuditEvent>, calls: seq<HandlerCall>)

  /** How a request fares at the gates: refused with a reason, or on to the handler. */
  datatype Verdict = Refused(reason: Reason, metadata: Metadata) | Proceed(metadata: Metadata)

  function Gates(config: KernelConfig, request: ActionRequest): Verdict {
    if !request.IsValid() then Refused(MissingRequestFields(request.MissingFields()), NO_METADATA)
    else if Resolve(config.subjects, request.subjectId) == None then
      Refused(IdentityNotFoundOrInactive, NO_METADATA)
    else
      var policy := Evaluate(config.rules, request);
      if !policy.allowed then Refused(policy.reason, NO_METADATA.(policyId := Some(policy.policyId)))
      else
        var capability := Check(config.grants, request);
        var grantMeta := NO_METADATA.(policyId := Some(policy.policyId), grantId := Some(capability.grantId));
        if !capability.allowed then Refused(capability.reason, grantMeta)
        else
          var planMeta := grantMeta.(plan := Some(PlanFor(request)));
          if request.operation !in config.handlers then Refused(NoHandlerRegistered, planMeta)
          else Proceed(planMeta)
  }

  /** A blank field is logged as "<invalid>". */
  function Marked(field: string): string {
    if field == "" then "<invalid>" else field
  }

  function EntryFor(request: ActionRequest, status: DecisionStatus, reason: Reason, metadata: Metadata): Entry {
    Entry(Marked(request.requestId), Marked(request.subjectId), Marked(request.operation),
          Marked(request.resource), status, reason, metadata)
  }

  /** Status, reason, metadata and result of a request, before it is logged. */
  datatype Ruling = Ruling(status: DecisionStatus, reason: Reason, metadata: Metadata, result: Option<ExecutionResult>)

  function Rule(config: KernelConfig, request: ActionRequest, outcome: HandlerOutcome): Ruling {
    match Gates(config, request)
    case Refused(reason, metadata) => Ruling(DENIED, reason, metadata, None)
    case Proceed(metadata) =>
      match outcome
      case Raised(message) => Ruling(FAILED, HandlerFailed(message), metadata, None)
      case Returned(output) =>
        Ruling(ALLOWED, ExecutionAllowed, metadata.(result := Some(output)),
               Some(ExecutionResult(request.operation, request.resource, output)))
  }

  function EventFor(hash: Hash, config: KernelConfig, events: seq<AuditEvent>, request: ActionRequest,
                    timestamp: string, outcome: HandlerOutcome): AuditEvent
  {
    var r := Rule(config, request, outcome);
    NextEvent(hash, events, EntryFor(request, r.status, r.reason, r.metadata), timestamp)
  }

  function CallsFor(config: KernelConfig, request: ActionRequest): seq<HandlerCall> {
    if Gates(config, request).Proceed?
    then [HandlerCall(request.operation, request.resource, request.parameters)]
    else []
  }

  /** The state after one `handle`. */
  function Handled(hash: Hash, config: KernelConfig, state: KernelState, request: ActionRequest,
                   timestamp: string, outcome: HandlerOutcome): KernelState
  {
    KernelState(state.events + [EventFor(hash, config, state.events, request, timestamp, outcome)],
                state.calls + CallsFor(config, request))
  }

  function DecisionFor(config: KernelConfig, events: seq<AuditEvent>, request: ActionRequest,
                       outcome: HandlerOutcome): Decision
  {
    var r := Rule(config, request, outcome);
    Decision(request.requestId, r.status, r.reason, EventId(|events| + 1), r.result)
  }

  class ConstitutionalKernel {
    const config: KernelConfig
    const auditLog: InMemoryAuditLog
    var calls: seq<HandlerCall>

    constructor (config: KernelConfig, auditLog: InMemoryAuditLog)
      ensures this.config == config && this.auditLog == auditLog && calls == []
    {
      this.config := config;
      this.auditLog := auditLog;
      this.calls := [];
    }

    ghost function State(): KernelState
      reads this, auditLog
    {
      KernelState(auditLog.events, calls)
    }

    method Handle(request: ActionRequest, timestamp: string, outcome: HandlerOutcome) returns (decision: Decision)
      modifies this, auditLog
      ensures State() == Handled(auditLog.hash, config, old(State()), request, timestamp, outcome)
      ensures decision == DecisionFor(config, old(auditLog.events), request, outcome)
    {
      hide Evaluate, Check, Resolve, ChainValid, Numbered, AuditLog.EventId, LastHash;
      if request.MissingFields() != [] {
        decision := DenyOrFail(request, DENIED, MissingRequestFields(request.MissingFields()), NO_METADATA, timestamp);
        return;
      }
      var subject := Resolve(config.subjects, request.subjectId);
      if subject == None {
        decision := DenyOrFail(request, DENIED, IdentityNotFoundOrInactive, NO_METADATA, timestamp);
        return;
      }
      var policy := Evaluate(config.rules, request);
      var metadata := NO_METADATA.(policyId := Some(policy.policyId));
      if !policy.allowed {
        decision := DenyOrFail(request, DENIED, policy.reason, metadata, timestamp);
        return;
      }
      var capability := Check(config.grants, request);
      metadata := metadata.(grantId := Some(capability.grantId));
      if !capability.allowed {
        decision := DenyOrFail(request, DENIED, capability.reason, metadata, timestamp);
        return;
      }
      var plan := PlanFor(request);
      metadata := metadata.(plan := Some(plan));
      if request.operation !in config.handlers {
        decision := DenyOrFail(request, DENIED, NoHandlerRegistered, metadata, timestamp);
        return;
      }
      var step := plan.steps[0];
      calls := calls + [HandlerCall(step.operation, step.resource, step.parameters)];
      match outcome {
        case Raised(message) =>
          decision := DenyOrFail(request, FAILED, HandlerFailed(message), metadata, timestamp);
        case Returned(output) =>
          var result := ExecutionResult(step.operation, step.resource, output);
          var event := auditLog.Append(
            Entry(request.requestId, request.subjectId, request.operation, request.resource,
                  ALLOWED, ExecutionAllowed, metadata.(result := Some(output))),
            timestamp);
          decision := Decision(request.requestId, ALLOWED, ExecutionAllowed, event.payload.eventId, Some(result));
      }
    }

    method DenyOrFail(request: ActionRequest, status: DecisionStatus, reason: Reason,
                      metadata: Metadata, timestamp: string)
      returns (decision: Decision)
      modifies auditLog
      ensures auditLog.events == old(auditLog.events)
              + [NextEvent(auditLog.hash, old(auditLog.events), EntryFor(request, status, reason, metadata), timestamp)]
      ensures decision == Decision(request.requestId, status, reason, EventId(|old(auditLog.events)| + 1), None)
    {
      var event := auditLog.Append(
        Entry(if request.requestId != "" then request.requestId else "<invalid>",
              if request.subjectId != "" then request.subjectId else "<invalid>",
              if request.operation != "" then request.operation else "<invalid>",
              if request.resource != "" then request.resource else "<invalid>",
              status, reason, metadata),
        timestamp);
      decision := Decision(request.requestId, status, reason, event.payload.eventId, None);
    }
  }

  // ---- authorization ----

  /** The four fields are set, the subject is known and active, some rule allows
      and none denies, a grant matches, and the operation has a handler. */
  ghost predicate Authorized(config: KernelConfig, request: ActionRequest) {
    && request.requestId != "" && request.subjectId != "" && request.operation != "" && request.resource != ""
    && request.subjectId in config.subjects && config.subjects[request.subjectId].active
    && SomeRule(config.rules, ALLOW, request) && !SomeRule(config.rules, DENY, request)
    && SomeGrant(config.grants, request)
    && request.operation in config.handlers
  }

  /** The gates let through exactly the authorized requests. */
  lemma GatesAuthorize(config: KernelConfig, request: ActionRequest)
    ensures Gates(config, request).Proceed? <==> Authorized(config, request)
  {
    PolicyAllows(config.rules, request);
    CapabilityAllows(config.grants, request);
  }

  /** ALLOWED, FAILED and DENIED, each with its exact condition; and the handler
      has run exactly when the answer is not DENIED, once, on the request's own
      operation, resource and parameters. */
  lemma VerdictExactly(hash: Hash, config: KernelConfig, state: KernelState, request: ActionRequest,
                       timestamp: string, outcome: HandlerOutcome)
    ensures var d := DecisionFor(config, state.events, request, outcome);
            var after := Handled(hash, config, state, request, timestamp, outcome);
            && (d.status == ALLOWED <==> Authorized(config, request) && outcome.Returned?)
            && (d.status == FAILED <==> Authorized(config, request) && outcome.Raised?)
            && (d.status == DENIED <==> !Authorized(config, request))
            && after.calls == state.calls
               + (if d.status == DENIED then []
                  else [HandlerCall(request.operation, request.resource, request.parameters)])
  {
    GatesAuthorize(config, request);
  }

  /** What is logged about a request: one more event, in the words of the request
      or marked where a field is blank, with the decision's status, reason and
      number; and the result goes to the caller of an ALLOWED request only. */
  lemma EventExactly(hash: Hash, config: KernelConfig, state: KernelState, request: ActionRequest,
                     timestamp: string, outcome: HandlerOutcome)
    ensures var d := DecisionFor(config, state.events, request, outcome);
            var events := Handled(hash, config, state, request, timestamp, outcome).events;
            && |events| == |state.events| + 1 && events[..|state.events|] == state.events
            && var payload := events[|state.events|].payload;
               && payload.requestId == (if request.requestId == "" then "<invalid>" else request.requestId)
               && payload.subjectId == (if request.subjectId == "" then "<invalid>" else request.subjectId)
               && payload.operation == (if request.operation == "" then "<invalid>" else request.operation)
               && payload.resource == (if request.resource == "" then "<invalid>" else request.resource)
               && payload.status == d.status && payload.reason == d.reason && payload.eventId == d.auditEventId
               && payload.timestamp == timestamp
               && d.requestId == request.requestId
               && d.result == (if d.status != ALLOWED then None
                               else Some(ExecutionResult(request.operation, request.resource, outcome.output)))
  {
    hide Gates, AuditLog.EventId;
    VerdictExactly(hash, config, state, request, timestamp, outcome);
  }

  /** The request has its fields and its subject is known and active. */
  ghost predicate Identified(config: KernelConfig, request: ActionRequest) {
    && request.requestId != "" && request.subjectId != "" && request.operation != "" && request.resource != ""
    && request.subjectId in config.subjects && config.subjects[request.subjectId].active
  }

  /** Some rule allows and none denies. */
  ghost predicate Permitted(config: KernelConfig, request: ActionRequest) {
    Identified(config, request) && SomeRule(config.rules, ALLOW, request) && !SomeRule(config.rules, DENY, request)
  }

  /** The reason is that of the first gate that stops the request, or of the handler. */
  lemma ReasonExactly(config: KernelConfig, request: ActionRequest, outcome: HandlerOutcome)
    ensures var reason := Rule(config, request, outcome).reason;
            if request.MissingFields() != [] then reason == MissingRequestFields(request.MissingFields())
            else if !Identified(config, request) then reason == IdentityNotFoundOrInactive
            else if !Permitted(config, request) then reason == Evaluate(config.rules, request).reason
            else if !SomeGrant(config.grants, request) then reason == NoMatchingGrant
            else if request.operation !in config.handlers then reason == NoHandlerRegistered
            else if outcome.Raised? then reason == HandlerFailed(outcome.message)
            else reason == ExecutionAllowed
  {
    PolicyAllows(config.rules, request);
    CapabilityAllows(config.grants, request);
  }

  /** The metadata tells how far the request got: each gate that was asked leaves
      its answer, the plan is there once a grant is, and the output once the
      handler has returned. */
  lemma MetadataExactly(config: KernelConfig, request: ActionRequest, outcome: HandlerOutcome)
    ensures var metadata := Rule(config, request, outcome).metadata;
            && metadata.policyId == (if Identified(config, request) then Some(Evaluate(config.rules, request).policyId)
                                     else None)
            && metadata.grantId == (if Permitted(config, request) then Some(Check(config.grants, request).grantId)
                                    else None)
            && metadata.plan
               == (if !Permitted(config, request) || !SomeGrant(config.grants, request) then None
                   else Some(ExecutionPlan(request.requestId,
                                           [ExecutionStep(request.operation, request.resource, request.parameters)])))
            && metadata.result == (if Authorized(config, request) && outcome.Returned? then Some(outcome.output)
                                   else None)
  {
    PolicyAllows(config.rules, request);
    CapabilityAllows(config.grants, request);
  }

  /** Rules and grants about other named operations change nothing of a ruling. */
  lemma OthersAreIdle(config: KernelConfig, request: ActionRequest, outcome: HandlerOutcome,
                      rules: seq<PolicyRule>, r: PolicyRule, moreRules: seq<PolicyRule>,
                      grants: seq<CapabilityGrant>, g: CapabilityGrant, moreGrants: seq<CapabilityGrant>)
    requires config.rules == rules + moreRules && r.operation != "*" && r.operation != request.operation
    requires config.grants == grants + moreGrants && g.operation != "*" && g.operation != request.operation
    ensures Rule(config.(rules := rules + [r] + moreRules, grants := grants + [g] + moreGrants), request, outcome)
            == Rule(config, request, outcome)
  {
    hide Evaluate, Check;
    OtherRuleIsIdle(rules, moreRules, r, request);
    OtherGrantIsIdle(grants, moreGrants, g, request);
  }

  /** The place of a field in the request. */
  function Rank(field: Field): nat {
    match field
    case REQUEST_ID => 0
    case SUBJECT_ID => 1
    case OPERATION => 2
    case RESOURCE => 3
  }

  /** The missing fields are the blank ones, each once, in the order of the request. */
  lemma MissingExactly(request: ActionRequest)
    ensures var missing := request.MissingFields();
            && (REQUEST_ID in missing <==> request.requestId == "")
            && (SUBJECT_ID in missing <==> request.subjectId == "")
            && (OPERATION in missing <==> request.operation == "")
            && (RESOURCE in missing <==> request.resource == "")
            && Ascending(missing)
  {
    hide Ascending, AllBelow, NamedIf, Rank;
    AddField([], request.requestId == "", REQUEST_ID);
    var a := Added([], request.requestId == "", REQUEST_ID);
    AddField(a, request.subjectId == "", SUBJECT_ID);
    var b := Added(a, request.subjectId == "", SUBJECT_ID);
    AddField(b, request.operation == "", OPERATION);
    var c := Added(b, request.operation == "", OPERATION);
    AddField(c, request.resource == "", RESOURCE);
    assert a == NamedIf(request.requestId == "", REQUEST_ID);
    assert request.MissingFields() == Added(c, request.resource == "", RESOURCE);
  }

  ghost predicate Ascending(fields: seq<Field>) {
    forall i, j :: 0 <= i < j < |fields| ==> Rank(fields[i]) < Rank(fields[j])
  }

  ghost predicate AllBelow(fields: seq<Field>, rank: nat) {
    forall i :: 0 <= i < |fields| ==> Rank(fields[i]) < rank
  }

  function Added(fields: seq<Field>, missing: bool, f: Field): seq<Field> {
    fields + NamedIf(missing, f)
  }

  lemma AddField(fields: seq<Field>, missing: bool, f: Field)
    requires fields == [] || (Ascending(fields) && AllBelow(fields, Rank(f)))
    ensures var more := Added(fields, missing, f);
            && Ascending(more) && AllBelow(more, Rank(f) + 1)
            && (f in more <==> missing) && forall g :: g != f ==> (g in more <==> g in fields)
    ensures f == REQUEST_ID ==> AllBelow(Added(fields, missing, f), Rank(SUBJECT_ID))
    ensures f == SUBJECT_ID ==> AllBelow(Added(fields, missing, f), Rank(OPERATION))
    ensures f == OPERATION ==> AllBelow(Added(fields, missing, f), Rank(RESOURCE))
  {
  }

  /** The status, and whether the handler runs, depend on which rules and grants
      there are, not on their order or repetition, and never on the parameters. */
  lemma StatusIgnoresOrder(config: KernelConfig, config': KernelConfig,
                           request: ActionRequest, request': ActionRequest,
                           events: seq<AuditEvent>, outcome: HandlerOutcome)
    requires forall r :: r in config.rules <==> r in config'.rules
    requires forall g :: g in config.grants <==> g in config'.grants
    requires config.subjects == config'.subjects && config.handlers == config'.handlers
    requires request' == request.(parameters := request'.parameters)
    ensures Gates(config, request).Proceed? <==> Gates(config', request').Proceed?
    ensures DecisionFor(config, events, request, outcome).status
            == DecisionFor(config', events, request', outcome).status
    ensures |CallsFor(config, request)| == |CallsFor(config', request')|
  {
    hide Gates;
    GatesAuthorize(config, request);
    GatesAuthorize(config', request');
    assert forall r, e :: Says(r, e, request) <==> Says(r, e, request');
    assert forall g :: Grants(g, request) <==> Grants(g, request');
    assert forall e :: SomeRule(config.rules, e, request) <==> SomeRule(config'.rules, e, request');
  }

  /** The reason is another matter: of two denying rules that match, the first
      one gives it. */
  lemma ReasonFollowsOrder(config: KernelConfig, request: ActionRequest, a: PolicyRule, b: PolicyRule,
                           outcome: HandlerOutcome)
    requires request.IsValid() && Resolve(config.subjects, request.subjectId) != None
    requires Says(a, DENY, request) && Says(b, DENY, request)
    requires a.reason != "" && b.reason != "" && a.reason != b.reason
    ensures Rule(config.(rules := [a, b]), request, outcome).reason == RuleReason(a.reason)
    ensures Rule(config.(rules := [b, a]), request, outcome).reason == RuleReason(b.reason)
  {
    DeniedByFirst(request, a, b);
    DeniedByFirst(request, b, a);
  }

  lemma DeniedByFirst(request: ActionRequest, a: PolicyRule, b: PolicyRule)
    requires Says(a, DENY, request) && Says(b, DENY, request)
    ensures Evaluate([a, b], request)
            == PolicyDecision(false, Some(a.policyId), OrDefault(a.reason, ExplicitPolicyDenial))
  {
    var rules := [a, b];
    assert rules[1..] == [b];
    assert Matching(rules, request) == [a] + Matching([b], request);
    var matches := Matching(rules, request);
    assert WithEffect(matches, DENY) == [a] + WithEffect(matches[1..], DENY);
  }

  // ---- whole runs of one kernel ----

  datatype Input = Input(request: ActionRequest, timestamp: string, outcome: HandlerOutcome)

  function HandledAll(hash: Hash, config: KernelConfig, state: KernelState, inputs: seq<Input>): KernelState
    decreases |inputs|
  {
    if inputs == [] then state
    else
      HandledAll(hash, config,
                 Handled(hash, config, state, inputs[0].request, inputs[0].timestamp, inputs[0].outcome),
                 inputs[1..])
  }

  /** The call that an authorized request makes, and no other request makes. */
  ghost function AuthorizedCall(config: KernelConfig, request: ActionRequest): seq<HandlerCall> {
    if Authorized(config, request)
    then [HandlerCall(request.operation, request.resource, request.parameters)]
    else []
  }

  /** The calls that reach the handlers in a run, in order. */
  ghost function AuthorizedCalls(config: KernelConfig, inputs: seq<Input>): seq<HandlerCall> {
    if inputs == [] then []
    else AuthorizedCalls(config, inputs[..|inputs| - 1]) + AuthorizedCall(config, inputs[|inputs| - 1].request)
  }

  /** The status an input must get. */
  ghost function ExpectedStatus(config: KernelConfig, input: Input): DecisionStatus {
    if !Authorized(config, input.request) then DENIED
    else if input.outcome.Returned? then ALLOWED
    else FAILED
  }

  /** The event is about the request, at its time, and carries its status, and the
      reason and metadata of its ruling. */
  ghost predicate Reports(config: KernelConfig, event: AuditEvent, input: Input) {
    var ruling := Rule(config, input.request, input.outcome);
    && event.payload.requestId == Marked(input.request.requestId)
    && event.payload.subjectId == Marked(input.request.subjectId)
    && event.payload.operation == Marked(input.request.operation)
    && event.payload.resource == Marked(input.request.resource)
    && event.payload.status == ExpectedStatus(config, input)
    && event.payload.reason == ruling.reason && event.payload.metadata == ruling.metadata
    && event.payload.timestamp == input.timestamp
  }

  lemma EventReports(hash: Hash, config: KernelConfig, events: seq<AuditEvent>, input: Input)
    ensures Reports(config, EventFor(hash, config, events, input.request, input.timestamp, input.outcome), input)
  {
    GatesAuthorize(config, input.request);
  }

  ghost predicate ReportsAt(config: KernelConfig, events: seq<AuditEvent>, inputs: seq<Input>, i: nat)
    requires i < |events| && i < |inputs|
  {
    Reports(config, events[i], inputs[i])
  }

  /** What a run leaves behind: a valid log whose event `i` reports input `i`,
      and the handler calls of exactly the authorized requests, in order. */
  ghost predicate Mirrors(hash: Hash, config: KernelConfig, state: KernelState, inputs: seq<Input>) {
    && ChainValid(hash, state.events) && Numbered(state.events)
    && |state.events| == |inputs|
    && (forall i :: 0 <= i < |inputs| ==> ReportsAt(config, state.events, inputs, i))
    && state.calls == AuthorizedCalls(config, inputs)
  }

  /** One more request keeps the state a mirror of the inputs. */
  lemma HandledMirrors(hash: Hash, config: KernelConfig, state: KernelState, inputs: seq<Input>, input: Input)
    requires Mirrors(hash, config, state, inputs)
    ensures Mirrors(hash, config,
                    Handled(hash, config, state, input.request, input.timestamp, input.outcome),
                    inputs + [input])
  {
    var after := Handled(hash, config, state, input.request, input.timestamp, input.outcome);
    var r := Rule(config, input.request, input.outcome);
    AppendKeepsChain(hash, state.events, EntryFor(input.request, r.status, r.reason, r.metadata), input.timestamp);
    EventReports(hash, config, state.events, input);
    forall i | 0 <= i < |after.events|
      ensures ReportsAt(config, after.events, inputs + [input], i)
    {
      if i < |inputs| {
        assert ReportsAt(config, state.events, inputs, i);
      }
    }
    GatesAuthorize(config, input.request);
    assert (inputs + [input])[..|inputs|] == inputs;
  }

  lemma {:induction false} RunMirrors(hash: Hash, config: KernelConfig, state: KernelState, done: seq<Input>,
                                      rest: seq<Input>)
    requires Mirrors(hash, config, state, done)
    ensures Mirrors(hash, config, HandledAll(hash, config, state, rest), done + rest)
    decreases |rest|
  {
    if rest == [] {
      assert done + rest == done;
    } else {
      var next := Handled(hash, config, state, rest[0].request, rest[0].timestamp, rest[0].outcome);
      assert done + [rest[0]] + rest[1..] == done + rest;
      HandledMirrors(hash, config, state, done, rest[0]);
      RunMirrors(hash, config, next, done + [rest[0]], rest[1..]);
    }
  }

  /** Every run from an empty log mirrors its inputs: one event for each request,
      in order and with the right status, and the handlers ran for exactly the
      authorized requests. */
  lemma EveryRunIsAudited(hash: Hash, config: KernelConfig, inputs: seq<Input>)
    ensures Mirrors(hash, config, HandledAll(hash, config, KernelState([], []), inputs), inputs)
  {
    RunMirrors(hash, config, KernelState([], []), [], inputs);
    assert [] + inputs == inputs;
  }
}
