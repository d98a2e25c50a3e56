/** The values that travel through the kernel: requests, plans and decisions. */
module Models {
  datatype Option<+T> = None | Some(value: T)

  datatype Json =
    | JNull
    | JBool(b: bool)
    | JInt(n: int)
    | JString(s: string)
    | JArray(items: seq<Json>)
    | JObject(fields: map<string, Json>)

  datatype DecisionStatus = ALLOWED | DENIED | FAILED

  /** The required fields of a request, in the order `validate` lists them. */
  datatype Field = REQUEST_ID | SUBJECT_ID | OPERATION | RESOURCE

  function NamedIf(missing: bool, field: Field): seq<Field> {
    if missing then [field] else []
  }

  datatype ActionRequest = ActionRequest(
    requestId: string, subjectId: string, operation: string, resource: string,
    parameters: map<string, Json>)
  {
    function MissingFields(): seq<Field> {
      NamedIf(requestId == "", REQUEST_ID) + NamedIf(subjectId == "", SUBJECT_ID)
      + NamedIf(operation == "", OPERATION) + NamedIf(resource == "", RESOURCE)
    }

    /** `validate` returns normally. */
    predicate IsValid() {
      MissingFields() == []
    }
  }

  /** The reasons a kernel gives, one constructor for each message it prints.
      `RuleReason` is the text a policy rule brings along. */
  datatype Reason =
    | ExecutionAllowed
    | HandlerFailed(message: string)
    | MissingRequestFields(fields: seq<Field>)
    | IdentityNotFoundOrInactive
    | NoMatchingPolicy
    | NoEffectivePolicy
    | ExplicitPolicyDenial
    | PolicyAllowed
    | RuleReason(text: string)
    | NoMatchingGrant
    | CapabilityGranted
    | NoHandlerRegistered

  datatype ExecutionStep = ExecutionStep(operation: string, resource: string, parameters: map<string, Json>)

  datatype ExecutionPlan = ExecutionPlan(requestId: string, steps: seq<ExecutionStep>)

  /** The planner makes one step of every request. */
  function PlanFor(request: ActionRequest): ExecutionPlan {
    ExecutionPlan(request.requestId,
                  [ExecutionStep(request.operation, request.resource, request.parameters)])
  }

  datatype ExecutionResult = ExecutionResult(operation: string, resource: string, output: map<string, Json>)

  datatype Decision = Decision(
    requestId: string, status: DecisionStatus, reason: Reason, auditEventId: string,
    result: Option<ExecutionResult>)
  {
    predicate Allowed() {
      status == ALLOWED
    }
  }

  /** What is logged about a decision: each key is there or not, as the gate
      that decided had got to know it. */
  datatype Metadata = Metadata(
    policyId: Option<Option<string>>, grantId: Option<Option<string>>,
    plan: Option<ExecutionPlan>, result: Option<map<string, Json>>)

  const NO_METADATA := Metadata(None, None, None, None)

  datatype ClusterReason =
    | QuorumAllowed
    | QuorumNotReached
    | QuorumUnreachable(visible: nat, configured: nat, drifted: seq<string>)

  datatype ClusterDecision = ClusterDecision(
    requestId: string, status: DecisionStatus, reason: ClusterReason,
    quorum: nat, approvals: nat, denials: nat, nodeDecisions: seq<Decision>)
}
