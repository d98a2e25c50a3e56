/** The gates in front of a handler: identity, policy and capability. */
module Policy {
  import opened Models

  // ---- identity ----

  datatype Subject = Subject(subjectId: string, displayName: string, roles: seq<string>, active: bool)

  /** `IdentityRegistry.resolve`: an inactive subject is as good as none. */
  function Resolve(subjects: map<string, Subject>, subjectId: string): Option<Subject> {
    if subjectId in subjects && subjects[subjectId].active then Some(subjects[subjectId]) else None
  }

  // ---- policy ----

  datatype PolicyEffect = ALLOW | DENY

  predicate Covers(pattern: string, value: string) {
    pattern == "*" || pattern == value
  }

  datatype PolicyRule = PolicyRule(
    policyId: string, effect: PolicyEffect, operation: string, resource: string, subjectId: string,
    reason: string)
  {
    predicate Matches(request: ActionRequest) {
      && Covers(subjectId, request.subjectId)
      && Covers(operation, request.operation)
      && Covers(resource, request.resource)
    }
  }

  datatype PolicyDecision = PolicyDecision(allowed: bool, policyId: Option<string>, reason: Reason)

  function Matching(rules: seq<PolicyRule>, request: ActionRequest): seq<PolicyRule> {
    if rules == [] then []
    else (if rules[0].Matches(request) then [rules[0]] else []) + Matching(rules[1..], request)
  }

  function WithEffect(rules: seq<PolicyRule>, effect: PolicyEffect): seq<PolicyRule> {
    if rules == [] then []
    else (if rules[0].effect == effect then [rules[0]] else []) + WithEffect(rules[1..], effect)
  }

  /** The text of a rule, or the default for its effect when it has none. */
  function OrDefault(text: string, fallback: Reason): Reason {
    if text == "" then fallback else RuleReason(text)
  }

  /** `PolicyEngine.evaluate`: an explicit denial wins over any allowance. */
  function Evaluate(rules: seq<PolicyRule>, request: ActionRequest): PolicyDecision {
    var matches := Matching(rules, request);
    if matches == [] then PolicyDecision(false, None, NoMatchingPolicy)
    else
      var denials := WithEffect(matches, DENY);
      if denials != [] then
        PolicyDecision(false, Some(denials[0].policyId), OrDefault(denials[0].reason, ExplicitPolicyDenial))
      else
        var allows := WithEffect(matches, ALLOW);
        if allows != [] then
          PolicyDecision(true, Some(allows[0].policyId), OrDefault(allows[0].reason, PolicyAllowed))
        else PolicyDecision(false, None, NoEffectivePolicy)
  }

  /** The rule has the effect and is about the request: each of its fields is "*"
      or the request's own. */
  ghost predicate Says(r: PolicyRule, effect: PolicyEffect, request: ActionRequest) {
    && r.effect == effect
    && (r.subjectId == "*" || r.subjectId == request.subjectId)
    && (r.operation == "*" || r.operation == request.operation)
    && (r.resource == "*" || r.resource == request.resource)
  }

  ghost predicate SomeRule(rules: seq<PolicyRule>, effect: PolicyEffect, request: ActionRequest) {
    exists r :: r in rules && Says(r, effect, request)
  }

  /** Rule `i` is the first that has the effect and is about the request. */
  ghost predicate FirstRule(rules: seq<PolicyRule>, effect: PolicyEffect, request: ActionRequest, i: nat) {
    i < |rules| && Says(rules[i], effect, request) && forall k :: 0 <= k < i ==> !Says(rules[k], effect, request)
  }

  lemma {:induction false} MatchingMembers(rules: seq<PolicyRule>, request: ActionRequest)
    ensures forall r :: r in Matching(rules, request) <==> r in rules && r.Matches(request)
  {
    if rules == [] {
    } else {
      MatchingMembers(rules[1..], request);
      assert rules == [rules[0]] + rules[1..];
    }
  }

  lemma {:induction false} WithEffectMembers(rules: seq<PolicyRule>, effect: PolicyEffect)
    ensures forall r :: r in WithEffect(rules, effect) <==> r in rules && r.effect == effect
  {
    if rules == [] {
    } else {
      WithEffectMembers(rules[1..], effect);
      assert rules == [rules[0]] + rules[1..];
    }
  }

  /** Deny overrides: allowed exactly when some rule allows and none denies. */
  lemma PolicyAllows(rules: seq<PolicyRule>, request: ActionRequest)
    ensures Evaluate(rules, request).allowed <==>
            SomeRule(rules, ALLOW, request) && !SomeRule(rules, DENY, request)
    ensures Evaluate(rules, request).reason != NoEffectivePolicy
  {
    var matches := Matching(rules, request);
    MatchingMembers(rules, request);
    WithEffectMembers(matches, DENY);
    WithEffectMembers(matches, ALLOW);
    if WithEffect(matches, DENY) != [] {
      assert WithEffect(matches, DENY)[0] in WithEffect(matches, DENY);
    }
    if WithEffect(matches, ALLOW) != [] {
      assert WithEffect(matches, ALLOW)[0] in WithEffect(matches, ALLOW);
    }
    if matches != [] {
      assert matches[0] in matches;
    }
  }

  /** The first rule with the effect about the request is the first candidate for it. */
  lemma {:induction false} FirstIsFound(rules: seq<PolicyRule>, effect: PolicyEffect, request: ActionRequest, i: nat)
    requires FirstRule(rules, effect, request, i)
    ensures var found := WithEffect(Matching(rules, request), effect); found != [] && found[0] == rules[i]
  {
    var rest := Matching(rules[1..], request);
    if i == 0 {
      assert Matching(rules, request) == [rules[0]] + rest;
    } else {
      assert forall k :: 0 <= k < i - 1 ==> rules[1..][k] == rules[k + 1];
      FirstIsFound(rules[1..], effect, request, i - 1);
      assert !Says(rules[0], effect, request);
      if rules[0].Matches(request) {
        assert Matching(rules, request) == [rules[0]] + rest && ([rules[0]] + rest)[1..] == rest;
        assert WithEffect([rules[0]] + rest, effect) == [] + WithEffect(rest, effect);
      } else {
        assert Matching(rules, request) == [] + rest == rest;
      }
    }
  }

  /** The whole decision: the first denial about the request speaks, or else the
      first allowance, or else nobody does. */
  lemma PolicyDecides(rules: seq<PolicyRule>, request: ActionRequest)
    ensures var d := Evaluate(rules, request);
            && (forall i: nat :: FirstRule(rules, DENY, request, i) ==>
                  d == PolicyDecision(
                         false, Some(rules[i].policyId),
                         if rules[i].reason == "" then ExplicitPolicyDenial else RuleReason(rules[i].reason)))
            && (forall i: nat :: FirstRule(rules, ALLOW, request, i) && !SomeRule(rules, DENY, request) ==>
                  d == PolicyDecision(
                         true, Some(rules[i].policyId),
                         if rules[i].reason == "" then PolicyAllowed else RuleReason(rules[i].reason)))
            && (!SomeRule(rules, DENY, request) && !SomeRule(rules, ALLOW, request) ==>
                  d == PolicyDecision(false, None, NoMatchingPolicy))
  {
    MatchingMembers(rules, request);
    WithEffectMembers(Matching(rules, request), DENY);
    forall i: nat | FirstRule(rules, DENY, request, i)
      ensures WithEffect(Matching(rules, request), DENY) != []
      ensures WithEffect(Matching(rules, request), DENY)[0] == rules[i]
    {
      FirstIsFound(rules, DENY, request, i);
    }
    forall i: nat | FirstRule(rules, ALLOW, request, i)
      ensures WithEffect(Matching(rules, request), ALLOW) != []
      ensures WithEffect(Matching(rules, request), ALLOW)[0] == rules[i]
    {
      FirstIsFound(rules, ALLOW, request, i);
    }
    var denials, matches := WithEffect(Matching(rules, request), DENY), Matching(rules, request);
    if denials != [] {
      assert denials[0] in denials && Says(denials[0], DENY, request);
    } else if matches != [] {
      assert matches[0] in matches && matches[0] !in denials;
      assert Says(matches[0], ALLOW, request);
    }
  }

  /** A rule about another named operation changes nothing, wherever it stands. */
  lemma OtherRuleIsIdle(rules: seq<PolicyRule>, more: seq<PolicyRule>, r: PolicyRule, request: ActionRequest)
    requires r.operation != "*" && r.operation != request.operation
    ensures Evaluate(rules + [r] + more, request) == Evaluate(rules + more, request)
  {
    IdleRuleIsNoMatch(rules, more, r, request);
  }

  lemma {:induction false} IdleRuleIsNoMatch(rules: seq<PolicyRule>, more: seq<PolicyRule>, r: PolicyRule,
                                             request: ActionRequest)
    requires r.operation != "*" && r.operation != request.operation
    ensures Matching(rules + [r] + more, request) == Matching(rules + more, request)
  {
    var with, without := rules + [r] + more, rules + more;
    if rules == [] {
      assert with[0] == r && with[1..] == more == without;
    } else {
      assert with[0] == without[0] && with[1..] == rules[1..] + [r] + more && without[1..] == rules[1..] + more;
      IdleRuleIsNoMatch(rules[1..], more, r, request);
    }
  }

  // ---- capability ----

  datatype CapabilityGrant = CapabilityGrant(grantId: string, subjectId: string, operation: string, resource: string) {
    /** A grant names its subject: there is no wildcard for it. */
    predicate Matches(request: ActionRequest) {
      && subjectId == request.subjectId
      && Covers(operation, request.operation)
      && Covers(resource, request.resource)
    }
  }

  datatype CapabilityDecision = CapabilityDecision(allowed: bool, grantId: Option<string>, reason: Reason)

  /** `CapabilityRegistry.check`: the first matching grant. */
  function Check(grants: seq<CapabilityGrant>, request: ActionRequest): CapabilityDecision {
    if grants == [] then CapabilityDecision(false, None, NoMatchingGrant)
    else if grants[0].Matches(request) then
      CapabilityDecision(true, Some(grants[0].grantId), CapabilityGranted)
    else Check(grants[1..], request)
  }

  /** The grant is for the request: it names its subject, and its operation and
      resource are "*" or the request's own. */
  ghost predicate Grants(g: CapabilityGrant, request: ActionRequest) {
    && g.subjectId == request.subjectId
    && (g.operation == "*" || g.operation == request.operation)
    && (g.resource == "*" || g.resource == request.resource)
  }

  ghost predicate SomeGrant(grants: seq<CapabilityGrant>, request: ActionRequest) {
    exists g :: g in grants && Grants(g, request)
  }

  /** Allowed exactly when some grant is for the request; the first one is named. */
  lemma {:induction false} CapabilityAllows(grants: seq<CapabilityGrant>, request: ActionRequest)
    ensures Check(grants, request).allowed <==> SomeGrant(grants, request)
    ensures !SomeGrant(grants, request) ==> Check(grants, request) == CapabilityDecision(false, None, NoMatchingGrant)
    ensures forall i :: 0 <= i < |grants| && Grants(grants[i], request)
                        && (forall k :: 0 <= k < i ==> !Grants(grants[k], request)) ==>
              Check(grants, request) == CapabilityDecision(true, Some(grants[i].grantId), CapabilityGranted)
  {
    if grants == [] {
    } else {
      CapabilityAllows(grants[1..], request);
      assert grants == [grants[0]] + grants[1..];
      if !Grants(grants[0], request) {
        forall i | 0 < i < |grants| && Grants(grants[i], request)
                   && (forall k :: 0 <= k < i ==> !Grants(grants[k], request))
          ensures Check(grants, request) == CapabilityDecision(true, Some(grants[i].grantId), CapabilityGranted)
        {
          assert grants[1..][i - 1] == grants[i];
        }
      }
    }
  }

  /** A grant of another named operation changes nothing, wherever it stands. */
  lemma {:induction false} OtherGrantIsIdle(grants: seq<CapabilityGrant>, more: seq<CapabilityGrant>,
                                            g: CapabilityGrant, request: ActionRequest)
    requires g.operation != "*" && g.operation != request.operation
    ensures Check(grants + [g] + more, request) == Check(grants + more, request)
  {
    var with, without := grants + [g] + more, grants + more;
    if grants == [] {
      assert with[0] == g && with[1..] == more == without;
    } else {
      assert with[0] == without[0] && with[1..] == grants[1..] + [g] + more && without[1..] == grants[1..] + more;
      OtherGrantIsIdle(grants[1..], more, g, request);
    }
  }
}
