/** The evaluator's loops over a shared consulted list, against the functions that specify them. */
module EvaluationLoops {
  import opened Wrappers
  import opened Facts
  import opened Policies
  import opened Consulting
  import opened Conditions
  import opened Evaluation

  method EvaluateToDecision<O(==)>(lattice: Lattice<O>, policy: Policy<O>, facts: KnownFacts)
    returns (decision: Decision<O>)
    ensures decision == Evaluate(lattice, policy, facts)
  {
    var consulted := new ConsultedList();
    var result := RunPolicy(lattice, policy, facts, consulted);
    decision := Decision(result.effect, result.obligations, consulted.entries, result.decisive);
  }

  method EvaluateResidualToDecision<O(==)>(lattice: Lattice<O>, policy: ResidualPolicy<O>, facts: KnownFacts)
    returns (decision: Decision<O>)
    ensures decision == EvaluateResidual(lattice, policy, facts)
  {
    var consulted := new ConsultedList();
    var result := RunResidual(lattice, policy, facts, consulted);
    decision := Decision(result.effect, result.obligations, consulted.entries, result.decisive);
  }

  // ----- policies -----

  method RunPolicy<O(==)>(lattice: Lattice<O>, policy: Policy<O>, facts: KnownFacts, consulted: ConsultedList)
    returns (result: EvalResult<O>)
    modifies consulted
    ensures result == EvalPolicy(lattice, policy, facts).result
    ensures consulted.entries == Extended(old(consulted.entries), EvalPolicy(lattice, policy, facts).readLog)
    decreases policy, 1
  {
    match policy
    case Permit(outcome) => result := ConstantPermit(outcome, [], [], None);
    case Deny => result := GenericDeny();
    case Grant(clause) => result := RunGrant(clause, facts, consulted);
    case All(policies) => result := RunAll(lattice, policies, facts, consulted);
    case Any(policies) => result := RunAny(lattice, policies, facts, consulted);
    case OrElse(primary, fallback) =>
      ghost var before, first := consulted.entries, EvalPolicy(lattice, primary, facts);
      result := RunPolicy(lattice, primary, facts, consulted);
      if result.effect.Deny? {
        result := RunPolicy(lattice, fallback, facts, consulted);
        ExtendedAppend(before, first.readLog, EvalPolicy(lattice, fallback, facts).readLog);
      }
  }

  method RunGrant<O>(clause: Clause<O>, facts: KnownFacts, consulted: ConsultedList)
    returns (result: EvalResult<O>)
    modifies consulted
    ensures result == EvalGrant(clause, facts).result
    ensures consulted.entries == Extended(old(consulted.entries), EvalGrant(clause, facts).readLog)
  {
    var satisfied, decisive := EvaluateCondition(clause.condition, facts, consulted);
    if satisfied {
      result := ConstantPermit(clause.outcome, clause.obligations, decisive, clause.clauseLabel);
    } else {
      result := EvalResult(
        Effect.Deny, [],
        DecisiveClause.Deny(Some(clause.outcome), decisive, clause.clauseLabel, clause.reason, clause.denyShape));
    }
  }

  method RunAll<O(==)>(
      lattice: Lattice<O>, policies: seq<Policy<O>>, facts: KnownFacts, consulted: ConsultedList)
    returns (result: EvalResult<O>)
    modifies consulted
    ensures result == AllOfArms(lattice, EvalPolicies(lattice, policies, facts)).result
    ensures consulted.entries ==
      Extended(old(consulted.entries), AllOfArms(lattice, EvalPolicies(lattice, policies, facts)).readLog)
    decreases policies, 0
  {
    ghost var arms, before := EvalPolicies(lattice, policies, facts), consulted.entries;
    var permit: Option<PermitState<O>> := None;
    for i := 0 to |policies|
      invariant NoDeny(arms[..i])
      invariant permit == FoldPermits(lattice, ByMeet, arms[..i])
      invariant consulted.entries == Extended(before, ReadsOf(arms[..i]))
    {
      ArmStep(lattice, arms, i);
      FoldStep(lattice, ByMeet, arms, i);
      result := RunPolicy(lattice, policies[i], facts, consulted);
      ExtendedAppend(before, ReadsOf(arms[..i]), arms[i].readLog);
      if result.effect.Deny? {
        AllStopsAt(lattice, arms, i);
        return;
      }
      permit := Some(if permit.None? then PermitOf(result) else Meet(lattice, permit.value, PermitOf(result)));
    }
    assert arms[..|policies|] == arms;
    AllPermits(lattice, arms);
    result := if permit.None? then GenericDeny() else IntoResult(permit.value);
  }

  method RunAny<O(==)>(
      lattice: Lattice<O>, policies: seq<Policy<O>>, facts: KnownFacts, consulted: ConsultedList)
    returns (result: EvalResult<O>)
    modifies consulted
    ensures result == AnyOfArms(lattice, EvalPolicies(lattice, policies, facts)).result
    ensures consulted.entries ==
      Extended(old(consulted.entries), AnyOfArms(lattice, EvalPolicies(lattice, policies, facts)).readLog)
    decreases policies, 0
  {
    ghost var arms, before := EvalPolicies(lattice, policies, facts), consulted.entries;
    var winning: Option<PermitState<O>> := None;
    var firstDeny: Option<DecisiveClause<O>> := None;
    for i := 0 to |policies|
      invariant AnyProgress(lattice, arms, i, before, firstDeny, winning, consulted.entries)
    {
      AnyAdvances(lattice, arms, i, before, firstDeny, winning, consulted.entries);
      var arm := RunPolicy(lattice, policies[i], facts, consulted);
      if arm.effect.Deny? {
        firstDeny := if firstDeny.None? then Some(arm.decisive) else firstDeny;
      } else {
        winning := Joined(lattice, winning, arm);
      }
    }
    AnyFinishes(lattice, arms, before, firstDeny, winning, consulted.entries);
    result := AnyResult(winning, firstDeny);
  }

  // ----- residual policies -----

  method RunResidual<O(==)>(
      lattice: Lattice<O>, policy: ResidualPolicy<O>, facts: KnownFacts, consulted: ConsultedList)
    returns (result: EvalResult<O>)
    modifies consulted
    ensures result == EvalResidual(lattice, policy, facts).result
    ensures consulted.entries == Extended(old(consulted.entries), EvalResidual(lattice, policy, facts).readLog)
    decreases policy, 1
  {
    match policy
    case Permit(outcome) => result := ConstantPermit(outcome, [], [], None);
    case Deny => result := GenericDeny();
    case PermitWithTrace(outcome, obligations, satisfied, clauseLabel) =>
      result := ConstantPermit(outcome, obligations, satisfied, clauseLabel);
    case DenyWithTrace(denied, unsatisfied, clauseLabel, reason, shape) =>
      result := EvalResult(
        Effect.Deny, [], DecisiveClause.Deny(denied, unsatisfied, clauseLabel, reason, shape));
    case Grant(clause) => result := RunGrant(clause, facts, consulted);
    case All(policies) => result := RunResidualAll(lattice, policies, facts, consulted);
    case Any(policies) => result := RunResidualAny(lattice, policies, facts, consulted);
    case OrElse(primary, fallback) =>
      ghost var before, first := consulted.entries, EvalResidual(lattice, primary, facts);
      result := RunResidual(lattice, primary, facts, consulted);
      if result.effect.Deny? {
        result := RunResidual(lattice, fallback, facts, consulted);
        ExtendedAppend(before, first.readLog, EvalResidual(lattice, fallback, facts).readLog);
      }
  }

  method RunResidualAll<O(==)>(
      lattice: Lattice<O>, policies: seq<ResidualPolicy<O>>, facts: KnownFacts, consulted: ConsultedList)
    returns (result: EvalResult<O>)
    modifies consulted
    ensures result == AllOfArms(lattice, EvalResiduals(lattice, policies, facts)).result
    ensures consulted.entries ==
      Extended(old(consulted.entries), AllOfArms(lattice, EvalResiduals(lattice, policies, facts)).readLog)
    decreases policies, 0
  {
    ghost var arms, before := EvalResiduals(lattice, policies, facts), consulted.entries;
    var permit: Option<PermitState<O>> := None;
    for i := 0 to |policies|
      invariant NoDeny(arms[..i])
      invariant permit == FoldPermits(lattice, ByMeet, arms[..i])
      invariant consulted.entries == Extended(before, ReadsOf(arms[..i]))
    {
      ArmStep(lattice, arms, i);
      FoldStep(lattice, ByMeet, arms, i);
      result := RunResidual(lattice, policies[i], facts, consulted);
      ExtendedAppend(before, ReadsOf(arms[..i]), arms[i].readLog);
      if result.effect.Deny? {
        AllStopsAt(lattice, arms, i);
        return;
      }
      permit := Some(if permit.None? then PermitOf(result) else Meet(lattice, permit.value, PermitOf(result)));
    }
    assert arms[..|policies|] == arms;
    AllPermits(lattice, arms);
    result := if permit.None? then GenericDeny() else IntoResult(permit.value);
  }

  method RunResidualAny<O(==)>(
      lattice: Lattice<O>, policies: seq<ResidualPolicy<O>>, facts: KnownFacts, consulted: ConsultedList)
    returns (result: EvalResult<O>)
    modifies consulted
    ensures result == AnyOfArms(lattice, EvalResiduals(lattice, policies, facts)).result
    ensures consulted.entries ==
      Extended(old(consulted.entries), AnyOfArms(lattice, EvalResiduals(lattice, policies, facts)).readLog)
    decreases policies, 0
  {
    ghost var arms, before := EvalResiduals(lattice, policies, facts), consulted.entries;
    var winning: Option<PermitState<O>> := None;
    var firstDeny: Option<DecisiveClause<O>> := None;
    for i := 0 to |policies|
      invariant AnyProgress(lattice, arms, i, before, firstDeny, winning, consulted.entries)
    {
      AnyAdvances(lattice, arms, i, before, firstDeny, winning, consulted.entries);
      var arm := RunResidual(lattice, policies[i], facts, consulted);
      if arm.effect.Deny? {
        firstDeny := if firstDeny.None? then Some(arm.decisive) else firstDeny;
      } else {
        winning := Joined(lattice, winning, arm);
      }
    }
    AnyFinishes(lattice, arms, before, firstDeny, winning, consulted.entries);
    result := AnyResult(winning, firstDeny);
  }

  // ----- loop steps -----

  function Joined<O(==)>(lattice: Lattice<O>, winning: Option<PermitState<O>>, arm: EvalResult<O>)
    : Option<PermitState<O>>
    requires arm.effect.Permit?
  {
    match winning
    case None => Some(PermitOf(arm))
    case Some(current) => Some(Join(lattice, current, PermitOf(arm)))
  }

  function AnyResult<O>(winning: Option<PermitState<O>>, firstDeny: Option<DecisiveClause<O>>): EvalResult<O> {
    match winning
    case Some(permit) => IntoResult(permit)
    case None =>
      EvalResult(Effect.Deny, [], if firstDeny.Some? then firstDeny.value else GenericDeny().decisive)
  }

  ghost predicate NoDeny<O>(arms: seq<Arm<O>>) {
    forall i | 0 <= i < |arms| :: arms[i].result.effect.Permit?
  }

  function FirstDenial<O>(arms: seq<Arm<O>>): Option<DecisiveClause<O>> {
    var k := FirstDeny(arms);
    if k < |arms| then Some(arms[k].result.decisive) else None
  }

  lemma FirstDenialStep<O>(arms: seq<Arm<O>>, i: nat)
    requires i < |arms|
    ensures FirstDenial(arms[..i + 1]) ==
      if FirstDenial(arms[..i]).Some? || arms[i].result.effect.Permit? then FirstDenial(arms[..i])
      else Some(arms[i].result.decisive)
  {
    var before, after := arms[..i], arms[..i + 1];
    assert after == before + [arms[i]];
    var k := FirstDeny(before);
    assert k < |before| ==> after[k] == before[k];
    FirstDenyUnique(after, if k < |before| || arms[i].result.effect.Deny? then k else i + 1);
  }

  lemma FirstDenyUnique<O>(arms: seq<Arm<O>>, k: nat)
    requires k <= |arms| && NoDeny(arms[..k])
    requires k < |arms| ==> arms[k].result.effect.Deny?
    ensures FirstDeny(arms) == k
  {
    forall i | 0 <= i < k ensures arms[i].result.effect.Permit? {
      assert arms[..k][i] == arms[i];
    }
  }

  lemma ArmStep<O>(lattice: Lattice<O>, arms: seq<Arm<O>>, i: nat)
    requires i < |arms|
    ensures arms[..i + 1][..i] == arms[..i]
    ensures ReadsOf(arms[..i + 1]) == ReadsOf(arms[..i]) + arms[i].readLog
    ensures NoDeny(arms[..i + 1]) <==> NoDeny(arms[..i]) && arms[i].result.effect.Permit?
  {
    assert arms[..i + 1][..i] == arms[..i];
    assert arms[..i + 1] == arms[..i] + [arms[i]];
  }

  lemma JoinStep<O>(lattice: Lattice<O>, arms: seq<Arm<O>>, i: nat)
    requires i < |arms|
    ensures var current, last := FoldPermits(lattice, ByJoin, arms[..i]), arms[i].result;
      FoldPermits(lattice, ByJoin, arms[..i + 1]) ==
        if last.effect.Deny? then current else Joined(lattice, current, last)
  {
    FoldStep(lattice, ByJoin, arms, i);
  }

  lemma FoldStep<O>(lattice: Lattice<O>, mode: Mode, arms: seq<Arm<O>>, i: nat)
    requires i < |arms|
    ensures var current, last := FoldPermits(lattice, mode, arms[..i]), arms[i].result;
      FoldPermits(lattice, mode, arms[..i + 1]) ==
        if last.effect.Deny? then current
        else if current.None? then Some(PermitOf(last))
        else Some(Combine(lattice, mode, current.value, PermitOf(last)))
  {
    assert arms[..i + 1][..i] == arms[..i];
  }

  lemma AllStopsAt<O>(lattice: Lattice<O>, arms: seq<Arm<O>>, i: nat)
    requires i < |arms| && NoDeny(arms[..i]) && arms[i].result.effect.Deny?
    ensures AllOfArms(lattice, arms) == Arm(arms[i].result, ReadsOf(arms[..i + 1]))
  {
    FirstDenyUnique(arms, i);
  }

  lemma AllPermits<O>(lattice: Lattice<O>, arms: seq<Arm<O>>)
    requires NoDeny(arms)
    ensures var permit := FoldPermits(lattice, ByMeet, arms);
      AllOfArms(lattice, arms) ==
        if permit.None? then Arm(GenericDeny(), []) else Arm(IntoResult(permit.value), ReadsOf(arms))
    ensures FoldPermits(lattice, ByMeet, arms).None? ==> arms == []
  {
  }

  // What an `any` loop knows after `count` arms.
  ghost predicate AnyProgress<O>(
      lattice: Lattice<O>, arms: seq<Arm<O>>, count: nat, before: Log,
      firstDeny: Option<DecisiveClause<O>>, winning: Option<PermitState<O>>, entries: Log)
    requires count <= |arms|
  {
    && firstDeny == FirstDenial(arms[..count])
    && winning == FoldPermits(lattice, ByJoin, arms[..count])
    && entries == Extended(before, ReadsOf(arms[..count]))
  }

  lemma AnyAdvances<O>(
      lattice: Lattice<O>, arms: seq<Arm<O>>, i: nat, before: Log,
      firstDeny: Option<DecisiveClause<O>>, winning: Option<PermitState<O>>, entries: Log)
    requires i < |arms| && AnyProgress(lattice, arms, i, before, firstDeny, winning, entries)
    ensures var last, extended := arms[i].result, Extended(entries, arms[i].readLog);
      if last.effect.Deny? then
        AnyProgress(
          lattice, arms, i + 1, before,
          if firstDeny.None? then Some(last.decisive) else firstDeny, winning, extended)
      else AnyProgress(lattice, arms, i + 1, before, firstDeny, Joined(lattice, winning, last), extended)
  {
    ArmStep(lattice, arms, i);
    JoinStep(lattice, arms, i);
    FirstDenialStep(arms, i);
    ExtendedAppend(before, ReadsOf(arms[..i]), arms[i].readLog);
  }

  lemma AnyFinishes<O>(
      lattice: Lattice<O>, arms: seq<Arm<O>>, before: Log,
      firstDeny: Option<DecisiveClause<O>>, winning: Option<PermitState<O>>, entries: Log)
    requires AnyProgress(lattice, arms, |arms|, before, firstDeny, winning, entries)
    ensures AnyOfArms(lattice, arms).result == AnyResult(winning, firstDeny)
    ensures entries == Extended(before, AnyOfArms(lattice, arms).readLog)
  {
    assert arms[..|arms|] == arms;
    AnyEnds(lattice, arms);
  }

  lemma AnyEnds<O>(lattice: Lattice<O>, arms: seq<Arm<O>>)
    ensures AnyOfArms(lattice, arms) ==
      Arm(AnyResult(FoldPermits(lattice, ByJoin, arms), FirstDenial(arms)), ReadsOf(arms))
  {
  }

  method UnionInto(target: seq<ObligationId>, source: seq<ObligationId>) returns (union: seq<ObligationId>)
    ensures union == UnionObligations(target, source)
    ensures forall o :: o in union <==> o in target || o in source
  {
    union := target;
    for i := 0 to |source|
      invariant union == UnionObligations(target, source[..i])
      invariant forall o :: o in union <==> o in target || o in source[..i]
    {
      assert source[..i + 1][..i] == source[..i];
      if source[i] !in union {
        union := union + [source[i]];
      }
    }
    assert source[..|source|] == source;
  }
}
