/** With every required fact known, partial evaluation is evaluation, field by field. */
module PartialExactness {
  import opened Wrappers
  import opened Facts
  import opened Policies
  import opened Consulting
  import opened Conditions
  import opened Evaluation
  import opened Semantics
  import opened PartialEvaluation
  import opened PartialProofs
  import CR = ConditionReduction
  import Loops = EvaluationLoops

  // The reduced arm is the evaluated arm's own decision.
  ghost predicate Exact<O>(reduced: Residual<O>, arm: Arm<O>) {
    reduced == Resolved(DecisionFrom(arm)) && Coherent(arm.result)
  }

  ghost predicate AllExact<O>(reduced: seq<Residual<O>>, arms: seq<Arm<O>>) {
    |reduced| == |arms| && forall i | 0 <= i < |arms| :: Exact(reduced[i], arms[i])
  }

  lemma {:induction false} LogsExact<O>(reduced: seq<Residual<O>>, arms: seq<Arm<O>>)
    requires AllExact(reduced, arms)
    ensures MergedConsulted(reduced) == Extended([], ReadsOf(arms))
    ensures PendingResiduals(reduced) == []
  {
    if arms != [] {
      var n := |arms| - 1;
      LogsExact(reduced[..n], arms[..n]);
      assert Exact(reduced[n], arms[n]);
      ExtendedMerged(Extended([], ReadsOf(arms[..n])), [], arms[n].readLog);
      ExtendedAppend([], ReadsOf(arms[..n]), arms[n].readLog);
    }
  }

  lemma EvalResidualsAppend<O>(
      lattice: Lattice<O>, left: seq<ResidualPolicy<O>>, right: seq<ResidualPolicy<O>>, facts: KnownFacts)
    ensures EvalResiduals(lattice, left + right, facts) ==
      EvalResiduals(lattice, left, facts) + EvalResiduals(lattice, right, facts)
  {
  }

  // A permit counts without its reads; a denial not at all.
  function OneMore<O>(constants: seq<Arm<O>>, last: Arm<O>): seq<Arm<O>> {
    if Permits(last) then constants + [Arm(last.result, [])] else constants
  }

  // One more arm adds its own result to the evaluated constants when it is a resolved permit.
  lemma {:induction false} ConstantsSnoc<O>(
      lattice: Lattice<O>, reduced: seq<Residual<O>>, arms: seq<Arm<O>>, known: KnownFacts)
    requires AllExact(reduced, arms) && arms != []
    ensures var n := |arms| - 1;
      var earlier := EvalResiduals(lattice, ResolvedPermits(reduced[..n]), known);
      EvalResiduals(lattice, ResolvedPermits(reduced), known) ==
        OneMore(earlier, arms[n])
  {
    var n := |arms| - 1;
    assert Exact(reduced[n], arms[n]);
    if ResolvedPermit(reduced[n]) {
      RebuiltConstant(lattice, reduced[n].decision, known);
      EvalResidualsAppend(
        lattice, ResolvedPermits(reduced[..n]), [PolicyFromDecision(reduced[n].decision)], known);
    }
  }

  lemma ExactPrefix<O>(reduced: seq<Residual<O>>, arms: seq<Arm<O>>, n: nat)
    requires AllExact(reduced, arms) && n <= |arms|
    ensures AllExact(reduced[..n], arms[..n])
  {
  }

  lemma {:induction false} OneMoreFoldsAlike<O>(
      lattice: Lattice<O>, mode: Mode, reduced: seq<Residual<O>>, arms: seq<Arm<O>>, known: KnownFacts)
    requires AllExact(reduced, arms) && arms != []
    requires var n := |arms| - 1;
      FoldPermits(lattice, mode, EvalResiduals(lattice, ResolvedPermits(reduced[..n]), known)) ==
      FoldPermits(lattice, mode, arms[..n])
    ensures FoldPermits(lattice, mode, EvalResiduals(lattice, ResolvedPermits(reduced), known)) ==
      FoldPermits(lattice, mode, arms)
  {
    ConstantsSnoc(lattice, reduced, arms, known);
    FoldStep(
      lattice, mode, EvalResiduals(lattice, ResolvedPermits(reduced), known),
      EvalResiduals(lattice, ResolvedPermits(reduced[..|arms| - 1]), known), arms);
  }

  // The resolved permits fold to exactly what the evaluated arms fold to.
  lemma {:induction false} PermitsFoldAlike<O>(
      lattice: Lattice<O>, mode: Mode, reduced: seq<Residual<O>>, arms: seq<Arm<O>>, known: KnownFacts)
    requires AllExact(reduced, arms)
    ensures FoldPermits(lattice, mode, EvalResiduals(lattice, ResolvedPermits(reduced), known)) ==
      FoldPermits(lattice, mode, arms)
    decreases |arms|
  {
    if arms == [] {
      assert EvalResiduals(lattice, ResolvedPermits(reduced), known) == arms;
    } else {
      var n := |arms| - 1;
      ExactPrefix(reduced, arms, n);
      PermitsFoldAlike(lattice, mode, reduced[..n], arms[..n], known);
      OneMoreFoldsAlike(lattice, mode, reduced, arms, known);
    }
  }

  lemma {:induction false} FoldStep<O>(
      lattice: Lattice<O>, mode: Mode, constants: seq<Arm<O>>, earlier: seq<Arm<O>>, arms: seq<Arm<O>>)
    requires arms != [] && constants == OneMore(earlier, arms[|arms| - 1])
    requires FoldPermits(lattice, mode, earlier) == FoldPermits(lattice, mode, arms[..|arms| - 1])
    ensures FoldPermits(lattice, mode, constants) == FoldPermits(lattice, mode, arms)
  {
    if Permits(arms[|arms| - 1]) {
      assert constants[..|constants| - 1] == earlier;
    }
  }

  lemma FirstDenialsAlike<O>(reduced: seq<Residual<O>>, arms: seq<Arm<O>>)
    requires AllExact(reduced, arms)
    ensures FirstResolvedDenial(reduced) == FirstDeny(arms)
  {
    forall i | 0 <= i < |arms| ensures ResolvedDenial(reduced[i]) <==> arms[i].result.effect.Deny? {
      assert Exact(reduced[i], arms[i]);
    }
  }

  lemma {:induction false} NoPermitsNoFold<O>(lattice: Lattice<O>, reduced: seq<Residual<O>>, arms: seq<Arm<O>>)
    requires AllExact(reduced, arms)
    ensures ResolvedPermits(reduced) == [] <==> FoldPermits(lattice, ByJoin, arms).None?
    ensures FirstDeny(arms) == |arms| && arms != [] ==> ResolvedPermits(reduced) != []
  {
    if arms != [] {
      var n := |arms| - 1;
      NoPermitsNoFold(lattice, reduced[..n], arms[..n]);
      assert Exact(reduced[n], arms[n]);
    }
  }

  lemma {:induction false} ConstantsPermit<O>(
      lattice: Lattice<O>, reduced: seq<Residual<O>>, arms: seq<Arm<O>>, known: KnownFacts)
    requires AllExact(reduced, arms)
    ensures forall arm | arm in EvalResiduals(lattice, ResolvedPermits(reduced), known) :: Permits(arm)
  {
    if arms != [] {
      var n := |arms| - 1;
      assert AllExact(reduced[..n], arms[..n]);
      ConstantsPermit(lattice, reduced[..n], arms[..n], known);
      ConstantsSnoc(lattice, reduced, arms, known);
    }
  }

  // With only permits among the arms, evaluating their constants gives what evaluating the arms gave.
  lemma {:induction false} AllConstantsExact<O>(
      lattice: Lattice<O>, reduced: seq<Residual<O>>, arms: seq<Arm<O>>, known: KnownFacts)
    requires AllExact(reduced, arms) && arms != [] && FirstDeny(arms) == |arms|
    ensures EvalResidual(lattice, ResidualPolicy.All(ResolvedPermits(reduced)), known).result ==
      AllOfArms(lattice, arms).result
    ensures AllOfArms(lattice, arms).readLog == ReadsOf(arms)
  {
    var constants := EvalResiduals(lattice, ResolvedPermits(reduced), known);
    PermitsFoldAlike(lattice, ByMeet, reduced, arms, known);
    ConstantsPermit(lattice, reduced, arms, known);
    SameFoldSameAll(lattice, constants, arms);
    assert EvalResidual(lattice, ResidualPolicy.All(ResolvedPermits(reduced)), known) == AllOfArms(lattice, constants);
  }

  lemma {:induction false} SameFoldSameAll<O>(lattice: Lattice<O>, constants: seq<Arm<O>>, arms: seq<Arm<O>>)
    requires FoldPermits(lattice, ByMeet, constants) == FoldPermits(lattice, ByMeet, arms)
    requires FirstDeny(arms) == |arms| && forall arm | arm in constants :: Permits(arm)
    ensures AllOfArms(lattice, constants).result == AllOfArms(lattice, arms).result
    ensures arms != [] ==> AllOfArms(lattice, arms).readLog == ReadsOf(arms)
  {
    assert Loops.NoDeny(constants) by {
      assert forall i | 0 <= i < |constants| :: constants[i] in constants;
    }
    assert Loops.NoDeny(arms);
    Loops.AllPermits(lattice, constants);
    Loops.AllPermits(lattice, arms);
  }

  lemma AllReducesExactly<O>(
      lattice: Lattice<O>, reduced: seq<Residual<O>>, arms: seq<Arm<O>>, partial: PartialFacts)
    requires AllExact(reduced, arms)
    ensures Exact(ReduceAll(lattice, reduced, partial), AllOfArms(lattice, arms))
  {
    var k := FirstDeny(arms);
    FirstDenialsAlike(reduced, arms);
    if k < |arms| {
      assert AllExact(reduced[..k + 1], arms[..k + 1]);
      LogsExact(reduced[..k + 1], arms[..k + 1]);
      assert Exact(reduced[k], arms[k]);
    } else if arms != [] {
      LogsExact(reduced, arms);
      AllConstantsExact(lattice, reduced, arms, PartialToKnown(partial));
      AllArmsCoherent(lattice, reduced, arms);
    }
  }

  lemma AllArmsCoherent<O>(lattice: Lattice<O>, reduced: seq<Residual<O>>, arms: seq<Arm<O>>)
    requires AllExact(reduced, arms)
    ensures Coherent(AllOfArms(lattice, arms).result) && Coherent(AnyOfArms(lattice, arms).result)
  {
    forall i | 0 <= i < |arms| ensures Coherent(arms[i].result) {
      assert Exact(reduced[i], arms[i]);
    }
    FoldCoherent(lattice, ByMeet, arms);
    FoldCoherent(lattice, ByJoin, arms);
  }

  lemma AnyConstantsExact<O>(
      lattice: Lattice<O>, reduced: seq<Residual<O>>, arms: seq<Arm<O>>, known: KnownFacts)
    requires AllExact(reduced, arms) && ResolvedPermits(reduced) != []
    ensures EvalResidual(lattice, ResidualPolicy.Any(ResolvedPermits(reduced)), known).result ==
      AnyOfArms(lattice, arms).result
  {
    var constants := EvalResiduals(lattice, ResolvedPermits(reduced), known);
    PermitsFoldAlike(lattice, ByJoin, reduced, arms, known);
    NoPermitsNoFold(lattice, reduced, arms);
    assert EvalResidual(lattice, ResidualPolicy.Any(ResolvedPermits(reduced)), known) ==
      AnyOfArms(lattice, constants);
  }

  // Without a permit, the first denial is the result on both sides.
  lemma AnyDenialExact<O>(lattice: Lattice<O>, reduced: seq<Residual<O>>, arms: seq<Arm<O>>)
    requires AllExact(reduced, arms) && arms != [] && ResolvedPermits(reduced) == []
    ensures var k := FirstResolvedDenial(reduced);
      k < |reduced| && reduced[k].Resolved? &&
      AnyOfArms(lattice, arms).result ==
        EvalResult(reduced[k].decision.effect, reduced[k].decision.obligations, reduced[k].decision.decisive)
  {
    FirstDenialsAlike(reduced, arms);
    NoPermitsNoFold(lattice, reduced, arms);
    var k := FirstDeny(arms);
    assert Exact(reduced[k], arms[k]);
  }

  lemma AnyReducesExactly<O>(
      lattice: Lattice<O>, reduced: seq<Residual<O>>, arms: seq<Arm<O>>, partial: PartialFacts)
    requires AllExact(reduced, arms)
    ensures Exact(ReduceAny(lattice, reduced, partial), AnyOfArms(lattice, arms))
  {
    LogsExact(reduced, arms);
    AllArmsCoherent(lattice, reduced, arms);
    assert AnyOfArms(lattice, arms).readLog == ReadsOf(arms);
    if arms != [] {
      if ResolvedPermits(reduced) == [] {
        AnyDenialExact(lattice, reduced, arms);
      } else {
        AnyConstantsExact(lattice, reduced, arms, PartialToKnown(partial));
      }
    }
  }

  lemma OrElseReducesExactly<O>(first: Residual<O>, second: Residual<O>, primary: Arm<O>, fallback: Arm<O>)
    requires Exact(first, primary) && Exact(second, fallback)
    ensures Exact(ReduceOrElse(first, second), OrElseArms(primary, fallback))
  {
    ExtendedMerged(Extended([], primary.readLog), [], fallback.readLog);
    ExtendedAppend([], primary.readLog, fallback.readLog);
  }

  lemma {:induction false} GrantReducesExactly<O>(
      lattice: Lattice<O>, clause: Clause<O>, partial: PartialFacts, facts: KnownFacts)
    requires Completes(facts, partial)
    requires forall f | f in ConditionFacts(clause.condition) :: PresenceOf(partial, f) != Unknown
    ensures Exact(ReduceGrant(lattice, clause, partial), EvalGrant(clause, facts))
  {
    var known, reading := PartialToKnown(partial), EvalCondition(clause.condition, facts);
    CR.ReductionExact(clause.condition, partial, facts);
    KnownPartAgrees(ConditionFacts(clause.condition), partial, facts);
    ReadingLocal(clause.condition, known, facts);
    assert EvalGrant(clause, known) == EvalGrant(clause, facts);
    assert ReduceGrant(lattice, clause, partial) ==
      Resolved(WithConsulted(DecisionFrom(EvalGrant(clause, known)), Extended([], reading.readLog)));
  }

  lemma KnownPartAgrees(scope: set<FactId>, partial: PartialFacts, facts: KnownFacts)
    requires Completes(facts, partial)
    requires forall f | f in scope :: PresenceOf(partial, f) != Unknown
    ensures AgreeOn(scope, PartialToKnown(partial), facts)
  {
  }

  lemma {:induction false} ReducesExactly<O>(
      lattice: Lattice<O>, policy: Policy<O>, partial: PartialFacts, facts: KnownFacts)
    requires Completes(facts, partial)
    requires forall f | f in PolicyFacts(policy) :: PresenceOf(partial, f) != Unknown
    ensures Exact(PartialEvaluate(lattice, policy, partial), EvalPolicy(lattice, policy, facts))
    decreases policy, 1
  {
    match policy
    case Grant(clause) => GrantReducesExactly(lattice, clause, partial, facts);
    case All(ps) =>
      var reduced, arms := PartialEvaluateArms(lattice, ps, partial), EvalPolicies(lattice, ps, facts);
      ArmsReduceExactly(lattice, policy, ps, partial, facts);
      AllReducesExactly(lattice, reduced, arms, partial);
      assert PartialEvaluate(lattice, policy, partial) == ReduceAll(lattice, reduced, partial);
    case Any(ps) =>
      var reduced, arms := PartialEvaluateArms(lattice, ps, partial), EvalPolicies(lattice, ps, facts);
      ArmsReduceExactly(lattice, policy, ps, partial, facts);
      AnyReducesExactly(lattice, reduced, arms, partial);
      assert PartialEvaluate(lattice, policy, partial) == ReduceAny(lattice, reduced, partial);
    case OrElse(primary, fallback) =>
      ReducesExactly(lattice, primary, partial, facts);
      ReducesExactly(lattice, fallback, partial, facts);
      OrElseReducesExactly(
        PartialEvaluate(lattice, primary, partial), PartialEvaluate(lattice, fallback, partial),
        EvalPolicy(lattice, primary, facts), EvalPolicy(lattice, fallback, facts));
    case _ =>
  }

  lemma {:induction false} ArmsReduceExactly<O>(
      lattice: Lattice<O>, parent: Policy<O>, ps: seq<Policy<O>>, partial: PartialFacts, facts: KnownFacts)
    requires parent == Policy.All(ps) || parent == Policy.Any(ps)
    requires Completes(facts, partial)
    requires forall f | f in PolicyFacts(parent) :: PresenceOf(partial, f) != Unknown
    ensures AllExact(PartialEvaluateArms(lattice, ps, partial), EvalPolicies(lattice, ps, facts))
    decreases ps, 0
  {
    forall i | 0 <= i < |ps|
      ensures Exact(PartialEvaluateArms(lattice, ps, partial)[i], EvalPolicies(lattice, ps, facts)[i])
    {
      assert PolicyFacts(ps[i]) <= PolicyFacts(parent);
      ReducesExactly(lattice, ps[i], partial, facts);
    }
  }

  // Nothing required is unknown: the partial result is resolved and equals direct evaluation in
  // effect, obligations and their order, consulted facts in first-read order, and decisive clause.
  lemma ExactWhenNothingIsUnknown<O>(
      lattice: Lattice<O>, policy: Policy<O>, partial: PartialFacts, facts: KnownFacts)
    requires Completes(facts, partial)
    requires forall f | f in PolicyFacts(policy) :: PresenceOf(partial, f) != Unknown
    ensures PartialEvaluate(lattice, policy, partial) == Resolved(Evaluate(lattice, policy, facts))
  {
    ReducesExactly(lattice, policy, partial, facts);
  }
}
