/** Obligations across partial evaluation. */
module PartialObligations {
  import opened Wrappers
  import opened Facts
  import opened Policies
  import opened Conditions
  import opened Evaluation
  import opened Semantics
  import opened Outcomes
  import opened PartialEvaluation
  import opened PartialProofs
  import opened PartialPermission
  import CR = ConditionReduction

  // ----- trees without obligations never yield one -----

  ghost predicate Unobliged<O>(arms: seq<Arm<O>>) {
    forall i | 0 <= i < |arms| :: arms[i].result.obligations == []
  }

  lemma {:induction false} FoldUnobliged<O>(lattice: Lattice<O>, mode: Mode, arms: seq<Arm<O>>)
    requires Unobliged(arms)
    ensures var permit := FoldPermits(lattice, mode, arms); permit.Some? ==> permit.value.obligations == []
  {
    if arms != [] {
      FoldUnobliged(lattice, mode, arms[..|arms| - 1]);
    }
  }

  lemma {:induction false} ResidualUnobliged<O>(
      lattice: Lattice<O>, policy: ResidualPolicy<O>, facts: KnownFacts)
    requires !CarriesObligation(policy)
    ensures EvalResidual(lattice, policy, facts).result.obligations == []
  {
    match policy
    case All(ps) =>
      forall i | 0 <= i < |ps| { ResidualUnobliged(lattice, ps[i], facts); }
      FoldUnobliged(lattice, ByMeet, EvalResiduals(lattice, ps, facts));
    case Any(ps) =>
      forall i | 0 <= i < |ps| { ResidualUnobliged(lattice, ps[i], facts); }
      FoldUnobliged(lattice, ByJoin, EvalResiduals(lattice, ps, facts));
    case OrElse(primary, fallback) =>
      ResidualUnobliged(lattice, primary, facts);
      ResidualUnobliged(lattice, fallback, facts);
    case _ =>
  }

  lemma {:induction false} PolicyUnobliged<O>(lattice: Lattice<O>, policy: Policy<O>, facts: KnownFacts)
    requires !PolicyCarriesObligation(policy)
    ensures EvalPolicy(lattice, policy, facts).result.obligations == []
  {
    match policy
    case All(ps) =>
      forall i | 0 <= i < |ps| { PolicyUnobliged(lattice, ps[i], facts); }
      FoldUnobliged(lattice, ByMeet, EvalPolicies(lattice, ps, facts));
    case Any(ps) =>
      forall i | 0 <= i < |ps| { PolicyUnobliged(lattice, ps[i], facts); }
      FoldUnobliged(lattice, ByJoin, EvalPolicies(lattice, ps, facts));
    case OrElse(primary, fallback) =>
      PolicyUnobliged(lattice, primary, facts);
      PolicyUnobliged(lattice, fallback, facts);
    case _ =>
  }

  // ----- reduction introduces no obligations -----

  ghost predicate CarriesNone<O>(residual: Residual<O>) {
    if residual.Resolved? then residual.decision.obligations == [] else !CarriesObligation(residual.residual)
  }

  lemma {:induction false} PermitOrigins<O>(arms: seq<Residual<O>>)
    ensures forall p | p in ResolvedPermits(arms) ::
      exists arm :: arm in arms && ResolvedPermit(arm) && p == PolicyFromDecision(arm.decision)
    ensures forall arm | arm in arms && ResolvedPermit(arm) :: PolicyFromDecision(arm.decision) in ResolvedPermits(arms)
  {
    if arms != [] {
      var n := |arms| - 1;
      PermitOrigins(arms[..n]);
      assert arms == arms[..n] + [arms[n]];
      forall p | p in ResolvedPermits(arms)
        ensures exists arm :: arm in arms && ResolvedPermit(arm) && p == PolicyFromDecision(arm.decision)
      {
        if p in ResolvedPermits(arms[..n]) {
          var arm :| arm in arms[..n] && ResolvedPermit(arm) && p == PolicyFromDecision(arm.decision);
          assert arm in arms;
        } else {
          assert arms[n] in arms;
        }
      }
    }
  }

  lemma ConstantsCarryNone<O>(arms: seq<Residual<O>>)
    requires forall arm | arm in arms :: CarriesNone(arm)
    ensures forall p | p in ResolvedPermits(arms) + PendingResiduals(arms) :: !CarriesObligation(p)
  {
    PermitOrigins(arms);
    forall p | p in PendingResiduals(arms) ensures !CarriesObligation(p) {
      var i := PendingArmOf(arms, p);
      assert CarriesNone(arms[i]);
    }
  }

  lemma {:induction false} ReductionAddsNone<O>(lattice: Lattice<O>, policy: Policy<O>, partial: PartialFacts)
    requires !PolicyCarriesObligation(policy)
    ensures CarriesNone(PartialEvaluate(lattice, policy, partial))
    decreases policy, 1
  {
    match policy
    case All(ps) =>
      ArmsAddNone(lattice, ps, partial);
      SetsAddNone(lattice, PartialEvaluateArms(lattice, ps, partial), partial);
    case Any(ps) =>
      ArmsAddNone(lattice, ps, partial);
      SetsAddNone(lattice, PartialEvaluateArms(lattice, ps, partial), partial);
    case OrElse(primary, fallback) =>
      ReductionAddsNone(lattice, primary, partial);
      ReductionAddsNone(lattice, fallback, partial);
    case Grant(clause) => PolicyUnobliged(lattice, policy, PartialToKnown(partial));
    case _ =>
  }

  lemma {:induction false} ArmsAddNone<O>(lattice: Lattice<O>, ps: seq<Policy<O>>, partial: PartialFacts)
    requires forall i | 0 <= i < |ps| :: !PolicyCarriesObligation(ps[i])
    ensures forall arm | arm in PartialEvaluateArms(lattice, ps, partial) :: CarriesNone(arm)
    decreases ps, 0
  {
    forall i | 0 <= i < |ps| ensures CarriesNone(PartialEvaluateArms(lattice, ps, partial)[i]) {
      ReductionAddsNone(lattice, ps[i], partial);
    }
  }

  lemma SetsAddNone<O>(lattice: Lattice<O>, arms: seq<Residual<O>>, partial: PartialFacts)
    requires forall arm | arm in arms :: CarriesNone(arm)
    ensures CarriesNone(ReduceAll(lattice, arms, partial))
    ensures CarriesNone(ReduceAny(lattice, arms, partial))
  {
    ConstantsCarryNone(arms);
    ConstantSetsUnobliged(lattice, ResolvedPermits(arms), PartialToKnown(partial));
    FirstDenialCarriesNone(arms);
    AllAddsNone(lattice, arms, partial);
    AnyAddsNone(lattice, arms, partial);
  }

  lemma FirstDenialCarriesNone<O>(arms: seq<Residual<O>>)
    requires forall arm | arm in arms :: CarriesNone(arm)
    ensures var k := FirstResolvedDenial(arms);
      k < |arms| ==> arms[k].decision.obligations == [] && !CarriesObligation(PolicyFromDecision(arms[k].decision))
  {
    var k := FirstResolvedDenial(arms);
    if k < |arms| {
      assert CarriesNone(arms[k]);
    }
  }

  lemma SetCarriesNone<O>(policies: seq<ResidualPolicy<O>>)
    requires forall p | p in policies :: !CarriesObligation(p)
    ensures !CarriesObligation(ResidualPolicy.All(policies)) && !CarriesObligation(ResidualPolicy.Any(policies))
  {
  }

  lemma AllAddsNone<O>(lattice: Lattice<O>, arms: seq<Residual<O>>, partial: PartialFacts)
    requires forall p | p in ResolvedPermits(arms) + PendingResiduals(arms) :: !CarriesObligation(p)
    requires var known := PartialToKnown(partial);
      EvaluateResidual(lattice, ResidualPolicy.All(ResolvedPermits(arms)), known).obligations == []
    requires var k := FirstResolvedDenial(arms); k < |arms| ==> arms[k].decision.obligations == []
    ensures CarriesNone(ReduceAll(lattice, arms, partial))
  {
    SetCarriesNone(ResolvedPermits(arms) + PendingResiduals(arms));
  }

  lemma AnyAddsNone<O>(lattice: Lattice<O>, arms: seq<Residual<O>>, partial: PartialFacts)
    requires forall p | p in ResolvedPermits(arms) + PendingResiduals(arms) :: !CarriesObligation(p)
    requires var known := PartialToKnown(partial);
      EvaluateResidual(lattice, ResidualPolicy.Any(ResolvedPermits(arms)), known).obligations == []
    requires var k := FirstResolvedDenial(arms);
      k < |arms| ==> arms[k].decision.obligations == [] && !CarriesObligation(PolicyFromDecision(arms[k].decision))
    ensures CarriesNone(ReduceAny(lattice, arms, partial))
  {
    var k, permits, pending := FirstResolvedDenial(arms), ResolvedPermits(arms), PendingResiduals(arms);
    if arms != [] && pending != [] {
      if permits == [] && k < |arms| {
        SetCarriesNone([PolicyFromDecision(arms[k].decision)] + pending);
      } else {
        SetCarriesNone(permits + pending);
      }
    }
  }

  lemma ConstantSetsUnobliged<O>(lattice: Lattice<O>, policies: seq<ResidualPolicy<O>>, facts: KnownFacts)
    requires forall p | p in policies :: !CarriesObligation(p)
    ensures EvaluateResidual(lattice, ResidualPolicy.All(policies), facts).obligations == []
    ensures EvaluateResidual(lattice, ResidualPolicy.Any(policies), facts).obligations == []
  {
    ResidualUnobliged(lattice, ResidualPolicy.All(policies), facts);
    ResidualUnobliged(lattice, ResidualPolicy.Any(policies), facts);
  }

  // ----- the winning grade's obligations -----

  ghost predicate Contributes<O>(result: EvalResult<O>, winning: O, obligation: ObligationId) {
    result.effect == Effect.Permit(winning) && obligation in result.obligations
  }

  lemma UnionMembers(target: seq<ObligationId>, source: seq<ObligationId>, obligation: ObligationId)
    ensures obligation in UnionObligations(target, source) <==> obligation in target || obligation in source
  {
    if source != [] {
      UnionMembers(target, source[..|source| - 1], obligation);
      assert source == source[..|source| - 1] + [source[|source| - 1]];
    }
  }

  // Over a chain an `any` permit carries exactly the obligations of the arms at the winning outcome.
  lemma {:induction false} WinningObligations<O(!new)>(
      lattice: Lattice<O>, arms: seq<Arm<O>>, obligation: ObligationId)
    requires LatticeLaws(lattice) && Chain(lattice)
    ensures var permit := FoldPermits(lattice, ByJoin, arms);
      permit.Some? ==>
        (obligation in permit.value.obligations <==>
         exists i | 0 <= i < |arms| :: Contributes(arms[i].result, permit.value.outcome, obligation))
  {
    if arms != [] {
      var n := |arms| - 1;
      WinningObligations(lattice, arms[..n], obligation);
      assert arms == arms[..n] + [arms[n]];
      var before := FoldPermits(lattice, ByJoin, arms[..n]);
      if before.None? {
        FoldSomeIff(lattice, ByJoin, arms[..n]);
        forall i | 0 <= i < n ensures !Permits(arms[i]) {
          assert arms[..n][i] == arms[i];
        }
      } else if Permits(arms[n]) {
        WinningStep(lattice, arms[..n], arms[n], obligation);
      }
    }
  }

  lemma WinningStep<O(!new)>(lattice: Lattice<O>, arms: seq<Arm<O>>, last: Arm<O>, obligation: ObligationId)
    requires LatticeLaws(lattice) && Chain(lattice)
    requires FoldPermits(lattice, ByJoin, arms).Some? && Permits(last)
    requires var current := FoldPermits(lattice, ByJoin, arms).value;
      obligation in current.obligations <==>
      exists i | 0 <= i < |arms| :: Contributes(arms[i].result, current.outcome, obligation)
    ensures var both, joined := arms + [last],
        Join(lattice, FoldPermits(lattice, ByJoin, arms).value, PermitOf(last.result));
      obligation in joined.obligations <==>
      exists i | 0 <= i < |both| :: Contributes(both[i].result, joined.outcome, obligation)
  {
    var both, current, incoming := arms + [last], FoldPermits(lattice, ByJoin, arms).value, PermitOf(last.result);
    var joined := Join(lattice, current, incoming);
    assert Comparable(lattice, current.outcome, incoming.outcome);
    UnionMembers(current.obligations, incoming.obligations, obligation);
    assert both[|arms|] == last;
    if joined.outcome == current.outcome {
      if i :| 0 <= i < |arms| && Contributes(arms[i].result, current.outcome, obligation) {
        assert Contributes(both[i].result, joined.outcome, obligation);
      }
    } else {
      forall i | 0 <= i < |arms| ensures !Contributes(arms[i].result, joined.outcome, obligation) {
        if arms[i].result.effect == Effect.Permit(incoming.outcome) {
          BelowReflexive(lattice, current.outcome);
          AnyIsLeastUpperBound(lattice, arms, current.outcome);
          BelowByJoin(lattice, current.outcome, incoming.outcome);
          BelowAntisymmetric(lattice, current.outcome, incoming.outcome);
        }
      }
    }
  }

  // ----- two permits, comparable or not -----

  lemma {:induction false} UnionExtends(target: seq<ObligationId>, source: seq<ObligationId>)
    ensures target <= UnionObligations(target, source)
  {
    if source != [] {
      UnionExtends(target, source[..|source| - 1]);
    }
  }

  lemma TwoPermitFold<O>(lattice: Lattice<O>, mode: Mode, first: Arm<O>, second: Arm<O>)
    requires Permits(first) && Permits(second)
    ensures FirstDeny([first, second]) == 2
    ensures FoldPermits(lattice, mode, [first, second]) ==
      Some(Combine(lattice, mode, PermitOf(first.result), PermitOf(second.result)))
  {
    var arms := [first, second];
    assert arms[..1] == [first] && [first][..0] == [];
    assert FoldPermits(lattice, mode, [first][..0]) == None;
    assert FoldPermits(lattice, mode, [first]) == Some(PermitOf(first.result));
    assert Permits(arms[0]) && Permits(arms[1]);
  }

  // Two permits under an `any`: an arm's obligations stay unless the other arm alone has the joined
  // outcome. If neither has it both arms' stay, the first arm's in front, and no clause is cited.
  lemma TwoPermitsUnderAny<O>(lattice: Lattice<O>, first: Arm<O>, second: Arm<O>)
    requires Permits(first) && Permits(second)
    ensures
      var a, b, result := first.result, second.result, AnyOfArms(lattice, [first, second]).result;
      var joined := lattice.join(a.effect.outcome, b.effect.outcome);
      var isFirst, isSecond := joined == a.effect.outcome, joined == b.effect.outcome;
      && result.effect == Effect.Permit(joined)
      && (forall o :: o in result.obligations <==>
            (o in a.obligations && (isFirst || !isSecond)) || (o in b.obligations && (isSecond || !isFirst)))
      && (isFirst ==> result.decisive == a.decisive && a.obligations <= result.obligations)
      && (isSecond && !isFirst ==> result.decisive == b.decisive)
      && (!isFirst && !isSecond ==>
            && result.decisive == DecisiveClause.Permit(joined, [], None)
            && a.obligations <= result.obligations)
  {
    TwoPermitFold(lattice, ByJoin, first, second);
    UnionExtends(first.result.obligations, second.result.obligations);
    forall o {
      UnionMembers(first.result.obligations, second.result.obligations, o);
    }
  }

  // Two permits under an `all`: the first arm with the met outcome speaks; if neither has it, nothing
  // is owed and no clause is cited.
  lemma TwoPermitsUnderAll<O>(lattice: Lattice<O>, first: Arm<O>, second: Arm<O>)
    requires Permits(first) && Permits(second)
    ensures
      var a, b, result := first.result, second.result, AllOfArms(lattice, [first, second]).result;
      var met := lattice.meet(a.effect.outcome, b.effect.outcome);
      && result.effect == Effect.Permit(met)
      && (met == a.effect.outcome ==> result.obligations == a.obligations && result.decisive == a.decisive)
      && (met == b.effect.outcome != a.effect.outcome ==>
            result.obligations == b.obligations && result.decisive == b.decisive)
      && (met != a.effect.outcome && met != b.effect.outcome ==>
            result.obligations == [] && result.decisive == DecisiveClause.Permit(met, [], None))
  {
    TwoPermitFold(lattice, ByMeet, first, second);
  }

  // ----- preservation -----

  predicate NoObligationUnderAll<O>(policy: Policy<O>) {
    match policy
    case All(arms) => forall i | 0 <= i < |arms| :: !PolicyCarriesObligation(arms[i])
    case Any(arms) => forall i | 0 <= i < |arms| :: NoObligationUnderAll(arms[i])
    case OrElse(primary, fallback) => NoObligationUnderAll(primary) && NoObligationUnderAll(fallback)
    case _ => true
  }

  ghost predicate SameObligations<O>(left: EvalResult<O>, right: EvalResult<O>) {
    && left.effect == right.effect
    && forall o :: o in left.obligations <==> o in right.obligations
  }

  lemma {:induction false} ResidualCoherent<O>(lattice: Lattice<O>, policy: ResidualPolicy<O>, facts: KnownFacts)
    ensures Coherent(EvalResidual(lattice, policy, facts).result)
  {
    match policy
    case All(ps) =>
      forall i | 0 <= i < |ps| { ResidualCoherent(lattice, ps[i], facts); }
      FoldCoherent(lattice, ByMeet, EvalResiduals(lattice, ps, facts));
    case Any(ps) =>
      forall i | 0 <= i < |ps| { ResidualCoherent(lattice, ps[i], facts); }
      FoldCoherent(lattice, ByJoin, EvalResiduals(lattice, ps, facts));
    case OrElse(primary, fallback) =>
      ResidualCoherent(lattice, primary, facts);
      ResidualCoherent(lattice, fallback, facts);
    case _ =>
  }

  lemma CompletedCoherent<O>(lattice: Lattice<O>, residual: Residual<O>, facts: KnownFacts)
    requires ResolvedCoherent(residual)
    ensures Coherent(Completed(lattice, residual, facts))
  {
    if residual.Pending? {
      ResidualCoherent(lattice, residual.residual, facts);
    }
  }

  // Some residual arm contributes exactly when some original arm does, once completed.
  ghost predicate ArmContributes<O>(
      lattice: Lattice<O>, arms: seq<Residual<O>>, facts: KnownFacts, winning: O, obligation: ObligationId)
  {
    exists arm :: arm in arms && Contributes(Completed(lattice, arm, facts), winning, obligation)
  }

  ghost predicate PolicyContributes<O>(
      lattice: Lattice<O>, policies: seq<ResidualPolicy<O>>, facts: KnownFacts, winning: O, obligation: ObligationId)
  {
    exists p :: p in policies && Contributes(EvalResidual(lattice, p, facts).result, winning, obligation)
  }

  lemma ContributionsMatch<O>(
      lattice: Lattice<O>, arms: seq<Residual<O>>, facts: KnownFacts, known: KnownFacts,
      winning: O, obligation: ObligationId)
    requires forall arm | arm in arms :: ResolvedCoherent(arm)
    ensures ArmContributes(lattice, arms, facts, winning, obligation) <==>
      || PolicyContributes(lattice, ResolvedPermits(arms), known, winning, obligation)
      || PolicyContributes(lattice, PendingResiduals(arms), facts, winning, obligation)
  {
    PermitOrigins(arms);
    PendingMembers(arms);
    forall arm | arm in arms && ResolvedPermit(arm)
      ensures EvalResidual(lattice, PolicyFromDecision(arm.decision), known).result == Completed(lattice, arm, facts)
    {
      RebuiltConstant(lattice, arm.decision, known);
    }
    if arm :| arm in arms && Contributes(Completed(lattice, arm, facts), winning, obligation) {
      if arm.Pending? {
        assert arm.residual in PendingResiduals(arms);
      } else {
        assert PolicyFromDecision(arm.decision) in ResolvedPermits(arms);
      }
    }
    if p :| p in PendingResiduals(arms) && Contributes(EvalResidual(lattice, p, facts).result, winning, obligation) {
      var i := PendingArmOf(arms, p);
      assert arms[i] in arms && Contributes(Completed(lattice, arms[i], facts), winning, obligation);
    }
  }

  // What a residual `any` carries once it permits.
  lemma ResidualAnyObligations<O(!new)>(
      lattice: Lattice<O>, policies: seq<ResidualPolicy<O>>, facts: KnownFacts, obligation: ObligationId)
    requires LatticeLaws(lattice) && Chain(lattice)
    ensures var result := EvalResidual(lattice, ResidualPolicy.Any(policies), facts).result;
      result.effect.Permit? ==>
        (obligation in result.obligations <==>
         PolicyContributes(lattice, policies, facts, result.effect.outcome, obligation))
  {
    var arms := EvalResiduals(lattice, policies, facts);
    WinningObligations(lattice, arms, obligation);
    var permit := FoldPermits(lattice, ByJoin, arms);
    if permit.Some? {
      if i :| 0 <= i < |arms| && Contributes(arms[i].result, permit.value.outcome, obligation) {
        assert policies[i] in policies;
      }
      var top := permit.value.outcome;
      if p :| p in policies && Contributes(EvalResidual(lattice, p, facts).result, top, obligation) {
        var i :| 0 <= i < |policies| && policies[i] == p;
        assert Contributes(arms[i].result, permit.value.outcome, obligation);
      }
    }
  }

  lemma ReducedAnyObligations<O(!new)>(
      lattice: Lattice<O>, arms: seq<Residual<O>>, partial: PartialFacts, facts: KnownFacts,
      obligation: ObligationId)
    requires LatticeLaws(lattice) && Chain(lattice)
    requires forall arm | arm in arms :: ResolvedCoherent(arm)
    ensures var result := Completed(lattice, ReduceAny(lattice, arms, partial), facts);
      result.effect.Permit? ==>
        (obligation in result.obligations <==>
         ArmContributes(lattice, arms, facts, result.effect.outcome, obligation))
  {
    var result := Completed(lattice, ReduceAny(lattice, arms, partial), facts);
    if result.effect.Permit? {
      var k := FirstResolvedDenial(arms);
      var permits, pending := ResolvedPermits(arms), PendingResiduals(arms);
      var known, top := PartialToKnown(partial), result.effect.outcome;
      if pending == [] {
        ContributionsMatch(lattice, arms, facts, known, top, obligation);
        ResidualAnyObligations(lattice, permits, known, obligation);
      } else {
        ContributionsMatch(lattice, arms, facts, facts, top, obligation);
        if permits == [] && k < |arms| {
          assert arms[k] in arms;
          var constant := PolicyFromDecision(arms[k].decision);
          RebuiltConstant(lattice, arms[k].decision, facts);
          ResidualAnyObligations(lattice, [constant] + pending, facts, obligation);
          assert !Contributes(EvalResidual(lattice, constant, facts).result, top, obligation);
        } else {
          ResidualAnyObligations(lattice, permits + pending, facts, obligation);
        }
      }
    }
  }

  lemma AnyKeepsObligations<O(!new)>(
      lattice: Lattice<O>, reduced: seq<Residual<O>>, arms: seq<Arm<O>>, partial: PartialFacts, facts: KnownFacts)
    requires LatticeLaws(lattice) && Chain(lattice)
    requires |reduced| == |arms|
    requires forall arm | arm in reduced :: ResolvedCoherent(arm)
    requires forall i | 0 <= i < |arms| :: SameObligations(Completed(lattice, reduced[i], facts), arms[i].result)
    requires Completed(lattice, ReduceAny(lattice, reduced, partial), facts).effect ==
      AnyOfArms(lattice, arms).result.effect
    requires Coherent(Completed(lattice, ReduceAny(lattice, reduced, partial), facts))
    ensures SameObligations(
      Completed(lattice, ReduceAny(lattice, reduced, partial), facts), AnyOfArms(lattice, arms).result)
  {
    var left, right := Completed(lattice, ReduceAny(lattice, reduced, partial), facts), AnyOfArms(lattice, arms).result;
    if left.effect.Permit? {
      forall o ensures o in left.obligations <==> o in right.obligations {
        ReducedAnyObligations(lattice, reduced, partial, facts, o);
        WinningObligations(lattice, arms, o);
        var top := left.effect.outcome;
        if arm :| arm in reduced && Contributes(Completed(lattice, arm, facts), top, o) {
          var i :| 0 <= i < |reduced| && reduced[i] == arm;
          assert Contributes(arms[i].result, top, o);
        }
        if i :| 0 <= i < |arms| && Contributes(arms[i].result, top, o) {
          assert reduced[i] in reduced && Contributes(Completed(lattice, reduced[i], facts), top, o);
        }
      }
    }
  }

  lemma GrantKeepsObligations<O>(lattice: Lattice<O>, clause: Clause<O>, partial: PartialFacts, facts: KnownFacts)
    requires Completes(facts, partial)
    ensures SameObligations(
      Completed(lattice, ReduceGrant(lattice, clause, partial), facts), EvalGrant(clause, facts).result)
  {
    GrantPreserved(lattice, clause, partial, facts);
  }

  lemma OrElseKeepsObligations<O>(
      lattice: Lattice<O>, first: Residual<O>, second: Residual<O>,
      primary: Arm<O>, fallback: Arm<O>, facts: KnownFacts)
    requires ResolvedCoherent(second)
    requires SameObligations(Completed(lattice, first, facts), primary.result)
    requires SameObligations(Completed(lattice, second, facts), fallback.result)
    ensures SameObligations(
      Completed(lattice, ReduceOrElse(first, second), facts), OrElseArms(primary, fallback).result)
  {
    if second.Resolved? {
      RebuiltConstant(lattice, second.decision, facts);
    }
  }
}
