/** Ties under an `all`: which arm's obligations a meet keeps, and when reduction keeps them. */
module ObligationTies {
  import opened Wrappers
  import opened Facts
  import opened Policies
  import opened Conditions
  import opened Evaluation
  import opened Semantics
  import opened Outcomes
  import opened PartialEvaluation
  import opened PartialProofs
  import opened PartialObligations
  import CR = ConditionReduction

  // ----- a meet keeps the first lowest arm -----

  // The first arm that permits with this outcome.
  function FirstAt<O(==)>(arms: seq<Arm<O>>, outcome: O): Option<EvalResult<O>> {
    if arms == [] then None
    else
      var earlier, last := FirstAt(arms[..|arms| - 1], outcome), arms[|arms| - 1].result;
      if earlier.Some? then earlier
      else if last.effect == Effect.Permit(outcome) then Some(last) else None
  }

  lemma {:induction false} FirstAtIndex<O>(arms: seq<Arm<O>>, outcome: O) returns (k: nat)
    requires FirstAt(arms, outcome).Some?
    ensures k < |arms| && FirstAt(arms, outcome) == Some(arms[k].result)
    ensures arms[k].result.effect == Effect.Permit(outcome)
    ensures forall i | 0 <= i < k :: arms[i].result.effect != Effect.Permit(outcome)
  {
    var n := |arms| - 1;
    if FirstAt(arms[..n], outcome).Some? {
      k := FirstAtIndex(arms[..n], outcome);
      assert forall i | 0 <= i < n :: arms[..n][i] == arms[i];
    } else {
      k := n;
      forall i | 0 <= i < n ensures arms[i].result.effect != Effect.Permit(outcome) {
        NoneBefore(arms[..n], outcome);
        assert arms[..n][i] == arms[i];
      }
    }
  }

  lemma {:induction false} NoneBefore<O>(arms: seq<Arm<O>>, outcome: O)
    requires FirstAt(arms, outcome).None?
    ensures forall i | 0 <= i < |arms| :: arms[i].result.effect != Effect.Permit(outcome)
  {
    if arms != [] {
      var n := |arms| - 1;
      NoneBefore(arms[..n], outcome);
      assert arms == arms[..n] + [arms[n]];
    }
  }

  lemma {:induction false} FirstAtAppend<O>(left: seq<Arm<O>>, right: seq<Arm<O>>, outcome: O)
    ensures FirstAt(left + right, outcome) ==
      if FirstAt(left, outcome).Some? then FirstAt(left, outcome) else FirstAt(right, outcome)
  {
    if right == [] {
      assert left + right == left;
    } else {
      var most := right[..|right| - 1];
      FirstAtAppend(left, most, outcome);
      assert (left + right)[..|left + right| - 1] == left + most;
    }
  }

  // Over a chain, the meet of permitting arms is the first arm whose outcome is the lowest, with
  // that arm's obligations and decisive clause.
  lemma {:induction false} MeetKeepsFirstLowest<O(!new)>(lattice: Lattice<O>, arms: seq<Arm<O>>)
    requires LatticeLaws(lattice) && Chain(lattice)
    requires arms != [] && forall i | 0 <= i < |arms| :: Permits(arms[i])
    ensures var permit := FoldPermits(lattice, ByMeet, arms);
      && permit.Some? && FirstAt(arms, permit.value.outcome) == Some(IntoResult(permit.value))
  {
    var n := |arms| - 1;
    var last := arms[n].result;
    assert Permits(arms[n]);
    if n == 0 {
      assert arms[..0] == [];
      assert FirstAt(arms[..0], last.effect.outcome) == None;
    } else {
      MeetKeepsFirstLowest(lattice, arms[..n]);
      var current := FoldPermits(lattice, ByMeet, arms[..n]).value;
      assert Comparable(lattice, current.outcome, last.effect.outcome);
      if lattice.meet(current.outcome, last.effect.outcome) != current.outcome {
        LowerIsNew(lattice, arms[..n], last.effect.outcome);
      }
    }
  }

  lemma LowerIsNew<O(!new)>(lattice: Lattice<O>, arms: seq<Arm<O>>, outcome: O)
    requires LatticeLaws(lattice) && arms != [] && forall i | 0 <= i < |arms| :: Permits(arms[i])
    requires var permit := FoldPermits(lattice, ByMeet, arms);
      permit.Some? && !Below(lattice, permit.value.outcome, outcome)
    ensures FirstAt(arms, outcome).None?
  {
    if FirstAt(arms, outcome).Some? {
      var k := FirstAtIndex(arms, outcome);
      var low := FoldPermits(lattice, ByMeet, arms).value.outcome;
      MeetFolds(lattice, arms);
      BelowReflexive(lattice, low);
      MeetAllBound(lattice, Effects(arms), low);
      assert Effects(arms)[k] == Effect.Permit(outcome);
    }
  }

  lemma AllKeepsFirstLowest<O(!new)>(lattice: Lattice<O>, arms: seq<Arm<O>>)
    requires LatticeLaws(lattice) && Chain(lattice) && Permits(AllOfArms(lattice, arms))
    ensures var result := AllOfArms(lattice, arms).result;
      FirstAt(arms, result.effect.outcome) == Some(result)
  {
    AllPermitsIff(lattice, arms);
    MeetKeepsFirstLowest(lattice, arms);
  }

  // ----- the reduced arms -----

  function FirstResolvedAt<O(==)>(arms: seq<Residual<O>>, outcome: O): Option<EvalResult<O>> {
    if arms == [] then None
    else
      var earlier, last := FirstResolvedAt(arms[..|arms| - 1], outcome), arms[|arms| - 1];
      if earlier.Some? then earlier
      else if last.Resolved? && last.decision.effect == Effect.Permit(outcome) then
        Some(EvalResult(last.decision.effect, last.decision.obligations, last.decision.decisive))
      else None
  }

  ghost function FirstPendingAt<O>(lattice: Lattice<O>, arms: seq<Residual<O>>, facts: KnownFacts, outcome: O)
    : Option<EvalResult<O>>
  {
    if arms == [] then None
    else
      var earlier, last := FirstPendingAt(lattice, arms[..|arms| - 1], facts, outcome), arms[|arms| - 1];
      if earlier.Some? then earlier
      else if last.Pending? && Completed(lattice, last, facts).effect == Effect.Permit(outcome) then
        Some(Completed(lattice, last, facts))
      else None
  }

  // Which arm a completed `all` speaks for: a resolved one wherever it stands, else a pending one.
  ghost function Chosen<O>(lattice: Lattice<O>, arms: seq<Residual<O>>, facts: KnownFacts, outcome: O)
    : Option<EvalResult<O>>
  {
    var resolved := FirstResolvedAt(arms, outcome);
    if resolved.Some? then resolved else FirstPendingAt(lattice, arms, facts, outcome)
  }

  lemma OneArm<O>(lattice: Lattice<O>, policy: ResidualPolicy<O>, facts: KnownFacts, outcome: O)
    ensures var result := EvalResidual(lattice, policy, facts).result;
      FirstAt(EvalResiduals(lattice, [policy], facts), outcome) ==
        if result.effect == Effect.Permit(outcome) then Some(result) else None
  {
    var arms := EvalResiduals(lattice, [policy], facts);
    assert arms[..0] == [] && FirstAt(arms[..0], outcome) == None;
  }

  lemma EvaluatedAppend<O>(
      lattice: Lattice<O>, left: seq<ResidualPolicy<O>>, right: seq<ResidualPolicy<O>>, facts: KnownFacts)
    ensures EvalResiduals(lattice, left + right, facts) ==
      EvalResiduals(lattice, left, facts) + EvalResiduals(lattice, right, facts)
  {
  }

  lemma FirstOfSnoc<O>(
      lattice: Lattice<O>, policies: seq<ResidualPolicy<O>>, last: ResidualPolicy<O>, facts: KnownFacts, outcome: O)
    ensures var earlier := FirstAt(EvalResiduals(lattice, policies, facts), outcome);
      var result := EvalResidual(lattice, last, facts).result;
      FirstAt(EvalResiduals(lattice, policies + [last], facts), outcome) ==
        if earlier.Some? then earlier
        else if result.effect == Effect.Permit(outcome) then Some(result) else None
  {
    EvaluatedAppend(lattice, policies, [last], facts);
    FirstAtAppend(EvalResiduals(lattice, policies, facts), EvalResiduals(lattice, [last], facts), outcome);
    OneArm(lattice, last, facts, outcome);
  }

  lemma {:induction false} ConstantsFirst<O>(
      lattice: Lattice<O>, arms: seq<Residual<O>>, facts: KnownFacts, outcome: O)
    requires forall arm | arm in arms :: ResolvedCoherent(arm)
    ensures FirstAt(EvalResiduals(lattice, ResolvedPermits(arms), facts), outcome) == FirstResolvedAt(arms, outcome)
  {
    if arms != [] {
      var n := |arms| - 1;
      var last := arms[n];
      assert last in arms;
      ConstantsFirst(lattice, arms[..n], facts, outcome);
      if ResolvedPermit(last) {
        RebuiltConstant(lattice, last.decision, facts);
        FirstOfSnoc(lattice, ResolvedPermits(arms[..n]), PolicyFromDecision(last.decision), facts, outcome);
      }
    }
  }

  lemma {:induction false} PendingFirst<O>(
      lattice: Lattice<O>, arms: seq<Residual<O>>, facts: KnownFacts, outcome: O)
    ensures FirstAt(EvalResiduals(lattice, PendingResiduals(arms), facts), outcome) ==
      FirstPendingAt(lattice, arms, facts, outcome)
  {
    if arms != [] {
      var n := |arms| - 1;
      PendingFirst(lattice, arms[..n], facts, outcome);
      if arms[n].Pending? {
        FirstOfSnoc(lattice, PendingResiduals(arms[..n]), arms[n].residual, facts, outcome);
      }
    }
  }

  lemma ChosenIsFirst<O>(lattice: Lattice<O>, arms: seq<Residual<O>>, facts: KnownFacts, outcome: O)
    requires forall arm | arm in arms :: ResolvedCoherent(arm)
    ensures FirstAt(EvalResiduals(lattice, ResolvedPermits(arms) + PendingResiduals(arms), facts), outcome) ==
      Chosen(lattice, arms, facts, outcome)
  {
    var permits, pending := ResolvedPermits(arms), PendingResiduals(arms);
    EvaluatedAppend(lattice, permits, pending, facts);
    FirstAtAppend(EvalResiduals(lattice, permits, facts), EvalResiduals(lattice, pending, facts), outcome);
    ConstantsFirst(lattice, arms, facts, outcome);
    PendingFirst(lattice, arms, facts, outcome);
  }

  // Completing a reduced `all` that permits gives the chosen arm's whole result.
  lemma CompletedAllIsChosen<O(!new)>(
      lattice: Lattice<O>, arms: seq<Residual<O>>, partial: PartialFacts, facts: KnownFacts)
    requires LatticeLaws(lattice) && Chain(lattice)
    requires forall arm | arm in arms :: ResolvedCoherent(arm)
    ensures var result := Completed(lattice, ReduceAll(lattice, arms, partial), facts);
      result.effect.Permit? ==> Chosen(lattice, arms, facts, result.effect.outcome) == Some(result)
  {
    var permits, pending := ResolvedPermits(arms), PendingResiduals(arms);
    var result := Completed(lattice, ReduceAll(lattice, arms, partial), facts);
    if result.effect.Permit? {
      assert FirstResolvedDenial(arms) == |arms| && arms != [];
      if pending == [] {
        var known := PartialToKnown(partial);
        assert result == AllOfArms(lattice, EvalResiduals(lattice, permits, known)).result;
        ResolvedAllIsChosen(lattice, arms, known, facts);
      } else {
        PendingAllIsChosen(lattice, arms, partial, facts);
      }
    }
  }

  lemma ResolvedAllIsChosen<O(!new)>(
      lattice: Lattice<O>, arms: seq<Residual<O>>, known: KnownFacts, facts: KnownFacts)
    requires LatticeLaws(lattice) && Chain(lattice)
    requires forall arm | arm in arms :: ResolvedCoherent(arm)
    requires Permits(AllOfArms(lattice, EvalResiduals(lattice, ResolvedPermits(arms), known)))
    ensures var result := AllOfArms(lattice, EvalResiduals(lattice, ResolvedPermits(arms), known)).result;
      Chosen(lattice, arms, facts, result.effect.outcome) == Some(result)
  {
    var evaluated := EvalResiduals(lattice, ResolvedPermits(arms), known);
    AllKeepsFirstLowest(lattice, evaluated);
    ConstantsFirst(lattice, arms, known, AllOfArms(lattice, evaluated).result.effect.outcome);
  }

  lemma PendingAllIsChosen<O(!new)>(
      lattice: Lattice<O>, arms: seq<Residual<O>>, partial: PartialFacts, facts: KnownFacts)
    requires LatticeLaws(lattice) && Chain(lattice)
    requires forall arm | arm in arms :: ResolvedCoherent(arm)
    requires ReduceAll(lattice, arms, partial).Pending?
    ensures var result := Completed(lattice, ReduceAll(lattice, arms, partial), facts);
      result.effect.Permit? ==> Chosen(lattice, arms, facts, result.effect.outcome) == Some(result)
  {
    var policies := ResolvedPermits(arms) + PendingResiduals(arms);
    var result := Completed(lattice, ReduceAll(lattice, arms, partial), facts);
    assert result == AllOfArms(lattice, EvalResiduals(lattice, policies, facts)).result;
    if result.effect.Permit? {
      AllKeepsFirstLowest(lattice, EvalResiduals(lattice, policies, facts));
      ChosenIsFirst(lattice, arms, facts, result.effect.outcome);
    }
  }

  ghost predicate SameSet(left: seq<ObligationId>, right: seq<ObligationId>) {
    forall o :: o in left <==> o in right
  }

  // One `all` keeps its obligations exactly when the arm it speaks for once reduced, resolved arms
  // first, carries the set of the first lowest arm in source order.
  lemma AllKeepsObligationsIff<O(!new)>(
      lattice: Lattice<O>, reduced: seq<Residual<O>>, arms: seq<Arm<O>>, partial: PartialFacts, facts: KnownFacts)
    requires LatticeLaws(lattice) && Chain(lattice)
    requires forall arm | arm in reduced :: ResolvedCoherent(arm)
    requires Coherent(AllOfArms(lattice, arms).result)
    requires Coherent(Completed(lattice, ReduceAll(lattice, reduced, partial), facts))
    requires Completed(lattice, ReduceAll(lattice, reduced, partial), facts).effect ==
      AllOfArms(lattice, arms).result.effect
    ensures
      var completed, direct := Completed(lattice, ReduceAll(lattice, reduced, partial), facts),
        AllOfArms(lattice, arms).result;
      && (direct.effect.Deny? ==> SameObligations(completed, direct))
      && (direct.effect.Permit? ==>
            var outcome := direct.effect.outcome;
            && Chosen(lattice, reduced, facts, outcome).Some? && FirstAt(arms, outcome).Some?
            && (SameObligations(completed, direct) <==>
                SameSet(
                  Chosen(lattice, reduced, facts, outcome).value.obligations,
                  FirstAt(arms, outcome).value.obligations)))
  {
    if AllOfArms(lattice, arms).result.effect.Permit? {
      CompletedAllIsChosen(lattice, reduced, partial, facts);
      AllKeepsFirstLowest(lattice, arms);
    }
  }

  // ----- harmless ties -----

  // Over a chain, the outcomes a policy can grant.
  function Grantable<O(==)>(policy: Policy<O>): set<O> {
    match policy
    case Permit(outcome) => {outcome}
    case Deny => {}
    case Grant(clause) => {clause.outcome}
    case All(arms) => set i, o | 0 <= i < |arms| && o in Grantable(arms[i]) :: o
    case Any(arms) => set i, o | 0 <= i < |arms| && o in Grantable(arms[i]) :: o
    case OrElse(primary, fallback) => Grantable(primary) + Grantable(fallback)
  }

  // Whenever it permits, the policy carries exactly these obligations.
  predicate Uniform<O>(policy: Policy<O>, obligations: seq<ObligationId>) {
    match policy
    case Permit(_) => obligations == []
    case Deny => true
    case Grant(clause) =>
      && (forall o | o in clause.obligations :: o in obligations)
      && (forall o | o in obligations :: o in clause.obligations)
    case All(arms) => forall i | 0 <= i < |arms| :: Uniform(arms[i], obligations)
    case Any(arms) => forall i | 0 <= i < |arms| :: Uniform(arms[i], obligations)
    case OrElse(primary, fallback) => Uniform(primary, obligations) && Uniform(fallback, obligations)
  }

  lemma {:induction false} JoinComesFromAnArm<O(!new)>(lattice: Lattice<O>, arms: seq<Arm<O>>) returns (k: nat)
    requires LatticeLaws(lattice) && Chain(lattice) && Permits(AnyOfArms(lattice, arms))
    ensures k < |arms| && arms[k].result.effect == AnyOfArms(lattice, arms).result.effect
  {
    var n := |arms| - 1;
    FoldSomeIff(lattice, ByJoin, arms);
    var before := FoldPermits(lattice, ByJoin, arms[..n]);
    if arms[n].result.effect.Deny? {
      k := JoinComesFromAnArm(lattice, arms[..n]);
    } else if before.None? {
      k := n;
    } else {
      assert Comparable(lattice, before.value.outcome, arms[n].result.effect.outcome);
      if lattice.join(before.value.outcome, arms[n].result.effect.outcome) == before.value.outcome {
        k := JoinComesFromAnArm(lattice, arms[..n]);
      } else {
        k := n;
      }
    }
  }

  lemma {:induction false} OutcomeIsGrantable<O(!new)>(lattice: Lattice<O>, policy: Policy<O>, facts: KnownFacts)
    requires LatticeLaws(lattice) && Chain(lattice)
    ensures var effect := EvalPolicy(lattice, policy, facts).result.effect;
      effect.Permit? ==> effect.outcome in Grantable(policy)
  {
    match policy
    case All(ps) =>
      var arms := EvalPolicies(lattice, ps, facts);
      var all := AllOfArms(lattice, arms);
      if Permits(all) {
        AllKeepsFirstLowest(lattice, arms);
        var k := FirstAtIndex(arms, all.result.effect.outcome);
        OutcomeIsGrantable(lattice, ps[k], facts);
      }
    case Any(ps) =>
      var arms := EvalPolicies(lattice, ps, facts);
      if Permits(AnyOfArms(lattice, arms)) {
        var k := JoinComesFromAnArm(lattice, arms);
        OutcomeIsGrantable(lattice, ps[k], facts);
      }
    case OrElse(primary, fallback) =>
      OutcomeIsGrantable(lattice, primary, facts);
      OutcomeIsGrantable(lattice, fallback, facts);
    case _ =>
  }

  lemma {:induction false} UniformYields<O(!new)>(
      lattice: Lattice<O>, policy: Policy<O>, obligations: seq<ObligationId>, facts: KnownFacts)
    requires LatticeLaws(lattice) && Chain(lattice) && Uniform(policy, obligations)
    ensures var result := EvalPolicy(lattice, policy, facts).result;
      result.effect.Permit? ==> SameSet(result.obligations, obligations)
    decreases policy, 1
  {
    match policy
    case All(ps) =>
      var arms := EvalPolicies(lattice, ps, facts);
      var all := AllOfArms(lattice, arms);
      if Permits(all) {
        AllKeepsFirstLowest(lattice, arms);
        var k := FirstAtIndex(arms, all.result.effect.outcome);
        UniformYields(lattice, ps[k], obligations, facts);
      }
    case Any(ps) =>
      var arms := EvalPolicies(lattice, ps, facts);
      ArmsUniform(lattice, ps, obligations, facts);
      if Permits(AnyOfArms(lattice, arms)) {
        UniformJoin(lattice, arms, obligations);
      }
    case OrElse(primary, fallback) =>
      UniformYields(lattice, primary, obligations, facts);
      UniformYields(lattice, fallback, obligations, facts);
    case _ =>
  }

  ghost predicate YieldsOnly<O>(result: EvalResult<O>, obligations: seq<ObligationId>) {
    result.effect.Permit? ==> SameSet(result.obligations, obligations)
  }

  lemma {:induction false} ArmsUniform<O(!new)>(
      lattice: Lattice<O>, ps: seq<Policy<O>>, obligations: seq<ObligationId>, facts: KnownFacts)
    requires LatticeLaws(lattice) && Chain(lattice)
    requires forall i | 0 <= i < |ps| :: Uniform(ps[i], obligations)
    ensures forall i | 0 <= i < |ps| :: YieldsOnly(EvalPolicies(lattice, ps, facts)[i].result, obligations)
    decreases ps, 0
  {
    forall i | 0 <= i < |ps| ensures YieldsOnly(EvalPolicies(lattice, ps, facts)[i].result, obligations) {
      UniformYields(lattice, ps[i], obligations, facts);
    }
  }

  lemma UniformJoin<O(!new)>(lattice: Lattice<O>, arms: seq<Arm<O>>, obligations: seq<ObligationId>)
    requires LatticeLaws(lattice) && Chain(lattice) && Permits(AnyOfArms(lattice, arms))
    requires forall i | 0 <= i < |arms| :: YieldsOnly(arms[i].result, obligations)
    ensures SameSet(AnyOfArms(lattice, arms).result.obligations, obligations)
  {
    var k := JoinComesFromAnArm(lattice, arms);
    var outcome := AnyOfArms(lattice, arms).result.effect.outcome;
    assert YieldsOnly(arms[k].result, obligations);
    forall o ensures o in AnyOfArms(lattice, arms).result.obligations <==> o in obligations {
      WinningObligations(lattice, arms, o);
      if i :| 0 <= i < |arms| && Contributes(arms[i].result, outcome, o) {
        assert YieldsOnly(arms[i].result, obligations);
      }
      assert o in obligations ==> Contributes(arms[k].result, outcome, o);
    }
  }

  // A resolved permit behind a pending arm cannot tie with it, or the tie does not matter.
  predicate TieHarmless<O(==)>(earlier: Policy<O>, later: Decision<O>) {
    later.effect.Permit? ==>
      later.effect.outcome !in Grantable(earlier) || Uniform(earlier, later.obligations)
  }

  predicate TiesHarmless<O(==)>(lattice: Lattice<O>, ps: seq<Policy<O>>, partial: PartialFacts) {
    forall i, j | 0 <= i < j < |ps| ::
      var earlier, later := PartialEvaluate(lattice, ps[i], partial), PartialEvaluate(lattice, ps[j], partial);
      earlier.Pending? && ResolvedPermit(later) ==> TieHarmless(ps[i], later.decision)
  }

  // Every `all` of the policy has only harmless ties.
  predicate KeepsTies<O(==)>(lattice: Lattice<O>, policy: Policy<O>, partial: PartialFacts) {
    match policy
    case All(arms) =>
      (forall i | 0 <= i < |arms| :: KeepsTies(lattice, arms[i], partial)) && TiesHarmless(lattice, arms, partial)
    case Any(arms) => forall i | 0 <= i < |arms| :: KeepsTies(lattice, arms[i], partial)
    case OrElse(primary, fallback) =>
      KeepsTies(lattice, primary, partial) && KeepsTies(lattice, fallback, partial)
    case _ => true
  }

  lemma {:induction false} UnobligedIsUniform<O>(policy: Policy<O>)
    requires !PolicyCarriesObligation(policy)
    ensures Uniform(policy, [])
  {
    match policy
    case All(arms) => forall i | 0 <= i < |arms| { UnobligedIsUniform(arms[i]); }
    case Any(arms) => forall i | 0 <= i < |arms| { UnobligedIsUniform(arms[i]); }
    case OrElse(primary, fallback) =>
      UnobligedIsUniform(primary);
      UnobligedIsUniform(fallback);
    case _ =>
  }

  // In particular, an `all` below which nothing is obligated has only harmless ties.
  lemma {:induction false} UnobligedKeepsTies<O>(lattice: Lattice<O>, policy: Policy<O>, partial: PartialFacts)
    requires !PolicyCarriesObligation(policy) || NoObligationUnderAll(policy)
    ensures KeepsTies(lattice, policy, partial)
  {
    match policy
    case All(arms) =>
      forall i | 0 <= i < |arms| ensures KeepsTies(lattice, arms[i], partial) {
        UnobligedKeepsTies(lattice, arms[i], partial);
      }
      forall i, j | 0 <= i < j < |arms|
        ensures
          var earlier, later := PartialEvaluate(lattice, arms[i], partial), PartialEvaluate(lattice, arms[j], partial);
          earlier.Pending? && ResolvedPermit(later) ==> TieHarmless(arms[i], later.decision)
      {
        UnobligedIsUniform(arms[i]);
        ReductionAddsNone(lattice, arms[j], partial);
      }
    case Any(arms) => forall i | 0 <= i < |arms| { UnobligedKeepsTies(lattice, arms[i], partial); }
    case OrElse(primary, fallback) =>
      UnobligedKeepsTies(lattice, primary, partial);
      UnobligedKeepsTies(lattice, fallback, partial);
    case _ =>
  }

  // ----- preservation -----

  ghost predicate SameChoice<O>(
      lattice: Lattice<O>, reduced: seq<Residual<O>>, arms: seq<Arm<O>>, facts: KnownFacts, outcome: O)
  {
    var chosen, first := Chosen(lattice, reduced, facts, outcome), FirstAt(arms, outcome);
    && (chosen.Some? <==> first.Some?)
    && (chosen.Some? ==> SameSet(chosen.value.obligations, first.value.obligations))
  }

  lemma {:induction false} NoResolvedAt<O>(arms: seq<Residual<O>>, outcome: O)
    requires FirstResolvedAt(arms, outcome).None?
    ensures forall i | 0 <= i < |arms| :: arms[i].Resolved? ==> arms[i].decision.effect != Effect.Permit(outcome)
  {
    if arms != [] {
      var n := |arms| - 1;
      NoResolvedAt(arms[..n], outcome);
      assert arms == arms[..n] + [arms[n]];
    }
  }

  // A harmless resolved permit may take over from an earlier pending arm.
  ghost predicate MayTakeOver<O>(
      lattice: Lattice<O>, reduced: seq<Residual<O>>, arms: seq<Arm<O>>, last: Residual<O>, outcome: O)
    requires |reduced| == |arms|
  {
    last.Resolved? && last.decision.effect == Effect.Permit(outcome) ==>
      forall i | 0 <= i < |arms| && reduced[i].Pending? && arms[i].result.effect == Effect.Permit(outcome) ::
        SameSet(arms[i].result.obligations, last.decision.obligations)
  }

  lemma ChoiceStep<O>(
      lattice: Lattice<O>, reduced: seq<Residual<O>>, arms: seq<Arm<O>>, last: Residual<O>, arm: Arm<O>,
      facts: KnownFacts, outcome: O)
    requires |reduced| == |arms|
    requires forall i | 0 <= i < |arms| :: SameObligations(Completed(lattice, reduced[i], facts), arms[i].result)
    requires SameObligations(Completed(lattice, last, facts), arm.result)
    requires SameChoice(lattice, reduced, arms, facts, outcome)
    requires MayTakeOver(lattice, reduced, arms, last, outcome)
    ensures SameChoice(lattice, reduced + [last], arms + [arm], facts, outcome)
  {
    assert (reduced + [last])[..|reduced|] == reduced && (arms + [arm])[..|arms|] == arms;
    var first := FirstAt(arms, outcome);
    if first.Some? && FirstResolvedAt(reduced, outcome).None? && last.Resolved? {
      var k := FirstAtIndex(arms, outcome);
      NoResolvedAt(reduced, outcome);
      assert SameObligations(Completed(lattice, reduced[k], facts), arms[k].result);
      assert reduced[k].Pending?;
    }
  }

  lemma HarmlessTakesOver<O(!new)>(
      lattice: Lattice<O>, ps: seq<Policy<O>>, partial: PartialFacts, facts: KnownFacts, outcome: O, j: nat)
    requires LatticeLaws(lattice) && Chain(lattice)
    requires j < |ps| && TiesHarmless(lattice, ps, partial)
    ensures var reduced, arms := PartialEvaluateArms(lattice, ps, partial), EvalPolicies(lattice, ps, facts);
      MayTakeOver(lattice, reduced[..j], arms[..j], reduced[j], outcome)
  {
    var reduced, arms := PartialEvaluateArms(lattice, ps, partial), EvalPolicies(lattice, ps, facts);
    if ResolvedPermit(reduced[j]) && reduced[j].decision.effect == Effect.Permit(outcome) {
      forall i | 0 <= i < j && reduced[..j][i].Pending? && arms[..j][i].result.effect == Effect.Permit(outcome)
        ensures SameSet(arms[..j][i].result.obligations, reduced[j].decision.obligations)
      {
        assert TieHarmless(ps[i], PartialEvaluate(lattice, ps[j], partial).decision);
        OutcomeIsGrantable(lattice, ps[i], facts);
        UniformYields(lattice, ps[i], reduced[j].decision.obligations, facts);
      }
    }
  }

  lemma {:induction false} ChoicesAgree<O>(
      lattice: Lattice<O>, reduced: seq<Residual<O>>, arms: seq<Arm<O>>, facts: KnownFacts, outcome: O, n: nat)
    requires n <= |reduced| == |arms|
    requires forall i | 0 <= i < |arms| :: SameObligations(Completed(lattice, reduced[i], facts), arms[i].result)
    requires forall j | 0 <= j < |arms| :: MayTakeOver(lattice, reduced[..j], arms[..j], reduced[j], outcome)
    ensures SameChoice(lattice, reduced[..n], arms[..n], facts, outcome)
  {
    if n > 0 {
      var j := n - 1;
      ChoicesAgree(lattice, reduced, arms, facts, outcome, j);
      ChoiceStep(lattice, reduced[..j], arms[..j], reduced[j], arms[j], facts, outcome);
      assert reduced[..n] == reduced[..j] + [reduced[j]] && arms[..n] == arms[..j] + [arms[j]];
    } else {
      NothingChosen(lattice, reduced[..0], arms[..0], facts, outcome);
    }
  }

  lemma NothingChosen<O>(
      lattice: Lattice<O>, reduced: seq<Residual<O>>, arms: seq<Arm<O>>, facts: KnownFacts, outcome: O)
    requires reduced == [] && arms == []
    ensures SameChoice(lattice, reduced, arms, facts, outcome)
  {
  }

  // One `all`, whatever stands below it: its obligations survive exactly when the arm it speaks for
  // once completed carries the set of the first lowest arm in source order.
  lemma AllPolicyKeepsObligationsIff<O(!new)>(
      lattice: Lattice<O>, ps: seq<Policy<O>>, partial: PartialFacts, facts: KnownFacts)
    requires LatticeLaws(lattice) && Chain(lattice) && Completes(facts, partial)
    ensures
      var completed := Completed(lattice, PartialEvaluate(lattice, Policy.All(ps), partial), facts);
      var direct := EvalPolicy(lattice, Policy.All(ps), facts).result;
      && (direct.effect.Deny? ==> SameObligations(completed, direct))
      && (direct.effect.Permit? ==>
            var chosen := Chosen(lattice, PartialEvaluateArms(lattice, ps, partial), facts, direct.effect.outcome);
            var first := FirstAt(EvalPolicies(lattice, ps, facts), direct.effect.outcome);
            && chosen.Some? && first.Some?
            && (SameObligations(completed, direct) <==>
                SameSet(chosen.value.obligations, first.value.obligations)))
  {
    var policy := Policy.All(ps);
    CompletionPreservesEffect(lattice, policy, partial, facts);
    ArmsReducedCoherent(lattice, ps, partial);
    ReductionCoherent(lattice, policy, partial);
    CompletedCoherent(lattice, PartialEvaluate(lattice, policy, partial), facts);
    EvaluationCoherent(lattice, policy, facts);
    AllKeepsObligationsIff(
      lattice, PartialEvaluateArms(lattice, ps, partial), EvalPolicies(lattice, ps, facts), partial, facts);
  }

  lemma AllKeepsObligations<O(!new)>(
      lattice: Lattice<O>, ps: seq<Policy<O>>, partial: PartialFacts, facts: KnownFacts)
    requires LatticeLaws(lattice) && Chain(lattice) && Completes(facts, partial)
    requires TiesHarmless(lattice, ps, partial)
    requires forall i | 0 <= i < |ps| :: SameObligations(
      Completed(lattice, PartialEvaluateArms(lattice, ps, partial)[i], facts),
      EvalPolicies(lattice, ps, facts)[i].result)
    ensures SameObligations(
      Completed(lattice, PartialEvaluate(lattice, Policy.All(ps), partial), facts),
      EvalPolicy(lattice, Policy.All(ps), facts).result)
  {
    var reduced, arms := PartialEvaluateArms(lattice, ps, partial), EvalPolicies(lattice, ps, facts);
    AllPolicyKeepsObligationsIff(lattice, ps, partial, facts);
    var direct := AllOfArms(lattice, arms).result;
    if direct.effect.Permit? {
      forall j | 0 <= j < |ps|
        ensures MayTakeOver(lattice, reduced[..j], arms[..j], reduced[j], direct.effect.outcome)
      {
        HarmlessTakesOver(lattice, ps, partial, facts, direct.effect.outcome, j);
      }
      ChoicesAgree(lattice, reduced, arms, facts, direct.effect.outcome, |ps|);
      assert reduced[..|ps|] == reduced && arms[..|ps|] == arms;
    }
  }

  // Over a chain of outcomes, with only harmless ties under every `all`, the completed residual
  // carries the same set of obligations as direct evaluation.
  lemma {:induction false} ObligationsPreserved<O(!new)>(
      lattice: Lattice<O>, policy: Policy<O>, partial: PartialFacts, facts: KnownFacts)
    requires LatticeLaws(lattice) && Chain(lattice)
    requires KeepsTies(lattice, policy, partial) && Completes(facts, partial)
    ensures SameObligations(
      Completed(lattice, PartialEvaluate(lattice, policy, partial), facts),
      EvalPolicy(lattice, policy, facts).result)
    decreases policy, 1
  {
    match policy
    case Grant(clause) => GrantKeepsObligations(lattice, clause, partial, facts);
    case All(ps) =>
      ArmsKeepObligations(lattice, ps, partial, facts);
      AllKeepsObligations(lattice, ps, partial, facts);
    case Any(ps) =>
      CompletionPreservesEffect(lattice, policy, partial, facts);
      ArmsReducedCoherent(lattice, ps, partial);
      ReductionCoherent(lattice, policy, partial);
      CompletedCoherent(lattice, PartialEvaluate(lattice, policy, partial), facts);
      ArmsKeepObligations(lattice, ps, partial, facts);
      AnyKeepsObligations(
        lattice, PartialEvaluateArms(lattice, ps, partial), EvalPolicies(lattice, ps, facts), partial, facts);
    case OrElse(primary, fallback) =>
      ObligationsPreserved(lattice, primary, partial, facts);
      ObligationsPreserved(lattice, fallback, partial, facts);
      ReductionCoherent(lattice, fallback, partial);
      OrElseKeepsObligations(
        lattice, PartialEvaluate(lattice, primary, partial), PartialEvaluate(lattice, fallback, partial),
        EvalPolicy(lattice, primary, facts), EvalPolicy(lattice, fallback, facts), facts);
    case _ =>
  }

  lemma {:induction false} ArmsKeepObligations<O(!new)>(
      lattice: Lattice<O>, ps: seq<Policy<O>>, partial: PartialFacts, facts: KnownFacts)
    requires LatticeLaws(lattice) && Chain(lattice) && Completes(facts, partial)
    requires forall i | 0 <= i < |ps| :: KeepsTies(lattice, ps[i], partial)
    ensures forall i | 0 <= i < |ps| :: SameObligations(
      Completed(lattice, PartialEvaluateArms(lattice, ps, partial)[i], facts),
      EvalPolicies(lattice, ps, facts)[i].result)
    decreases ps, 0
  {
    forall i | 0 <= i < |ps| ensures SameObligations(
      Completed(lattice, PartialEvaluateArms(lattice, ps, partial)[i], facts),
      EvalPolicies(lattice, ps, facts)[i].result)
    {
      ObligationsPreserved(lattice, ps[i], partial, facts);
    }
  }

  // ----- the tie that matters -----

  // Under an `all` the set can change: the resolved permit moves in front of the pending one, and a
  // tie between equal outcomes keeps the earlier arm's obligations.
  lemma ObligationsCanChangeUnderAll<O>(
      lattice: Lattice<O>, outcome: O, fact: FactId, first: ObligationId, second: ObligationId)
    requires Idempotent(lattice.meet, outcome) && first != second
    ensures var pending := Clause(outcome, Has(fact), None, Forbidden, [first], None);
      var settled := Clause(outcome, Always, None, Forbidden, [second], None);
      var policy := Policy.All([Policy.Grant(pending), Policy.Grant(settled)]);
      var partial, facts := map[fact := Unknown], map[fact := Present];
      && Completes(facts, partial)
      && Evaluate(lattice, policy, facts).obligations == [first]
      && CompleteResidual(lattice, PartialEvaluate(lattice, policy, partial), facts).obligations == [second]
  {
    var pending := Clause(outcome, Has(fact), None, Forbidden, [first], None);
    var settled := Clause(outcome, Always, None, Forbidden, [second], None);
    var partial, facts: KnownFacts := map[fact := Unknown], map[fact := Present];
    assert PresenceOf(facts, fact) == Present && PresenceOf(partial, fact) == Unknown;
    var ps := [Policy.Grant(pending), Policy.Grant(settled)];
    DirectKeepsTheFirst(lattice, pending, settled, facts);
    var residuals := [
      ResidualPolicy.PermitWithTrace(outcome, [second], [], None), ResidualPolicy.Grant(pending)];
    var reduced := PartialEvaluateArms(lattice, ps, partial);
    assert reduced[0] == Pending(ResidualPolicy.Grant(pending), []);
    assert reduced[1].Resolved? && PolicyFromDecision(reduced[1].decision) == residuals[0];
    assert reduced == [reduced[0], reduced[1]];
    TwoArmReduction(lattice, reduced[0], reduced[1], partial);
    CompletionKeepsTheFirst(lattice, residuals[0], pending, facts);
  }

  lemma DirectKeepsTheFirst<O>(lattice: Lattice<O>, first: Clause<O>, second: Clause<O>, facts: KnownFacts)
    requires Idempotent(lattice.meet, first.outcome) && first.outcome == second.outcome
    requires EvalCondition(first.condition, facts).satisfied && EvalCondition(second.condition, facts).satisfied
    ensures Evaluate(lattice, Policy.All([Policy.Grant(first), Policy.Grant(second)]), facts).obligations ==
      first.obligations
  {
    var ps := [Policy.Grant(first), Policy.Grant(second)];
    var arms := EvalPolicies(lattice, ps, facts);
    assert arms == [EvalGrant(first, facts), EvalGrant(second, facts)];
    TwoArmMeet(lattice, arms[0], arms[1]);
  }

  lemma CompletionKeepsTheFirst<O>(
      lattice: Lattice<O>, constant: ResidualPolicy<O>, second: Clause<O>, facts: KnownFacts)
    requires constant.PermitWithTrace? && constant.outcome == second.outcome
    requires Idempotent(lattice.meet, second.outcome) && EvalCondition(second.condition, facts).satisfied
    ensures var policy := ResidualPolicy.All([constant, ResidualPolicy.Grant(second)]);
      EvaluateResidual(lattice, policy, facts).obligations == constant.obligations
  {
    var residuals := [constant, ResidualPolicy.Grant(second)];
    var arms := EvalResiduals(lattice, residuals, facts);
    assert arms[0] == EvalResidual(lattice, constant, facts) && arms[1] == EvalGrant(second, facts);
    assert arms == [arms[0], arms[1]];
    TwoArmMeet(lattice, arms[0], arms[1]);
  }

  lemma TwoArmMeet<O>(lattice: Lattice<O>, first: Arm<O>, second: Arm<O>)
    requires Permits(first) && Permits(second)
    requires first.result.effect == second.result.effect
    requires Idempotent(lattice.meet, first.result.effect.outcome)
    ensures AllOfArms(lattice, [first, second]).result == first.result
  {
    TwoPermitFold(lattice, ByMeet, first, second);
  }

  lemma TwoPermits<O>(lattice: Lattice<O>, first: Arm<O>, second: Arm<O>)
    requires Permits(first) && Permits(second)
    ensures AllOfArms(lattice, [first, second]).result ==
      IntoResult(Meet(lattice, PermitOf(first.result), PermitOf(second.result)))
  {
    TwoPermitFold(lattice, ByMeet, first, second);
  }

  lemma DeniedPair<O>(lattice: Lattice<O>, first: Arm<O>, second: Arm<O>)
    requires first.result.effect.Deny?
    ensures AllOfArms(lattice, [first, second]).result == first.result
  {
    assert [first, second][0] == first;
  }

  // Two arms whose order is exchanged: the obligations agree unless a tie tells them apart.
  lemma ExchangedMeet<O(!new)>(
      lattice: Lattice<O>, first: EvalResult<O>, second: EvalResult<O>, pending: EvalResult<O>, resolved: EvalResult<O>)
    requires LatticeLaws(lattice) && first.effect.Permit? && second.effect.Permit?
    requires SameObligations(pending, first) && SameObligations(resolved, second)
    ensures SameObligations(
      IntoResult(Meet(lattice, PermitOf(resolved), PermitOf(pending))),
      IntoResult(Meet(lattice, PermitOf(first), PermitOf(second)))) <==>
      (first.effect == second.effect ==> SameSet(first.obligations, second.obligations))
  {
    var low, other := first.effect.outcome, second.effect.outcome;
    assert Commutes(lattice.meet, low, other);
    assert Idempotent(lattice.meet, low);
  }

  // A pending grant before a resolved one: completion keeps the obligations of direct evaluation
  // exactly when the pending grant denies after all, or the outcomes differ, or the sets agree.
  lemma TwoGrantsKeepObligationsIff<O(!new)>(
      lattice: Lattice<O>, first: Clause<O>, second: Clause<O>, partial: PartialFacts, facts: KnownFacts)
    requires LatticeLaws(lattice) && Completes(facts, partial)
    requires ReduceGrant(lattice, first, partial).Pending? && ResolvedPermit(ReduceGrant(lattice, second, partial))
    ensures var policy := Policy.All([Policy.Grant(first), Policy.Grant(second)]);
      SameObligations(
        Completed(lattice, PartialEvaluate(lattice, policy, partial), facts),
        EvalPolicy(lattice, policy, facts).result) <==>
      (Holds(first.condition, facts) && first.outcome == second.outcome ==>
        SameSet(first.obligations, second.obligations))
  {
    var one, two := EvalGrant(first, facts), EvalGrant(second, facts);
    assert EvalPolicies(lattice, [Policy.Grant(first), Policy.Grant(second)], facts) == [one, two];
    var resolved, pending := TwoGrantsCompleted(lattice, first, second, partial, facts);
    ReadingHolds(first.condition, facts);
    if Holds(first.condition, facts) {
      TwoPermits(lattice, one, two);
      TwoPermits(lattice, resolved, pending);
      ExchangedMeet(lattice, one.result, two.result, pending.result, resolved.result);
    } else {
      DeniedPair(lattice, one, two);
      DeniedSecond(lattice, resolved, pending);
    }
  }

  // Completed, the two grants evaluate in exchanged order.
  lemma TwoGrantsCompleted<O(!new)>(
      lattice: Lattice<O>, first: Clause<O>, second: Clause<O>, partial: PartialFacts, facts: KnownFacts)
    returns (resolved: Arm<O>, pending: Arm<O>)
    requires Completes(facts, partial)
    requires ReduceGrant(lattice, first, partial).Pending? && ResolvedPermit(ReduceGrant(lattice, second, partial))
    ensures var policy := Policy.All([Policy.Grant(first), Policy.Grant(second)]);
      Completed(lattice, PartialEvaluate(lattice, policy, partial), facts) ==
      AllOfArms(lattice, [resolved, pending]).result
    ensures Permits(resolved)
    ensures SameObligations(pending.result, EvalGrant(first, facts).result)
    ensures SameObligations(resolved.result, EvalGrant(second, facts).result)
  {
    var ps := [Policy.Grant(first), Policy.Grant(second)];
    var reduced := PartialEvaluateArms(lattice, ps, partial);
    assert reduced == [ReduceGrant(lattice, first, partial), ReduceGrant(lattice, second, partial)];
    TwoArmReduction(lattice, reduced[0], reduced[1], partial);
    GrantKeepsObligations(lattice, first, partial, facts);
    GrantKeepsObligations(lattice, second, partial, facts);
    ReductionCoherent(lattice, ps[1], partial);
    RebuiltConstant(lattice, reduced[1].decision, facts);
    var residuals := [PolicyFromDecision(reduced[1].decision), reduced[0].residual];
    var completed := EvalResiduals(lattice, residuals, facts);
    resolved, pending := completed[0], completed[1];
    assert completed == [resolved, pending];
  }

  lemma DeniedSecond<O>(lattice: Lattice<O>, first: Arm<O>, second: Arm<O>)
    requires Permits(first) && second.result.effect.Deny?
    ensures AllOfArms(lattice, [first, second]).result == second.result
  {
    var arms := [first, second];
    assert arms[0] == first && arms[1..][0] == second;
  }

  lemma OneArmLists<O>(arm: Residual<O>)
    ensures ResolvedPermits([arm]) == if ResolvedPermit(arm) then [PolicyFromDecision(arm.decision)] else []
    ensures PendingResiduals([arm]) == if arm.Pending? then [arm.residual] else []
  {
    assert [arm][..0] == [];
    assert ResolvedPermits<O>([]) == [] && PendingResiduals<O>([]) == [];
  }

  lemma TwoArmLists<O>(first: Residual<O>, second: Residual<O>)
    requires first.Pending? && ResolvedPermit(second)
    ensures ResolvedPermits([first, second]) == [PolicyFromDecision(second.decision)]
    ensures PendingResiduals([first, second]) == [first.residual]
  {
    OneArmLists(first);
    assert [first, second][..1] == [first];
  }

  lemma TwoArmReduction<O>(lattice: Lattice<O>, first: Residual<O>, second: Residual<O>, partial: PartialFacts)
    requires first.Pending? && ResolvedPermit(second)
    ensures var reduced := ReduceAll(lattice, [first, second], partial);
      reduced.Pending? &&
      reduced.residual == ResidualPolicy.All([PolicyFromDecision(second.decision), first.residual])
  {
    var arms := [first, second];
    TwoArmLists(first, second);
    assert !ResolvedDenial(arms[0]) && !ResolvedDenial(arms[1]);
    assert FirstResolvedDenial(arms) == |arms|;
    assert [PolicyFromDecision(second.decision)] + [first.residual] ==
      [PolicyFromDecision(second.decision), first.residual];
  }
}
