/** What partial evaluation preserves: permission, effect, every field, and what it still asks for. */
module PartialProofs {
  import opened Wrappers
  import opened Facts
  import opened Policies
  import opened Consulting
  import opened Conditions
  import opened Evaluation
  import opened Semantics
  import opened Outcomes
  import opened PartialEvaluation
  import CR = ConditionReduction

  // ----- constants rebuilt from decisions -----

  // A constant rebuilt from a coherent decision evaluates to that decision's result, reading nothing.
  lemma RebuiltConstant<O>(lattice: Lattice<O>, decision: Decision<O>, facts: KnownFacts)
    requires CoherentDecision(decision)
    ensures EvalResidual(lattice, PolicyFromDecision(decision), facts) ==
      Arm(EvalResult(decision.effect, decision.obligations, decision.decisive), [])
    ensures ResidualFacts(PolicyFromDecision(decision)) == {}
  {
  }

  ghost predicate ResolvedCoherent<O>(residual: Residual<O>) {
    residual.Resolved? ==> CoherentDecision(residual.decision)
  }

  // ----- the arms of a reduced set, completed -----

  ghost function Completed<O>(lattice: Lattice<O>, residual: Residual<O>, facts: KnownFacts): EvalResult<O> {
    match residual
    case Resolved(decision) => EvalResult(decision.effect, decision.obligations, decision.decisive)
    case Pending(policy, _) => EvalResidual(lattice, policy, facts).result
  }

  ghost function CompletedEffects<O>(lattice: Lattice<O>, arms: seq<Residual<O>>, facts: KnownFacts)
    : (effects: seq<Effect<O>>)
  {
    seq(|arms|, i requires 0 <= i < |arms| => Completed(lattice, arms[i], facts).effect)
  }

  ghost function PolicyEffects<O>(lattice: Lattice<O>, policies: seq<ResidualPolicy<O>>, facts: KnownFacts)
    : (effects: seq<Effect<O>>)
  {
    seq(|policies|, i requires 0 <= i < |policies| => EvalResidual(lattice, policies[i], facts).result.effect)
  }

  lemma PolicyEffectsAre<O>(lattice: Lattice<O>, policies: seq<ResidualPolicy<O>>, facts: KnownFacts)
    ensures Effects(EvalResiduals(lattice, policies, facts)) == PolicyEffects(lattice, policies, facts)
  {
  }

  lemma PolicyEffectsAppend<O>(
      lattice: Lattice<O>, left: seq<ResidualPolicy<O>>, right: seq<ResidualPolicy<O>>, facts: KnownFacts)
    ensures PolicyEffects(lattice, left + right, facts) ==
      PolicyEffects(lattice, left, facts) + PolicyEffects(lattice, right, facts)
  {
  }

  lemma OnePolicyEffect<O>(lattice: Lattice<O>, policy: ResidualPolicy<O>, facts: KnownFacts)
    ensures PolicyEffects(lattice, [policy], facts) == [EvalResidual(lattice, policy, facts).result.effect]
  {
  }

  lemma AllEffect<O>(lattice: Lattice<O>, policies: seq<ResidualPolicy<O>>, facts: KnownFacts)
    ensures EvalResidual(lattice, ResidualPolicy.All(policies), facts).result.effect ==
      Settled(MeetAll(lattice, PolicyEffects(lattice, policies, facts)))
  {
    var arms := EvalResiduals(lattice, policies, facts);
    PolicyEffectsAre(lattice, policies, facts);
    AllFolds(lattice, arms);
    assert EvalResidual(lattice, ResidualPolicy.All(policies), facts) == AllOfArms(lattice, arms);
  }

  lemma AnyEffect<O>(lattice: Lattice<O>, policies: seq<ResidualPolicy<O>>, facts: KnownFacts)
    ensures EvalResidual(lattice, ResidualPolicy.Any(policies), facts).result.effect ==
      JoinAll(lattice, PolicyEffects(lattice, policies, facts))
  {
    var arms := EvalResiduals(lattice, policies, facts);
    PolicyEffectsAre(lattice, policies, facts);
    AnyFolds(lattice, arms);
    assert EvalResidual(lattice, ResidualPolicy.Any(policies), facts) == AnyOfArms(lattice, arms);
  }

  // ----- folding split lists -----

  ghost predicate Regular<O(!new)>(lattice: Lattice<O>) {
    && Commutative(lattice.meet) && Associative(lattice.meet)
    && Commutative(lattice.join) && Associative(lattice.join)
  }

  lemma MeetEffectsLaws<O(!new)>(
      lattice: Lattice<O>, a: Option<Effect<O>>, b: Option<Effect<O>>, c: Option<Effect<O>>)
    requires Regular(lattice)
    ensures MeetEffects(lattice, a, b) == MeetEffects(lattice, b, a)
    ensures MeetEffects(lattice, a, MeetEffects(lattice, b, c)) ==
      MeetEffects(lattice, MeetEffects(lattice, a, b), c)
  {
    if a.Some? && a.value.Permit? && b.Some? && b.value.Permit? {
      assert Commutes(lattice.meet, a.value.outcome, b.value.outcome);
      if c.Some? && c.value.Permit? {
        assert Associates(lattice.meet, a.value.outcome, b.value.outcome, c.value.outcome);
      }
    }
  }

  lemma JoinEffectsLaws<O(!new)>(lattice: Lattice<O>, a: Effect<O>, b: Effect<O>, c: Effect<O>)
    requires Regular(lattice)
    ensures JoinEffects(lattice, a, b) == JoinEffects(lattice, b, a)
    ensures JoinEffects(lattice, a, JoinEffects(lattice, b, c)) ==
      JoinEffects(lattice, JoinEffects(lattice, a, b), c)
  {
    if a.Permit? && b.Permit? {
      assert Commutes(lattice.join, a.outcome, b.outcome);
      if c.Permit? {
        assert Associates(lattice.join, a.outcome, b.outcome, c.outcome);
      }
    }
  }

  lemma {:induction false} MeetAllAppend<O(!new)>(
      lattice: Lattice<O>, left: seq<Effect<O>>, right: seq<Effect<O>>)
    requires Regular(lattice)
    ensures MeetAll(lattice, left + right) == MeetEffects(lattice, MeetAll(lattice, left), MeetAll(lattice, right))
  {
    if right == [] {
      assert left + right == left;
    } else {
      var most, last := right[..|right| - 1], right[|right| - 1];
      MeetAllAppend(lattice, left, most);
      assert (left + right)[..|left + right| - 1] == left + most;
      MeetEffectsLaws(lattice, MeetAll(lattice, left), MeetAll(lattice, most), Some(last));
    }
  }

  lemma {:induction false} JoinAllAppend<O(!new)>(
      lattice: Lattice<O>, left: seq<Effect<O>>, right: seq<Effect<O>>)
    requires Regular(lattice)
    ensures JoinAll(lattice, left + right) == JoinEffects(lattice, JoinAll(lattice, left), JoinAll(lattice, right))
  {
    if right == [] {
      assert left + right == left;
    } else {
      var most, last := right[..|right| - 1], right[|right| - 1];
      JoinAllAppend(lattice, left, most);
      assert (left + right)[..|left + right| - 1] == left + most;
      JoinEffectsLaws(lattice, JoinAll(lattice, left), JoinAll(lattice, most), last);
    }
  }

  lemma FoldSnoc<O>(lattice: Lattice<O>, effects: seq<Effect<O>>, last: Effect<O>)
    ensures MeetAll(lattice, effects + [last]) == MeetEffects(lattice, MeetAll(lattice, effects), Some(last))
    ensures JoinAll(lattice, effects + [last]) == JoinEffects(lattice, JoinAll(lattice, effects), last)
  {
    assert (effects + [last])[..|effects|] == effects;
  }

  lemma MeetShift<O(!new)>(
      lattice: Lattice<O>, p: Option<Effect<O>>, q: Option<Effect<O>>, e: Option<Effect<O>>)
    requires Regular(lattice)
    ensures MeetEffects(lattice, MeetEffects(lattice, p, q), e) ==
      MeetEffects(lattice, p, MeetEffects(lattice, q, e))
    ensures MeetEffects(lattice, MeetEffects(lattice, p, q), e) ==
      MeetEffects(lattice, MeetEffects(lattice, p, e), q)
  {
    MeetEffectsLaws(lattice, p, q, e);
    MeetEffectsLaws(lattice, q, e, p);
    MeetEffectsLaws(lattice, p, e, q);
  }

  lemma JoinShift<O(!new)>(lattice: Lattice<O>, p: Effect<O>, q: Effect<O>, e: Effect<O>)
    requires Regular(lattice)
    ensures JoinEffects(lattice, JoinEffects(lattice, p, q), e) ==
      JoinEffects(lattice, p, JoinEffects(lattice, q, e))
    ensures JoinEffects(lattice, JoinEffects(lattice, p, q), e) ==
      JoinEffects(lattice, JoinEffects(lattice, p, e), q)
  {
    JoinEffectsLaws(lattice, p, q, e);
    JoinEffectsLaws(lattice, q, e, p);
    JoinEffectsLaws(lattice, p, e, q);
  }

  // Where the effect of one more arm goes: to the resolved permits or to the pending residuals.
  lemma MeetStep<O(!new)>(
      lattice: Lattice<O>, all: seq<Effect<O>>, permits: seq<Effect<O>>, pending: seq<Effect<O>>,
      effect: Effect<O>)
    requires Regular(lattice)
    requires MeetAll(lattice, all) == MeetEffects(lattice, MeetAll(lattice, permits), MeetAll(lattice, pending))
    ensures MeetAll(lattice, all + [effect]) ==
      MeetEffects(lattice, MeetAll(lattice, permits + [effect]), MeetAll(lattice, pending))
    ensures MeetAll(lattice, all + [effect]) ==
      MeetEffects(lattice, MeetAll(lattice, permits), MeetAll(lattice, pending + [effect]))
  {
    FoldSnoc(lattice, all, effect);
    FoldSnoc(lattice, permits, effect);
    FoldSnoc(lattice, pending, effect);
    MeetShift(lattice, MeetAll(lattice, permits), MeetAll(lattice, pending), Some(effect));
  }

  lemma JoinStep<O(!new)>(
      lattice: Lattice<O>, all: seq<Effect<O>>, permits: seq<Effect<O>>, pending: seq<Effect<O>>,
      effect: Effect<O>)
    requires Regular(lattice)
    requires JoinAll(lattice, all) == JoinEffects(lattice, JoinAll(lattice, permits), JoinAll(lattice, pending))
    ensures JoinAll(lattice, all + [effect]) ==
      JoinEffects(lattice, JoinAll(lattice, permits + [effect]), JoinAll(lattice, pending))
    ensures JoinAll(lattice, all + [effect]) ==
      JoinEffects(lattice, JoinAll(lattice, permits), JoinAll(lattice, pending + [effect]))
    ensures effect.Deny? ==> JoinAll(lattice, all + [effect]) == JoinAll(lattice, all)
  {
    FoldSnoc(lattice, all, effect);
    FoldSnoc(lattice, permits, effect);
    FoldSnoc(lattice, pending, effect);
    JoinShift(lattice, JoinAll(lattice, permits), JoinAll(lattice, pending), effect);
  }

  lemma CompletedSnoc<O>(lattice: Lattice<O>, arms: seq<Residual<O>>, facts: KnownFacts)
    requires arms != []
    ensures CompletedEffects(lattice, arms, facts) ==
      CompletedEffects(lattice, arms[..|arms| - 1], facts) +
      [Completed(lattice, arms[|arms| - 1], facts).effect]
  {
  }

  lemma PermitsSnoc<O>(lattice: Lattice<O>, arms: seq<Residual<O>>, facts: KnownFacts)
    requires arms != [] && ResolvedCoherent(arms[|arms| - 1])
    ensures var n, last := |arms| - 1, arms[|arms| - 1];
      var earlier := PolicyEffects(lattice, ResolvedPermits(arms[..n]), facts);
      PolicyEffects(lattice, ResolvedPermits(arms), facts) ==
        if ResolvedPermit(last) then earlier + [Completed(lattice, last, facts).effect] else earlier
  {
    var n, last := |arms| - 1, arms[|arms| - 1];
    if ResolvedPermit(last) {
      var constant := PolicyFromDecision(last.decision);
      RebuiltConstant(lattice, last.decision, facts);
      OnePolicyEffect(lattice, constant, facts);
      PolicyEffectsAppend(lattice, ResolvedPermits(arms[..n]), [constant], facts);
      assert ResolvedPermits(arms) == ResolvedPermits(arms[..n]) + [constant];
    } else {
      assert ResolvedPermits(arms) == ResolvedPermits(arms[..n]);
    }
  }

  lemma PendingSnoc<O>(lattice: Lattice<O>, arms: seq<Residual<O>>, facts: KnownFacts)
    requires arms != []
    ensures var n, last := |arms| - 1, arms[|arms| - 1];
      var earlier := PolicyEffects(lattice, PendingResiduals(arms[..n]), facts);
      PolicyEffects(lattice, PendingResiduals(arms), facts) ==
        if last.Pending? then earlier + [Completed(lattice, last, facts).effect] else earlier
  {
    var n, last := |arms| - 1, arms[|arms| - 1];
    if last.Pending? {
      OnePolicyEffect(lattice, last.residual, facts);
      PolicyEffectsAppend(lattice, PendingResiduals(arms[..n]), [last.residual], facts);
      assert PendingResiduals(arms) == PendingResiduals(arms[..n]) + [last.residual];
    } else {
      assert PendingResiduals(arms) == PendingResiduals(arms[..n]);
    }
  }

  // Moving resolved permits in front of pending arms keeps the meet of all arms.
  lemma {:induction false} SplitMeet<O(!new)>(lattice: Lattice<O>, arms: seq<Residual<O>>, facts: KnownFacts)
    requires Regular(lattice)
    requires forall arm | arm in arms :: ResolvedCoherent(arm) && !ResolvedDenial(arm)
    ensures MeetAll(lattice, CompletedEffects(lattice, arms, facts)) ==
      MeetEffects(
        lattice,
        MeetAll(lattice, PolicyEffects(lattice, ResolvedPermits(arms), facts)),
        MeetAll(lattice, PolicyEffects(lattice, PendingResiduals(arms), facts)))
  {
    if arms != [] {
      var n, last := |arms| - 1, arms[|arms| - 1];
      SplitMeet(lattice, arms[..n], facts);
      assert last in arms;
      CompletedSnoc(lattice, arms, facts);
      PermitsSnoc(lattice, arms, facts);
      PendingSnoc(lattice, arms, facts);
      MeetStep(
        lattice,
        CompletedEffects(lattice, arms[..n], facts),
        PolicyEffects(lattice, ResolvedPermits(arms[..n]), facts),
        PolicyEffects(lattice, PendingResiduals(arms[..n]), facts),
        Completed(lattice, last, facts).effect);
    }
  }

  // Dropping resolved denials and moving resolved permits forward keeps the join of all arms.
  lemma {:induction false} SplitJoin<O(!new)>(lattice: Lattice<O>, arms: seq<Residual<O>>, facts: KnownFacts)
    requires Regular(lattice)
    requires forall arm | arm in arms :: ResolvedCoherent(arm)
    ensures JoinAll(lattice, CompletedEffects(lattice, arms, facts)) ==
      JoinEffects(
        lattice,
        JoinAll(lattice, PolicyEffects(lattice, ResolvedPermits(arms), facts)),
        JoinAll(lattice, PolicyEffects(lattice, PendingResiduals(arms), facts)))
  {
    if arms != [] {
      var n, last := |arms| - 1, arms[|arms| - 1];
      SplitJoin(lattice, arms[..n], facts);
      assert last in arms;
      CompletedSnoc(lattice, arms, facts);
      PermitsSnoc(lattice, arms, facts);
      PendingSnoc(lattice, arms, facts);
      JoinStep(
        lattice,
        CompletedEffects(lattice, arms[..n], facts),
        PolicyEffects(lattice, ResolvedPermits(arms[..n]), facts),
        PolicyEffects(lattice, PendingResiduals(arms[..n]), facts),
        Completed(lattice, last, facts).effect);
    }
  }

  // ----- effect preservation -----

  lemma ResidualAllEffect<O(!new)>(
      lattice: Lattice<O>, left: seq<ResidualPolicy<O>>, right: seq<ResidualPolicy<O>>, facts: KnownFacts)
    requires Regular(lattice)
    ensures EvalResidual(lattice, ResidualPolicy.All(left + right), facts).result.effect ==
      Settled(MeetEffects(
        lattice,
        MeetAll(lattice, PolicyEffects(lattice, left, facts)),
        MeetAll(lattice, PolicyEffects(lattice, right, facts))))
  {
    PolicyEffectsAppend(lattice, left, right, facts);
    MeetAllAppend(lattice, PolicyEffects(lattice, left, facts), PolicyEffects(lattice, right, facts));
    AllEffect(lattice, left + right, facts);
  }

  lemma ResidualAnyEffect<O(!new)>(
      lattice: Lattice<O>, left: seq<ResidualPolicy<O>>, right: seq<ResidualPolicy<O>>, facts: KnownFacts)
    requires Regular(lattice)
    ensures EvalResidual(lattice, ResidualPolicy.Any(left + right), facts).result.effect ==
      JoinEffects(
        lattice,
        JoinAll(lattice, PolicyEffects(lattice, left, facts)),
        JoinAll(lattice, PolicyEffects(lattice, right, facts)))
  {
    PolicyEffectsAppend(lattice, left, right, facts);
    JoinAllAppend(lattice, PolicyEffects(lattice, left, facts), PolicyEffects(lattice, right, facts));
    AnyEffect(lattice, left + right, facts);
  }

  lemma AllPreserved<O(!new)>(
      lattice: Lattice<O>, arms: seq<Residual<O>>, partial: PartialFacts, facts: KnownFacts)
    requires Regular(lattice)
    requires forall arm | arm in arms :: ResolvedCoherent(arm)
    ensures Completed(lattice, ReduceAll(lattice, arms, partial), facts).effect ==
      Settled(MeetAll(lattice, CompletedEffects(lattice, arms, facts)))
  {
    var k := FirstResolvedDenial(arms);
    var permits, pending := ResolvedPermits(arms), PendingResiduals(arms);
    if k < |arms| {
      DenialAbsorbs(lattice, CompletedEffects(lattice, arms, facts), k);
    } else if arms != [] {
      SplitMeet(lattice, arms, facts);
      var known := if pending == [] then PartialToKnown(partial) else facts;
      ConstantEffects(lattice, arms, facts, known);
      ResidualAllEffect(lattice, permits, pending, known);
      assert pending == [] ==> permits + pending == permits;
    }
  }

  lemma AnyPreserved<O(!new)>(
      lattice: Lattice<O>, arms: seq<Residual<O>>, partial: PartialFacts, facts: KnownFacts)
    requires Regular(lattice)
    requires forall arm | arm in arms :: ResolvedCoherent(arm)
    ensures Completed(lattice, ReduceAny(lattice, arms, partial), facts).effect ==
      JoinAll(lattice, CompletedEffects(lattice, arms, facts))
  {
    var k := FirstResolvedDenial(arms);
    var permits, pending := ResolvedPermits(arms), PendingResiduals(arms);
    SplitJoin(lattice, arms, facts);
    if pending == [] {
      var known := PartialToKnown(partial);
      ConstantEffects(lattice, arms, facts, known);
      ResidualAnyEffect(lattice, permits, [], known);
      assert permits + [] == permits;
    } else if permits == [] && k < |arms| {
      assert arms[k] in arms;
      RebuiltConstant(lattice, arms[k].decision, facts);
      var constants := [PolicyFromDecision(arms[k].decision)];
      assert PolicyEffects(lattice, constants, facts) == [] + [Effect.Deny];
      FoldSnoc(lattice, [], Effect.Deny);
      ResidualAnyEffect(lattice, constants, pending, facts);
    } else {
      ResidualAnyEffect(lattice, permits, pending, facts);
    }
  }

  // Resolved permits are constants: their effects do not depend on the facts.
  lemma {:induction false} ConstantEffects<O>(
      lattice: Lattice<O>, arms: seq<Residual<O>>, left: KnownFacts, right: KnownFacts)
    requires forall arm | arm in arms :: ResolvedCoherent(arm)
    ensures PolicyEffects(lattice, ResolvedPermits(arms), left) ==
      PolicyEffects(lattice, ResolvedPermits(arms), right)
  {
    if arms != [] {
      var n, last := |arms| - 1, arms[|arms| - 1];
      ConstantEffects(lattice, arms[..n], left, right);
      assert last in arms;
      if ResolvedPermit(last) {
        RebuiltConstant(lattice, last.decision, left);
        RebuiltConstant(lattice, last.decision, right);
        PolicyEffectsAppend(lattice, ResolvedPermits(arms[..n]), [PolicyFromDecision(last.decision)], left);
        PolicyEffectsAppend(lattice, ResolvedPermits(arms[..n]), [PolicyFromDecision(last.decision)], right);
      }
    }
  }

  // ----- coherence of what partial evaluation resolves -----

  lemma {:induction false} ReductionCoherent<O>(lattice: Lattice<O>, policy: Policy<O>, facts: PartialFacts)
    ensures ResolvedCoherent(PartialEvaluate(lattice, policy, facts))
    decreases policy, 1
  {
    match policy
    case Grant(clause) => EvaluationCoherent(lattice, policy, PartialToKnown(facts));
    case All(ps) =>
      ArmsReducedCoherent(lattice, ps, facts);
      CombinedCoherent(lattice, PartialEvaluateArms(lattice, ps, facts), facts);
    case Any(ps) =>
      ArmsReducedCoherent(lattice, ps, facts);
      CombinedCoherent(lattice, PartialEvaluateArms(lattice, ps, facts), facts);
    case OrElse(primary, fallback) =>
      ReductionCoherent(lattice, primary, facts);
      ReductionCoherent(lattice, fallback, facts);
    case _ =>
  }

  lemma {:induction false} ArmsReducedCoherent<O>(
      lattice: Lattice<O>, ps: seq<Policy<O>>, facts: PartialFacts)
    ensures forall arm | arm in PartialEvaluateArms(lattice, ps, facts) :: ResolvedCoherent(arm)
    decreases ps, 0
  {
    forall i | 0 <= i < |ps| ensures ResolvedCoherent(PartialEvaluateArms(lattice, ps, facts)[i]) {
      ReductionCoherent(lattice, ps[i], facts);
    }
  }

  lemma CombinedCoherent<O>(lattice: Lattice<O>, arms: seq<Residual<O>>, facts: PartialFacts)
    requires forall arm | arm in arms :: ResolvedCoherent(arm)
    ensures ResolvedCoherent(ReduceAll(lattice, arms, facts))
    ensures ResolvedCoherent(ReduceAny(lattice, arms, facts))
  {
    var permits, known := ResolvedPermits(arms), PartialToKnown(facts);
    ConstantsCoherent(lattice, arms, known);
    SetsCoherent(lattice, permits, known);
    var k := FirstResolvedDenial(arms);
    if k < |arms| {
      assert ResolvedCoherent(arms[k]);
    }
  }

  lemma SetsCoherent<O>(lattice: Lattice<O>, policies: seq<ResidualPolicy<O>>, known: KnownFacts)
    requires AllCoherent(EvalResiduals(lattice, policies, known))
    ensures CoherentDecision(EvaluateResidual(lattice, ResidualPolicy.All(policies), known))
    ensures CoherentDecision(EvaluateResidual(lattice, ResidualPolicy.Any(policies), known))
  {
    var arms := EvalResiduals(lattice, policies, known);
    FoldCoherent(lattice, ByMeet, arms);
    FoldCoherent(lattice, ByJoin, arms);
  }

  lemma {:induction false} ConstantsCoherent<O>(lattice: Lattice<O>, arms: seq<Residual<O>>, known: KnownFacts)
    requires forall arm | arm in arms :: ResolvedCoherent(arm)
    ensures AllCoherent(EvalResiduals(lattice, ResolvedPermits(arms), known))
  {
    if arms != [] {
      var n, last := |arms| - 1, arms[|arms| - 1];
      ConstantsCoherent(lattice, arms[..n], known);
      assert last in arms;
      if ResolvedPermit(last) {
        RebuiltConstant(lattice, last.decision, known);
        var permits, earlier := ResolvedPermits(arms), ResolvedPermits(arms[..n]);
        forall i | 0 <= i < |permits| ensures Coherent(EvalResiduals(lattice, permits, known)[i].result) {
          if i < |earlier| {
            assert permits[i] == earlier[i];
            assert Coherent(EvalResiduals(lattice, earlier, known)[i].result);
          }
        }
      }
    }
  }

  // ----- main results -----

  // Completing the partial result gives the effect of direct evaluation, for every lattice whose
  // meet and join commute and associate, although arms are reordered and collapsed.
  lemma EffectPreserved<O(!new)>(
      lattice: Lattice<O>, policy: Policy<O>, partial: PartialFacts, facts: KnownFacts)
    requires Regular(lattice) && Completes(facts, partial)
    ensures CompleteResidual(lattice, PartialEvaluate(lattice, policy, partial), facts).effect ==
      Evaluate(lattice, policy, facts).effect
  {
    CompletionPreservesEffect(lattice, policy, partial, facts);
  }

  lemma {:induction false} CompletionPreservesEffect<O(!new)>(
      lattice: Lattice<O>, policy: Policy<O>, partial: PartialFacts, facts: KnownFacts)
    requires Regular(lattice) && Completes(facts, partial)
    ensures Completed(lattice, PartialEvaluate(lattice, policy, partial), facts).effect ==
      EvalPolicy(lattice, policy, facts).result.effect
    decreases policy, 1
  {
    match policy
    case Grant(clause) => GrantPreserved(lattice, clause, partial, facts);
    case All(ps) =>
      ArmsReducedCoherent(lattice, ps, partial);
      ArmsPreserveEffects(lattice, ps, partial, facts);
      AllPreserved(lattice, PartialEvaluateArms(lattice, ps, partial), partial, facts);
      AllFolds(lattice, EvalPolicies(lattice, ps, facts));
    case Any(ps) =>
      ArmsReducedCoherent(lattice, ps, partial);
      ArmsPreserveEffects(lattice, ps, partial, facts);
      AnyPreserved(lattice, PartialEvaluateArms(lattice, ps, partial), partial, facts);
      AnyFolds(lattice, EvalPolicies(lattice, ps, facts));
    case OrElse(primary, fallback) =>
      CompletionPreservesEffect(lattice, primary, partial, facts);
      CompletionPreservesEffect(lattice, fallback, partial, facts);
      ReductionCoherent(lattice, fallback, partial);
      OrElsePreserved(
        lattice, PartialEvaluate(lattice, primary, partial), PartialEvaluate(lattice, fallback, partial), facts);
    case _ =>
  }

  lemma GrantPreserved<O>(lattice: Lattice<O>, clause: Clause<O>, partial: PartialFacts, facts: KnownFacts)
    requires Completes(facts, partial)
    ensures Completed(lattice, ReduceGrant(lattice, clause, partial), facts).effect ==
      EvalGrant(clause, facts).result.effect
  {
    ReadingHolds(clause.condition, facts);
    CR.ReductionAgrees(clause.condition, partial, facts);
    match CR.ReduceCondition(clause.condition, partial)
    case Known(_, _) =>
      ReadingHolds(clause.condition, PartialToKnown(partial));
      CR.ReductionAgrees(clause.condition, partial, PartialToKnown(partial));
    case Pending(residual, _) =>
      ReadingHolds(residual, facts);
  }

  lemma OrElsePreserved<O>(
      lattice: Lattice<O>, primary: Residual<O>, fallback: Residual<O>, facts: KnownFacts)
    requires ResolvedCoherent(fallback)
    ensures Completed(lattice, ReduceOrElse(primary, fallback), facts).effect ==
      var first := Completed(lattice, primary, facts).effect;
      if first.Permit? then first else Completed(lattice, fallback, facts).effect
  {
    if fallback.Resolved? {
      RebuiltConstant(lattice, fallback.decision, facts);
    }
  }

  lemma {:induction false} ArmsPreserveEffects<O(!new)>(
      lattice: Lattice<O>, ps: seq<Policy<O>>, partial: PartialFacts, facts: KnownFacts)
    requires Regular(lattice) && Completes(facts, partial)
    ensures CompletedEffects(lattice, PartialEvaluateArms(lattice, ps, partial), facts) ==
      Effects(EvalPolicies(lattice, ps, facts))
    decreases ps, 0
  {
    forall i | 0 <= i < |ps|
      ensures Completed(lattice, PartialEvaluateArms(lattice, ps, partial)[i], facts).effect ==
        EvalPolicies(lattice, ps, facts)[i].result.effect
    {
      CompletionPreservesEffect(lattice, ps[i], partial, facts);
    }
  }
}
