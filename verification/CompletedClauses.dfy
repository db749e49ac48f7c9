/** Which of a policy's own grants a completed decision reports. */
module CompletedClauses {
  import opened Wrappers
  import opened Facts
  import opened Policies
  import opened Consulting
  import opened Conditions
  import opened Evaluation
  import opened Semantics
  import opened PartialEvaluation
  import opened PartialProofs
  import opened PartialPermission
  import opened DecisiveClauses
  import CR = ConditionReduction

  // The grant that a completed denial is blamed on. A denial already certain goes in front of pending
  // arms, in an `all` because it decides and in an `any` because it is kept as the first arm.
  ghost function CompletedBlamed<O>(
      lattice: Lattice<O>, policy: Policy<O>, partial: PartialFacts, facts: KnownFacts)
    : Option<Clause<O>>
  {
    match policy
    case Grant(clause) => Some(clause)
    case All(arms) =>
      var k, j := FirstResolvedDenial(PartialEvaluateArms(lattice, arms, partial)), FirstRefusing(arms, facts);
      if k < |arms| then CompletedBlamed(lattice, arms[k], partial, facts)
      else if j < |arms| then CompletedBlamed(lattice, arms[j], partial, facts)
      else None
    case Any(arms) =>
      var k := FirstResolvedDenial(PartialEvaluateArms(lattice, arms, partial));
      if arms == [] then None
      else CompletedBlamed(lattice, arms[if k < |arms| then k else 0], partial, facts)
    case OrElse(_, fallback) => CompletedBlamed(lattice, fallback, partial, facts)
    case _ => None
  }

  // The denial reports the blamed grant's outcome, label, reason and shape.
  ghost predicate Reports<O>(result: EvalResult<O>, blamed: Option<Clause<O>>) {
    && result.effect.Deny? && result.obligations == [] && result.decisive.Deny?
    && match blamed
       case None => result.decisive == DecisiveClause.Deny(None, [], None, None, Forbidden)
       case Some(clause) =>
         && result.decisive.denied == Some(clause.outcome)
         && result.decisive.clauseLabel == clause.clauseLabel
         && result.decisive.reason == clause.reason
         && result.decisive.shape == clause.denyShape
  }

  // ----- the first denial among the arms -----

  function FirstDenied<O>(arms: seq<Arm<O>>): Option<EvalResult<O>> {
    if arms == [] then None
    else
      var earlier, last := FirstDenied(arms[..|arms| - 1]), arms[|arms| - 1].result;
      if earlier.Some? then earlier else if last.effect.Deny? then Some(last) else None
  }

  lemma {:induction false} FirstDeniedAt<O>(arms: seq<Arm<O>>, k: nat)
    requires k < |arms| && arms[k].result.effect.Deny?
    requires forall i | 0 <= i < k :: arms[i].result.effect.Permit?
    ensures FirstDenied(arms) == Some(arms[k].result)
  {
    var n := |arms| - 1;
    if k < n {
      FirstDeniedAt(arms[..n], k);
    } else {
      NoneDenied(arms[..n]);
    }
  }

  lemma {:induction false} NoneDenied<O>(arms: seq<Arm<O>>)
    requires forall i | 0 <= i < |arms| :: arms[i].result.effect.Permit?
    ensures FirstDenied(arms) == None
  {
    if arms != [] {
      NoneDenied(arms[..|arms| - 1]);
    }
  }

  lemma AllReportsFirstDenied<O>(lattice: Lattice<O>, arms: seq<Arm<O>>)
    requires arms != []
    ensures FirstDenied(arms).Some? ==> AllOfArms(lattice, arms).result == FirstDenied(arms).value
    ensures FirstDenied(arms).None? ==> AllOfArms(lattice, arms).result.effect.Permit?
  {
    var k := FirstDeny(arms);
    if k < |arms| {
      FirstDeniedAt(arms, k);
    } else {
      NoneDenied(arms);
      AllPermitsIff(lattice, arms);
    }
  }

  lemma {:induction false} FirstDeniedAppend<O>(left: seq<Arm<O>>, right: seq<Arm<O>>)
    ensures FirstDenied(left + right) == if FirstDenied(left).Some? then FirstDenied(left) else FirstDenied(right)
  {
    if right == [] {
      assert left + right == left;
    } else {
      var most := right[..|right| - 1];
      FirstDeniedAppend(left, most);
      assert (left + right)[..|left + right| - 1] == left + most;
    }
  }

  ghost function FirstPendingDenied<O>(lattice: Lattice<O>, arms: seq<Residual<O>>, facts: KnownFacts)
    : Option<EvalResult<O>>
  {
    if arms == [] then None
    else
      var earlier, last := FirstPendingDenied(lattice, arms[..|arms| - 1], facts), arms[|arms| - 1];
      if earlier.Some? then earlier
      else if last.Pending? && Completed(lattice, last, facts).effect.Deny? then Some(Completed(lattice, last, facts))
      else None
  }

  lemma EvaluatedSnoc<O>(
      lattice: Lattice<O>, policies: seq<ResidualPolicy<O>>, last: ResidualPolicy<O>, facts: KnownFacts)
    ensures EvalResiduals(lattice, policies + [last], facts) ==
      EvalResiduals(lattice, policies, facts) + [EvalResidual(lattice, last, facts)]
  {
  }

  lemma FirstDeniedSnoc<O>(arms: seq<Arm<O>>, last: Arm<O>)
    ensures FirstDenied(arms + [last]) ==
      if FirstDenied(arms).Some? then FirstDenied(arms)
      else if last.result.effect.Deny? then Some(last.result) else None
  {
    assert (arms + [last])[..|arms|] == arms;
  }

  lemma {:induction false} PendingDenied<O>(lattice: Lattice<O>, arms: seq<Residual<O>>, facts: KnownFacts)
    ensures FirstDenied(EvalResiduals(lattice, PendingResiduals(arms), facts)) ==
      FirstPendingDenied(lattice, arms, facts)
  {
    if arms != [] {
      var n := |arms| - 1;
      PendingDenied(lattice, arms[..n], facts);
      if arms[n].Pending? {
        var earlier := PendingResiduals(arms[..n]);
        EvaluatedSnoc(lattice, earlier, arms[n].residual, facts);
        FirstDeniedSnoc(EvalResiduals(lattice, earlier, facts), EvalResidual(lattice, arms[n].residual, facts));
      }
    }
  }

  lemma {:induction false} ConstantsDenyNothing<O>(lattice: Lattice<O>, arms: seq<Residual<O>>, facts: KnownFacts)
    requires forall arm | arm in arms :: ResolvedCoherent(arm)
    ensures FirstDenied(EvalResiduals(lattice, ResolvedPermits(arms), facts)) == None
  {
    if arms != [] {
      var n := |arms| - 1;
      var last := arms[n];
      assert last in arms;
      ConstantsDenyNothing(lattice, arms[..n], facts);
      if ResolvedPermit(last) {
        var earlier := ResolvedPermits(arms[..n]);
        RebuiltConstant(lattice, last.decision, facts);
        EvaluatedSnoc(lattice, earlier, PolicyFromDecision(last.decision), facts);
        FirstDeniedSnoc(
          EvalResiduals(lattice, earlier, facts), EvalResidual(lattice, PolicyFromDecision(last.decision), facts));
      }
    }
  }

  lemma {:induction false} FirstPendingDeniedAt<O>(
      lattice: Lattice<O>, arms: seq<Residual<O>>, facts: KnownFacts, j: nat)
    requires j < |arms| && arms[j].Pending? && Completed(lattice, arms[j], facts).effect.Deny?
    requires forall i | 0 <= i < j :: Completed(lattice, arms[i], facts).effect.Permit?
    ensures FirstPendingDenied(lattice, arms, facts) == Some(Completed(lattice, arms[j], facts))
  {
    var n := |arms| - 1;
    if j < n {
      FirstPendingDeniedAt(lattice, arms[..n], facts, j);
    } else {
      NonePendingDenied(lattice, arms[..n], facts);
    }
  }

  lemma {:induction false} NonePendingDenied<O>(lattice: Lattice<O>, arms: seq<Residual<O>>, facts: KnownFacts)
    requires forall i | 0 <= i < |arms| :: Completed(lattice, arms[i], facts).effect.Permit?
    ensures FirstPendingDenied(lattice, arms, facts) == None
  {
    if arms != [] {
      NonePendingDenied(lattice, arms[..|arms| - 1], facts);
    }
  }

  lemma EvaluatedAppend<O>(
      lattice: Lattice<O>, left: seq<ResidualPolicy<O>>, right: seq<ResidualPolicy<O>>, facts: KnownFacts)
    ensures EvalResiduals(lattice, left + right, facts) ==
      EvalResiduals(lattice, left, facts) + EvalResiduals(lattice, right, facts)
  {
  }

  // ----- completed sets -----

  // A completed `all` reports its first certain denial, else its first arm that denies after all.
  lemma CompletedAllReports<O>(
      lattice: Lattice<O>, arms: seq<Residual<O>>, partial: PartialFacts, facts: KnownFacts, j: nat)
    requires forall arm | arm in arms :: ResolvedCoherent(arm)
    requires j < |arms| && Completed(lattice, arms[j], facts).effect.Deny?
    requires forall i | 0 <= i < j :: Completed(lattice, arms[i], facts).effect.Permit?
    ensures var k := FirstResolvedDenial(arms);
      Completed(lattice, ReduceAll(lattice, arms, partial), facts) ==
        Completed(lattice, arms[if k < |arms| then k else j], facts)
  {
    var k := FirstResolvedDenial(arms);
    if k == |arms| {
      assert !ResolvedDenial(arms[j]) && arms[j].Pending?;
      PendingMembers(arms);
      assert arms[j] in arms;
      CompletedKeptAll(lattice, arms, partial, facts);
      FirstPendingDeniedAt(lattice, arms, facts, j);
    }
  }

  lemma CompletedKeptAll<O>(
      lattice: Lattice<O>, arms: seq<Residual<O>>, partial: PartialFacts, facts: KnownFacts)
    requires forall arm | arm in arms :: ResolvedCoherent(arm)
    requires FirstResolvedDenial(arms) == |arms| && PendingResiduals(arms) != []
    ensures var denied := FirstPendingDenied(lattice, arms, facts);
      denied.Some? ==> Completed(lattice, ReduceAll(lattice, arms, partial), facts) == denied.value
  {
    var permits, pending := ResolvedPermits(arms), PendingResiduals(arms);
    var evaluated := EvalResiduals(lattice, permits + pending, facts);
    KeptAllEvaluates(lattice, arms, partial, facts);
    EvaluatedAppend(lattice, permits, pending, facts);
    FirstDeniedAppend(EvalResiduals(lattice, permits, facts), EvalResiduals(lattice, pending, facts));
    ConstantsDenyNothing(lattice, arms, facts);
    PendingDenied(lattice, arms, facts);
    AllReportsFirstDenied(lattice, evaluated);
  }

  lemma {:induction false} KeptAllEvaluates<O>(
      lattice: Lattice<O>, arms: seq<Residual<O>>, partial: PartialFacts, facts: KnownFacts)
    requires FirstResolvedDenial(arms) == |arms| && PendingResiduals(arms) != []
    ensures var policies := ResolvedPermits(arms) + PendingResiduals(arms);
      Completed(lattice, ReduceAll(lattice, arms, partial), facts) ==
        AllOfArms(lattice, EvalResiduals(lattice, policies, facts)).result
  {
    KeptAllShape(lattice, arms, partial);
  }

  lemma {:induction false} KeptAllShape<O>(lattice: Lattice<O>, arms: seq<Residual<O>>, partial: PartialFacts)
    requires FirstResolvedDenial(arms) == |arms| && PendingResiduals(arms) != []
    ensures ReduceAll(lattice, arms, partial) ==
      Pending(ResidualPolicy.All(ResolvedPermits(arms) + PendingResiduals(arms)), MergedConsulted(arms))
  {
  }

  lemma {:induction false} PendingAnyShape<O>(lattice: Lattice<O>, arms: seq<Residual<O>>, partial: PartialFacts)
    requires FirstResolvedDenial(arms) == |arms| && ResolvedPermits(arms) == [] && PendingResiduals(arms) != []
    ensures ReduceAny(lattice, arms, partial) ==
      Pending(ResidualPolicy.Any(PendingResiduals(arms)), MergedConsulted(arms))
  {
    assert ResolvedPermits(arms) + PendingResiduals(arms) == PendingResiduals(arms);
  }

  lemma {:induction false} NoPermitNoConstant<O>(arms: seq<Residual<O>>)
    requires forall i | 0 <= i < |arms| :: !ResolvedPermit(arms[i])
    ensures ResolvedPermits(arms) == []
  {
    if arms != [] {
      NoPermitNoConstant(arms[..|arms| - 1]);
    }
  }

  lemma {:induction false} AllPendingHead<O>(arms: seq<Residual<O>>)
    requires arms != [] && forall i | 0 <= i < |arms| :: arms[i].Pending?
    ensures PendingResiduals(arms) != [] && PendingResiduals(arms)[0] == arms[0].residual
  {
    var n := |arms| - 1;
    if n == 0 {
      assert arms[..0] == [];
    } else {
      AllPendingHead(arms[..n]);
    }
  }

  lemma FirstOfAny<O>(
      lattice: Lattice<O>, policies: seq<ResidualPolicy<O>>, facts: KnownFacts)
    requires policies != [] && AnyOfArms(lattice, EvalResiduals(lattice, policies, facts)).result.effect.Deny?
    ensures AnyOfArms(lattice, EvalResiduals(lattice, policies, facts)).result ==
      EvalResult(Effect.Deny, [], EvalResidual(lattice, policies[0], facts).result.decisive)
  {
    AnyBlamesItsFirst(lattice, EvalResiduals(lattice, policies, facts));
  }

  // A completed `any` that denies reports its first certain denial, else its first arm.
  lemma CompletedAnyReports<O>(
      lattice: Lattice<O>, arms: seq<Residual<O>>, partial: PartialFacts, facts: KnownFacts)
    requires arms != [] && forall arm | arm in arms :: ResolvedCoherent(arm)
    requires forall i | 0 <= i < |arms| :: Completed(lattice, arms[i], facts).effect.Deny?
    requires Completed(lattice, ReduceAny(lattice, arms, partial), facts).effect.Deny?
    ensures
      var k, result := FirstResolvedDenial(arms), Completed(lattice, ReduceAny(lattice, arms, partial), facts);
      result.obligations == [] &&
      result.decisive == Completed(lattice, arms[if k < |arms| then k else 0], facts).decisive
  {
    var k := FirstResolvedDenial(arms);
    NoPermitNoConstant(arms);
    if k < |arms| {
      assert arms[k] in arms;
      KeptDenialReports(lattice, arms, partial, facts, k);
    } else {
      forall i | 0 <= i < |arms| ensures arms[i].Pending? {
        assert !ResolvedDenial(arms[i]) && !ResolvedPermit(arms[i]);
      }
      AllPendingHead(arms);
      AllPendingReports(lattice, arms, partial, facts);
    }
  }

  lemma {:induction false} AllPendingReports<O>(
      lattice: Lattice<O>, arms: seq<Residual<O>>, partial: PartialFacts, facts: KnownFacts)
    requires arms != [] && FirstResolvedDenial(arms) == |arms| && ResolvedPermits(arms) == []
    requires PendingResiduals(arms) != [] && arms[0].Pending? && arms[0].residual == PendingResiduals(arms)[0]
    requires Completed(lattice, ReduceAny(lattice, arms, partial), facts).effect.Deny?
    ensures var result := Completed(lattice, ReduceAny(lattice, arms, partial), facts);
      result == EvalResult(Effect.Deny, [], Completed(lattice, arms[0], facts).decisive)
  {
    PendingAnyShape(lattice, arms, partial);
    FirstOfAny(lattice, PendingResiduals(arms), facts);
  }

  lemma {:induction false} KeptDenialReports<O>(
      lattice: Lattice<O>, arms: seq<Residual<O>>, partial: PartialFacts, facts: KnownFacts, k: nat)
    requires k == FirstResolvedDenial(arms) < |arms| && ResolvedPermits(arms) == []
    requires ResolvedCoherent(arms[k])
    requires Completed(lattice, ReduceAny(lattice, arms, partial), facts).effect.Deny?
    ensures var result := Completed(lattice, ReduceAny(lattice, arms, partial), facts);
      result == EvalResult(Effect.Deny, [], Completed(lattice, arms[k], facts).decisive)
  {
    var pending, kept := PendingResiduals(arms), PolicyFromDecision(arms[k].decision);
    if pending == [] {
      assert ReduceAny(lattice, arms, partial) == Resolved(WithConsulted(arms[k].decision, MergedConsulted(arms)));
    } else {
      assert ReduceAny(lattice, arms, partial) == Pending(ResidualPolicy.Any([kept] + pending), MergedConsulted(arms));
      RebuiltConstant(lattice, arms[k].decision, facts);
      FirstOfAny(lattice, [kept] + pending, facts);
    }
  }

  // ----- completed policies -----

  lemma PermitsAsCompleted<O>(lattice: Lattice<O>, policy: Policy<O>, partial: PartialFacts, facts: KnownFacts)
    requires Completes(facts, partial)
    ensures Completed(lattice, PartialEvaluate(lattice, policy, partial), facts).effect.Permit? <==>
      PolicyPermits(policy, facts)
  {
    PermissionPreserved(lattice, policy, partial, facts);
    var reduced := PartialEvaluate(lattice, policy, partial);
    if reduced.Pending? {
      ResidualPermissionMeaning(lattice, reduced.residual, facts);
    }
  }

  // A completed denial reports the grant it is blamed on, or the generic denial.
  lemma {:induction false} CompletionReports<O>(
      lattice: Lattice<O>, policy: Policy<O>, partial: PartialFacts, facts: KnownFacts)
    requires Completes(facts, partial) && !PolicyPermits(policy, facts)
    ensures Reports(
      Completed(lattice, PartialEvaluate(lattice, policy, partial), facts),
      CompletedBlamed(lattice, policy, partial, facts))
    decreases policy, 1
  {
    PermitsAsCompleted(lattice, policy, partial, facts);
    match policy
    case Grant(clause) => GrantReportsItself(lattice, clause, partial, facts);
    case All(ps) =>
      ArmsReducedCoherent(lattice, ps, partial);
      CompletedAllBlamed(lattice, ps, partial, facts);
    case Any(ps) =>
      ArmsReducedCoherent(lattice, ps, partial);
      CompletedAnyBlamed(lattice, ps, partial, facts);
    case OrElse(primary, fallback) =>
      CompletionReports(lattice, fallback, partial, facts);
      EitherReports(lattice, primary, fallback, partial, facts);
    case _ =>
  }

  lemma GrantReportsItself<O>(lattice: Lattice<O>, clause: Clause<O>, partial: PartialFacts, facts: KnownFacts)
    requires Completed(lattice, ReduceGrant(lattice, clause, partial), facts).effect.Deny?
    ensures Reports(Completed(lattice, ReduceGrant(lattice, clause, partial), facts), Some(clause))
  {
  }

  lemma {:induction false} CompletedAllBlamed<O>(
      lattice: Lattice<O>, ps: seq<Policy<O>>, partial: PartialFacts, facts: KnownFacts)
    requires Completes(facts, partial) && !PolicyPermits(Policy.All(ps), facts)
    requires forall arm | arm in PartialEvaluateArms(lattice, ps, partial) :: ResolvedCoherent(arm)
    ensures Reports(
      Completed(lattice, PartialEvaluate(lattice, Policy.All(ps), partial), facts),
      CompletedBlamed(lattice, Policy.All(ps), partial, facts))
    decreases ps, 0
  {
    var arms, j := PartialEvaluateArms(lattice, ps, partial), FirstRefusing(ps, facts);
    if ps != [] {
      forall i | 0 <= i < |ps|
        ensures Completed(lattice, arms[i], facts).effect.Permit? <==> PolicyPermits(ps[i], facts)
      {
        PermitsAsCompleted(lattice, ps[i], partial, facts);
      }
      assert j < |ps|;
      var k := FirstResolvedDenial(arms);
      var blamed := if k < |arms| then k else j;
      CompletedAllReports(lattice, arms, partial, facts, j);
      CompletionReports(lattice, ps[blamed], partial, facts);
    }
  }

  lemma {:induction false} CompletedAnyBlamed<O>(
      lattice: Lattice<O>, ps: seq<Policy<O>>, partial: PartialFacts, facts: KnownFacts)
    requires Completes(facts, partial) && !PolicyPermits(Policy.Any(ps), facts)
    requires forall arm | arm in PartialEvaluateArms(lattice, ps, partial) :: ResolvedCoherent(arm)
    ensures Reports(
      Completed(lattice, PartialEvaluate(lattice, Policy.Any(ps), partial), facts),
      CompletedBlamed(lattice, Policy.Any(ps), partial, facts))
    decreases ps, 0
  {
    var arms := PartialEvaluateArms(lattice, ps, partial);
    if ps != [] {
      forall i | 0 <= i < |ps| ensures Completed(lattice, arms[i], facts).effect.Deny? {
        PermitsAsCompleted(lattice, ps[i], partial, facts);
      }
      PermitsAsCompleted(lattice, Policy.Any(ps), partial, facts);
      var k := FirstResolvedDenial(arms);
      CompletedAnyReports(lattice, arms, partial, facts);
      CompletionReports(lattice, ps[if k < |arms| then k else 0], partial, facts);
    }
  }

  lemma EitherReports<O>(
      lattice: Lattice<O>, primary: Policy<O>, fallback: Policy<O>, partial: PartialFacts, facts: KnownFacts)
    requires Completes(facts, partial) && !PolicyPermits(Policy.OrElse(primary, fallback), facts)
    ensures
      Completed(lattice, PartialEvaluate(lattice, Policy.OrElse(primary, fallback), partial), facts) ==
      Completed(lattice, PartialEvaluate(lattice, fallback, partial), facts)
  {
    var first, second := PartialEvaluate(lattice, primary, partial), PartialEvaluate(lattice, fallback, partial);
    PermitsAsCompleted(lattice, primary, partial, facts);
    ReductionCoherent(lattice, fallback, partial);
    FallbackReports(lattice, first, second, facts);
  }

  lemma FallbackReports<O>(lattice: Lattice<O>, first: Residual<O>, second: Residual<O>, facts: KnownFacts)
    requires Completed(lattice, first, facts).effect.Deny? && ResolvedCoherent(second)
    ensures Completed(lattice, ReduceOrElse(first, second), facts) == Completed(lattice, second, facts)
  {
    if first.Pending? {
      var last := if second.Resolved? then PolicyFromDecision(second.decision) else second.residual;
      assert EvalResidual(lattice, last, facts).result == Completed(lattice, second, facts) by {
        if second.Resolved? {
          RebuiltConstant(lattice, second.decision, facts);
        }
      }
    }
  }

  // The grant blamed is the policy's own, and its condition does not hold.
  lemma {:induction false} CompletedBlamedIsOwn<O>(
      lattice: Lattice<O>, policy: Policy<O>, partial: PartialFacts, facts: KnownFacts)
    requires Completes(facts, partial) && !PolicyPermits(policy, facts)
    requires CompletedBlamed(lattice, policy, partial, facts).Some?
    ensures var clause := CompletedBlamed(lattice, policy, partial, facts).value;
      Owns(policy, clause) && !Holds(clause.condition, facts)
  {
    match policy
    case All(ps) =>
      var arms, j := PartialEvaluateArms(lattice, ps, partial), FirstRefusing(ps, facts);
      var k := FirstResolvedDenial(arms);
      var i := if k < |arms| then k else j;
      if k < |arms| {
        PermitsAsCompleted(lattice, ps[k], partial, facts);
      }
      CompletedBlamedIsOwn(lattice, ps[i], partial, facts);
    case Any(ps) =>
      var k := FirstResolvedDenial(PartialEvaluateArms(lattice, ps, partial));
      CompletedBlamedIsOwn(lattice, ps[if k < |ps| then k else 0], partial, facts);
    case OrElse(_, fallback) => CompletedBlamedIsOwn(lattice, fallback, partial, facts);
    case _ =>
  }

  lemma TwoGrantsRefused<O>(lattice: Lattice<O>, first: Clause<O>, second: Clause<O>, partial: PartialFacts)
    requires ReduceGrant(lattice, first, partial).Pending? && ResolvedDenial(ReduceGrant(lattice, second, partial))
    ensures FirstResolvedDenial(
      PartialEvaluateArms(lattice, [Policy.Grant(first), Policy.Grant(second)], partial)) == 1
  {
    var arms := PartialEvaluateArms(lattice, [Policy.Grant(first), Policy.Grant(second)], partial);
    assert arms[0] == ReduceGrant(lattice, first, partial) && arms[1] == ReduceGrant(lattice, second, partial);
  }

  lemma TwoGrantsBlamed<O>(
      lattice: Lattice<O>, first: Clause<O>, second: Clause<O>, partial: PartialFacts, facts: KnownFacts)
    requires !Holds(first.condition, facts)
    requires ReduceGrant(lattice, first, partial).Pending? && ResolvedDenial(ReduceGrant(lattice, second, partial))
    ensures var both := [Policy.Grant(first), Policy.Grant(second)];
      && Blamed(Policy.All(both), facts) == Blamed(Policy.Any(both), facts) == Some(first)
      && CompletedBlamed(lattice, Policy.All(both), partial, facts) == Some(second)
      && CompletedBlamed(lattice, Policy.Any(both), partial, facts) == Some(second)
  {
    var both := [Policy.Grant(first), Policy.Grant(second)];
    TwoGrantsRefused(lattice, first, second, partial);
    assert !PolicyPermits(both[0], facts);
    assert Blamed(both[0], facts) == Some(first) && FirstRefusing(both, facts) == 0;
    assert CompletedBlamed(lattice, both[1], partial, facts) == Some(second);
  }

  // A pending grant before one that is certain to deny: should the first deny after all, direct
  // evaluation blames it, while the completed decision blames the second.
  lemma CompletionCanBlameAnother<O>(
      lattice: Lattice<O>, first: Clause<O>, second: Clause<O>, partial: PartialFacts, facts: KnownFacts)
    requires Completes(facts, partial) && !Holds(first.condition, facts)
    requires ReduceGrant(lattice, first, partial).Pending? && ResolvedDenial(ReduceGrant(lattice, second, partial))
    ensures var both := [Policy.Grant(first), Policy.Grant(second)];
      && BlamesApart(lattice, Policy.All(both), first, second, partial, facts)
      && BlamesApart(lattice, Policy.Any(both), first, second, partial, facts)
  {
    var both := [Policy.Grant(first), Policy.Grant(second)];
    TwoGrantsBlamed(lattice, first, second, partial, facts);
    PermitsAsCompleted(lattice, both[1], partial, facts);
    assert !PolicyPermits(both[0], facts) && !PolicyPermits(both[1], facts);
    DenialBlames(lattice, Policy.All(both), facts);
    DenialBlames(lattice, Policy.Any(both), facts);
    CompletionReports(lattice, Policy.All(both), partial, facts);
    CompletionReports(lattice, Policy.Any(both), partial, facts);
  }

  ghost predicate BlamesApart<O>(
      lattice: Lattice<O>, policy: Policy<O>, direct: Clause<O>, completed: Clause<O>, partial: PartialFacts,
      facts: KnownFacts)
  {
    && Blames(EvalPolicy(lattice, policy, facts).result, Some(direct), facts)
    && Reports(Completed(lattice, PartialEvaluate(lattice, policy, partial), facts), Some(completed))
  }
}
