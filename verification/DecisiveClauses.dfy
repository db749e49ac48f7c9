/** Which of a policy's own grants a decision reports, and with which label, reason and shape. */
module DecisiveClauses {
  import opened Wrappers
  import opened Facts
  import opened Policies
  import opened Consulting
  import opened Conditions
  import opened Evaluation
  import opened Semantics

  // The clause is one of the policy's own grants.
  ghost predicate Owns<O>(policy: Policy<O>, clause: Clause<O>) {
    match policy
    case Grant(own) => own == clause
    case All(arms) => exists i | 0 <= i < |arms| :: Owns(arms[i], clause)
    case Any(arms) => exists i | 0 <= i < |arms| :: Owns(arms[i], clause)
    case OrElse(primary, fallback) => Owns(primary, clause) || Owns(fallback, clause)
    case _ => false
  }

  // ----- denials -----

  // The position of the first arm that does not permit.
  function FirstRefusing<O>(arms: seq<Policy<O>>, facts: KnownFacts): (k: nat)
    ensures k <= |arms|
    ensures forall i | 0 <= i < k :: PolicyPermits(arms[i], facts)
    ensures k < |arms| ==> !PolicyPermits(arms[k], facts)
  {
    if arms == [] || !PolicyPermits(arms[0], facts) then 0 else 1 + FirstRefusing(arms[1..], facts)
  }

  // The grant a denial is blamed on: in an `all` below its first refusing arm, in an `any` below its
  // first arm, in an alternative below the fallback. Constants and empty sets blame nothing.
  function Blamed<O>(policy: Policy<O>, facts: KnownFacts): Option<Clause<O>> {
    match policy
    case Grant(clause) => Some(clause)
    case All(arms) =>
      var k := FirstRefusing(arms, facts);
      if k < |arms| then Blamed(arms[k], facts) else None
    case Any(arms) => if arms == [] then None else Blamed(arms[0], facts)
    case OrElse(_, fallback) => Blamed(fallback, facts)
    case _ => None
  }

  // The denial reports the blamed grant's outcome, label, reason and shape.
  ghost predicate Blames<O>(result: EvalResult<O>, blamed: Option<Clause<O>>, facts: KnownFacts) {
    && result.effect.Deny? && result.obligations == [] && result.decisive.Deny?
    && match blamed
       case None => result.decisive == DecisiveClause.Deny(None, [], None, None, Forbidden)
       case Some(clause) =>
         && result.decisive.denied == Some(clause.outcome)
         && result.decisive.clauseLabel == clause.clauseLabel
         && result.decisive.reason == clause.reason
         && result.decisive.shape == clause.denyShape
         && result.decisive.unsatisfied == EvalCondition(clause.condition, facts).decisive
  }

  lemma {:induction false} BlamedIsOwn<O>(policy: Policy<O>, facts: KnownFacts)
    requires !PolicyPermits(policy, facts) && Blamed(policy, facts).Some?
    ensures Owns(policy, Blamed(policy, facts).value)
    ensures !Holds(Blamed(policy, facts).value.condition, facts)
  {
    match policy
    case All(arms) => BlamedIsOwn(arms[FirstRefusing(arms, facts)], facts);
    case Any(arms) => BlamedIsOwn(arms[0], facts);
    case OrElse(_, fallback) => BlamedIsOwn(fallback, facts);
    case _ =>
  }

  lemma FirstRefusalDenies<O>(lattice: Lattice<O>, ps: seq<Policy<O>>, facts: KnownFacts)
    ensures FirstDeny(EvalPolicies(lattice, ps, facts)) == FirstRefusing(ps, facts)
  {
    var arms := EvalPolicies(lattice, ps, facts);
    forall i | 0 <= i < |ps| ensures arms[i].result.effect.Permit? <==> PolicyPermits(ps[i], facts) {
      PermissionMeaning(lattice, ps[i], facts);
      assert Permits(EvalPolicy(lattice, ps[i], facts)) <==> arms[i].result.effect.Permit?;
    }
  }

  lemma AnyBlamesItsFirst<O>(lattice: Lattice<O>, arms: seq<Arm<O>>)
    requires !Permits(AnyOfArms(lattice, arms))
    ensures var result := AnyOfArms(lattice, arms).result;
      result == EvalResult(Effect.Deny, [], if arms == [] then GenericDeny<O>().decisive else arms[0].result.decisive)
  {
    FoldSomeIff(lattice, ByJoin, arms);
    if arms != [] {
      assert !Permits(arms[0]);
      assert FirstDeny(arms) == 0;
    }
  }

  // A denial reports the grant it is blamed on, or the generic denial.
  lemma {:induction false} DenialBlames<O>(lattice: Lattice<O>, policy: Policy<O>, facts: KnownFacts)
    requires !PolicyPermits(policy, facts)
    ensures Blames(EvalPolicy(lattice, policy, facts).result, Blamed(policy, facts), facts)
  {
    PermissionMeaning(lattice, policy, facts);
    match policy
    case Grant(clause) => ReadingHolds(clause.condition, facts);
    case All(ps) =>
      var k := FirstRefusing(ps, facts);
      FirstRefusalDenies(lattice, ps, facts);
      if k < |ps| {
        DenialBlames(lattice, ps[k], facts);
      }
    case Any(ps) =>
      AnyBlamesItsFirst(lattice, EvalPolicies(lattice, ps, facts));
      if ps != [] {
        DenialBlames(lattice, ps[0], facts);
      }
    case OrElse(primary, fallback) =>
      PermissionMeaning(lattice, primary, facts);
      DenialBlames(lattice, fallback, facts);
    case _ =>
  }

  // ----- permits -----

  // A permit of several outcomes that is none of them cites no facts and no label.
  predicate Unattributed<O>(decisive: DecisiveClause<O>) {
    decisive.Permit? && decisive.satisfied == [] && decisive.clauseLabel == None
  }

  // The clause reports a grant whose condition holds, a constant, or a merger of several arms.
  ghost predicate Credits<O>(policy: Policy<O>, facts: KnownFacts, decisive: DecisiveClause<O>) {
    match policy
    case Permit(outcome) => decisive == DecisiveClause.Permit(outcome, [], None)
    case Deny => false
    case Grant(clause) =>
      && Holds(clause.condition, facts)
      && decisive ==
        DecisiveClause.Permit(clause.outcome, EvalCondition(clause.condition, facts).decisive, clause.clauseLabel)
    case All(arms) =>
      (exists i | 0 <= i < |arms| :: Credits(arms[i], facts, decisive)) || (|arms| >= 2 && Unattributed(decisive))
    case Any(arms) =>
      (exists i | 0 <= i < |arms| :: Credits(arms[i], facts, decisive)) || (|arms| >= 2 && Unattributed(decisive))
    case OrElse(primary, fallback) =>
      if PolicyPermits(primary, facts) then Credits(primary, facts, decisive) else Credits(fallback, facts, decisive)
  }

  ghost predicate FromAnArm<O>(arms: seq<Arm<O>>, decisive: DecisiveClause<O>) {
    exists i | 0 <= i < |arms| :: Permits(arms[i]) && arms[i].result.decisive == decisive
  }

  lemma {:induction false} FoldIsFromAnArm<O>(lattice: Lattice<O>, mode: Mode, arms: seq<Arm<O>>)
    ensures var permit := FoldPermits(lattice, mode, arms);
      permit.Some? ==>
        FromAnArm(arms, permit.value.decisive) || (|arms| >= 2 && Unattributed(permit.value.decisive))
  {
    if arms != [] {
      var n := |arms| - 1;
      var earlier := FoldPermits(lattice, mode, arms[..n]);
      FoldIsFromAnArm(lattice, mode, arms[..n]);
      if earlier.Some? && FromAnArm(arms[..n], earlier.value.decisive) {
        var i :| 0 <= i < n && Permits(arms[..n][i]) && arms[..n][i].result.decisive == earlier.value.decisive;
        assert Permits(arms[i]) && arms[i].result.decisive == earlier.value.decisive;
      }
      if Permits(arms[n]) {
        assert FromAnArm(arms, arms[n].result.decisive);
      }
      if earlier.Some? {
        assert arms[..n] != [];
      }
    }
  }

  // A permit reports a grant that holds, with its own outcome and label, a constant, or a merger.
  lemma {:induction false} PermitCredits<O>(lattice: Lattice<O>, policy: Policy<O>, facts: KnownFacts)
    requires PolicyPermits(policy, facts)
    ensures Credits(policy, facts, EvalPolicy(lattice, policy, facts).result.decisive)
    decreases policy, 1
  {
    PermissionMeaning(lattice, policy, facts);
    match policy
    case Grant(clause) => ReadingHolds(clause.condition, facts);
    case All(ps) =>
      var arms := EvalPolicies(lattice, ps, facts);
      FoldIsFromAnArm(lattice, ByMeet, arms);
      ArmsCredit(lattice, ps, facts, EvalPolicy(lattice, policy, facts).result.decisive);
      FirstRefusalDenies(lattice, ps, facts);
    case Any(ps) =>
      FoldIsFromAnArm(lattice, ByJoin, EvalPolicies(lattice, ps, facts));
      ArmsCredit(lattice, ps, facts, EvalPolicy(lattice, policy, facts).result.decisive);
    case OrElse(primary, fallback) =>
      PermissionMeaning(lattice, primary, facts);
      if PolicyPermits(primary, facts) {
        PermitCredits(lattice, primary, facts);
      } else {
        PermitCredits(lattice, fallback, facts);
      }
    case _ =>
  }

  lemma {:induction false} ArmsCredit<O>(
      lattice: Lattice<O>, ps: seq<Policy<O>>, facts: KnownFacts, decisive: DecisiveClause<O>)
    ensures FromAnArm(EvalPolicies(lattice, ps, facts), decisive) ==>
      exists i | 0 <= i < |ps| :: Credits(ps[i], facts, decisive)
    decreases ps, 0
  {
    var arms := EvalPolicies(lattice, ps, facts);
    if FromAnArm(arms, decisive) {
      var i :| 0 <= i < |arms| && Permits(arms[i]) && arms[i].result.decisive == decisive;
      PermissionMeaning(lattice, ps[i], facts);
      PermitCredits(lattice, ps[i], facts);
    }
  }

  // ----- whole decisions -----

  // The reported grant of a denial is the policy's own and its condition does not hold.
  lemma DecisionReportsItsGrant<O>(lattice: Lattice<O>, policy: Policy<O>, facts: KnownFacts)
    ensures var decision := Evaluate(lattice, policy, facts);
      && (PolicyPermits(policy, facts) ==> decision.effect.Permit? && Credits(policy, facts, decision.decisive))
      && (!PolicyPermits(policy, facts) ==>
           && Blames(EvalResult(decision.effect, decision.obligations, decision.decisive), Blamed(policy, facts), facts)
           && (Blamed(policy, facts).Some? ==>
                var clause := Blamed(policy, facts).value;
                Owns(policy, clause) && !Holds(clause.condition, facts)))
  {
    PermissionMeaning(lattice, policy, facts);
    if PolicyPermits(policy, facts) {
      PermitCredits(lattice, policy, facts);
    } else {
      DenialBlames(lattice, policy, facts);
      if Blamed(policy, facts).Some? {
        BlamedIsOwn(policy, facts);
      }
    }
  }
}
