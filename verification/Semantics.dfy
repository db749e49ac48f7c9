/** What evaluation means: who is permitted, with which outcome, and on which evidence. */
module Semantics {
  import opened Wrappers
  import opened Facts
  import opened Policies
  import opened Consulting
  import opened Conditions
  import opened Evaluation

  // ----- permission without outcomes -----

  predicate PolicyPermits<O>(policy: Policy<O>, facts: KnownFacts) {
    match policy
    case Permit(_) => true
    case Deny => false
    case Grant(clause) => Holds(clause.condition, facts)
    case All(arms) => arms != [] && forall i | 0 <= i < |arms| :: PolicyPermits(arms[i], facts)
    case Any(arms) => exists i | 0 <= i < |arms| :: PolicyPermits(arms[i], facts)
    case OrElse(primary, fallback) => PolicyPermits(primary, facts) || PolicyPermits(fallback, facts)
  }

  predicate ResidualPermits<O>(policy: ResidualPolicy<O>, facts: KnownFacts) {
    match policy
    case Permit(_) => true
    case Deny => false
    case PermitWithTrace(_, _, _, _) => true
    case DenyWithTrace(_, _, _, _, _) => false
    case Grant(clause) => Holds(clause.condition, facts)
    case All(arms) => arms != [] && forall i | 0 <= i < |arms| :: ResidualPermits(arms[i], facts)
    case Any(arms) => exists i | 0 <= i < |arms| :: ResidualPermits(arms[i], facts)
    case OrElse(primary, fallback) => ResidualPermits(primary, facts) || ResidualPermits(fallback, facts)
  }

  predicate Permits<O>(arm: Arm<O>) {
    arm.result.effect.Permit?
  }

  lemma AllPermitsIff<O>(lattice: Lattice<O>, arms: seq<Arm<O>>)
    ensures Permits(AllOfArms(lattice, arms)) <==> arms != [] && forall i | 0 <= i < |arms| :: Permits(arms[i])
  {
    var k := FirstDeny(arms);
    if k < |arms| {
      assert !Permits(arms[k]);
    }
  }

  lemma {:induction false} FoldSomeIff<O>(lattice: Lattice<O>, mode: Mode, arms: seq<Arm<O>>)
    ensures FoldPermits(lattice, mode, arms).Some? <==> exists i | 0 <= i < |arms| :: Permits(arms[i])
  {
    if arms != [] {
      var n := |arms| - 1;
      FoldSomeIff(lattice, mode, arms[..n]);
      assert arms == arms[..n] + [arms[n]];
      if i :| 0 <= i < |arms| && Permits(arms[i]) {
        assert i < n ==> Permits(arms[..n][i]);
      }
    }
  }

  lemma {:induction false} PermissionMeaning<O>(lattice: Lattice<O>, policy: Policy<O>, facts: KnownFacts)
    ensures Permits(EvalPolicy(lattice, policy, facts)) <==> PolicyPermits(policy, facts)
  {
    match policy
    case Grant(clause) => ReadingHolds(clause.condition, facts);
    case All(ps) =>
      forall i | 0 <= i < |ps| { PermissionMeaning(lattice, ps[i], facts); }
      var arms := EvalPolicies(lattice, ps, facts);
      assert forall i | 0 <= i < |ps| :: Permits(arms[i]) == PolicyPermits(ps[i], facts);
      AllPermitsIff(lattice, arms);
    case Any(ps) =>
      forall i | 0 <= i < |ps| { PermissionMeaning(lattice, ps[i], facts); }
      var arms := EvalPolicies(lattice, ps, facts);
      assert forall i | 0 <= i < |ps| :: Permits(arms[i]) == PolicyPermits(ps[i], facts);
      FoldSomeIff(lattice, ByJoin, arms);
    case OrElse(primary, fallback) =>
      PermissionMeaning(lattice, primary, facts);
      PermissionMeaning(lattice, fallback, facts);
    case _ =>
  }

  lemma {:induction false} ResidualPermissionMeaning<O>(
      lattice: Lattice<O>, policy: ResidualPolicy<O>, facts: KnownFacts)
    ensures Permits(EvalResidual(lattice, policy, facts)) <==> ResidualPermits(policy, facts)
  {
    match policy
    case Grant(clause) => ReadingHolds(clause.condition, facts);
    case All(ps) =>
      forall i | 0 <= i < |ps| { ResidualPermissionMeaning(lattice, ps[i], facts); }
      var arms := EvalResiduals(lattice, ps, facts);
      assert forall i | 0 <= i < |ps| :: Permits(arms[i]) == ResidualPermits(ps[i], facts);
      AllPermitsIff(lattice, arms);
    case Any(ps) =>
      forall i | 0 <= i < |ps| { ResidualPermissionMeaning(lattice, ps[i], facts); }
      var arms := EvalResiduals(lattice, ps, facts);
      assert forall i | 0 <= i < |ps| :: Permits(arms[i]) == ResidualPermits(ps[i], facts);
      FoldSomeIff(lattice, ByJoin, arms);
    case OrElse(primary, fallback) =>
      ResidualPermissionMeaning(lattice, primary, facts);
      ResidualPermissionMeaning(lattice, fallback, facts);
    case _ =>
  }

  // ----- coherence of results -----

  // The effect is the one the decisive clause states, and denials carry no obligations.
  ghost predicate Coherent<O>(result: EvalResult<O>) {
    match result.effect
    case Permit(outcome) => result.decisive.Permit? && result.decisive.granted == outcome
    case Deny => result.decisive.Deny? && result.obligations == []
  }

  ghost predicate CoherentDecision<O>(decision: Decision<O>) {
    Coherent(EvalResult(decision.effect, decision.obligations, decision.decisive))
  }

  ghost predicate AllCoherent<O>(arms: seq<Arm<O>>) {
    forall i | 0 <= i < |arms| :: Coherent(arms[i].result)
  }

  lemma {:induction false} FoldCoherent<O>(lattice: Lattice<O>, mode: Mode, arms: seq<Arm<O>>)
    requires AllCoherent(arms)
    ensures var permit := FoldPermits(lattice, mode, arms);
      permit.Some? ==> Coherent(IntoResult(permit.value))
  {
    if arms != [] {
      FoldCoherent(lattice, mode, arms[..|arms| - 1]);
    }
  }

  lemma {:induction false} EvaluationCoherent<O>(lattice: Lattice<O>, policy: Policy<O>, facts: KnownFacts)
    ensures Coherent(EvalPolicy(lattice, policy, facts).result)
  {
    match policy
    case All(ps) =>
      forall i | 0 <= i < |ps| { EvaluationCoherent(lattice, ps[i], facts); }
      FoldCoherent(lattice, ByMeet, EvalPolicies(lattice, ps, facts));
    case Any(ps) =>
      forall i | 0 <= i < |ps| { EvaluationCoherent(lattice, ps[i], facts); }
      FoldCoherent(lattice, ByJoin, EvalPolicies(lattice, ps, facts));
    case OrElse(primary, fallback) =>
      EvaluationCoherent(lattice, primary, facts);
      EvaluationCoherent(lattice, fallback, facts);
    case _ =>
  }

  // ----- locality -----

  lemma {:induction false} EvaluationLocal<O>(
      lattice: Lattice<O>, policy: Policy<O>, left: KnownFacts, right: KnownFacts)
    requires AgreeOn(PolicyFacts(policy), left, right)
    ensures EvalPolicy(lattice, policy, left) == EvalPolicy(lattice, policy, right)
    decreases policy, 1
  {
    match policy
    case Grant(clause) => ReadingLocal(clause.condition, left, right);
    case All(ps) => ArmsLocal(lattice, policy, ps, left, right);
    case Any(ps) => ArmsLocal(lattice, policy, ps, left, right);
    case OrElse(primary, fallback) =>
      EvaluationLocal(lattice, primary, left, right);
      EvaluationLocal(lattice, fallback, left, right);
    case _ =>
  }

  lemma {:induction false} ArmsLocal<O>(
      lattice: Lattice<O>, parent: Policy<O>, ps: seq<Policy<O>>, left: KnownFacts, right: KnownFacts)
    requires parent == Policy.All(ps) || parent == Policy.Any(ps)
    requires AgreeOn(PolicyFacts(parent), left, right)
    ensures EvalPolicies(lattice, ps, left) == EvalPolicies(lattice, ps, right)
    decreases ps, 0
  {
    forall i | 0 <= i < |ps|
      ensures EvalPolicies(lattice, ps, left)[i] == EvalPolicies(lattice, ps, right)[i]
    {
      assert PolicyFacts(ps[i]) <= PolicyFacts(parent);
      EvaluationLocal(lattice, ps[i], left, right);
    }
  }

  // A decision depends on nothing but the policy's required facts, in any of its fields.
  lemma DecisionDependsOnRequiredFacts<O>(
      lattice: Lattice<O>, policy: Policy<O>, left: KnownFacts, right: KnownFacts)
    requires AgreeOn(PolicyFacts(policy), left, right)
    ensures Evaluate(lattice, policy, left) == Evaluate(lattice, policy, right)
  {
    EvaluationLocal(lattice, policy, left, right);
  }

  // ----- evidence -----

  // Every read is of a fact in `scope`, at its presence.
  ghost predicate Sourced(log: Log, scope: set<FactId>, facts: PartialFacts) {
    && Accurate(log, facts)
    && forall i | 0 <= i < |log| :: log[i].0 in scope
  }

  ghost predicate AllSourced<O>(arms: seq<Arm<O>>, scope: set<FactId>, facts: PartialFacts) {
    forall i | 0 <= i < |arms| :: Sourced(arms[i].readLog, scope, facts)
  }

  lemma {:induction false} ReadsSourced<O>(arms: seq<Arm<O>>, scope: set<FactId>, facts: PartialFacts)
    requires AllSourced(arms, scope, facts)
    ensures Sourced(ReadsOf(arms), scope, facts)
  {
    if arms != [] {
      ReadsSourced(arms[..|arms| - 1], scope, facts);
    }
  }

  lemma CombinedSourced<O>(lattice: Lattice<O>, arms: seq<Arm<O>>, scope: set<FactId>, facts: PartialFacts)
    requires AllSourced(arms, scope, facts)
    ensures Sourced(AllOfArms(lattice, arms).readLog, scope, facts)
    ensures Sourced(AnyOfArms(lattice, arms).readLog, scope, facts)
  {
    ReadsSourced(arms, scope, facts);
    var k := FirstDeny(arms);
    if k < |arms| {
      ReadsSourced(arms[..k + 1], scope, facts);
    }
  }

  lemma {:induction false} EvaluationSourced<O>(lattice: Lattice<O>, policy: Policy<O>, facts: KnownFacts)
    ensures Sourced(EvalPolicy(lattice, policy, facts).readLog, PolicyFacts(policy), facts)
    decreases policy, 1
  {
    match policy
    case Grant(clause) => ReadingFaithful(clause.condition, facts);
    case All(ps) =>
      var arms, scope := EvalPolicies(lattice, ps, facts), PolicyFacts(policy);
      ArmsSourced(lattice, policy, ps, arms, scope, facts);
      CombinedSourced(lattice, arms, scope, facts);
    case Any(ps) =>
      var arms, scope := EvalPolicies(lattice, ps, facts), PolicyFacts(policy);
      ArmsSourced(lattice, policy, ps, arms, scope, facts);
      CombinedSourced(lattice, arms, scope, facts);
    case OrElse(primary, fallback) =>
      EvaluationSourced(lattice, primary, facts);
      EvaluationSourced(lattice, fallback, facts);
    case _ =>
  }

  lemma {:induction false} ArmsSourced<O>(
      lattice: Lattice<O>, parent: Policy<O>, ps: seq<Policy<O>>, arms: seq<Arm<O>>,
      scope: set<FactId>, facts: KnownFacts)
    requires parent == Policy.All(ps) || parent == Policy.Any(ps)
    requires scope == PolicyFacts(parent) && arms == EvalPolicies(lattice, ps, facts)
    ensures AllSourced(arms, scope, facts)
    decreases ps, 0
  {
    forall i | 0 <= i < |arms| ensures Sourced(arms[i].readLog, scope, facts) {
      assert PolicyFacts(ps[i]) <= scope;
      EvaluationSourced(lattice, ps[i], facts);
    }
  }

  // The consulted list names required facts only, each once, at the presence the facts give it.
  lemma ConsultedEvidence<O>(lattice: Lattice<O>, policy: Policy<O>, facts: KnownFacts)
    ensures var consulted := Evaluate(lattice, policy, facts).consulted;
      && NoDuplicates(consulted)
      && Accurate(consulted, facts)
      && forall f | Mentions(consulted, f) :: f in PolicyFacts(policy)
  {
    var log := EvalPolicy(lattice, policy, facts).readLog;
    EvaluationSourced(lattice, policy, facts);
    ExtendedNoDuplicates([], log);
    ExtendedAccurate([], log, facts);
    forall f | Mentions(Extended([], log), f) ensures f in PolicyFacts(policy) {
      ExtendedMentions([], log, f);
    }
  }

  // ----- monotonicity of permission -----

  predicate PolicyNegationFree<O>(policy: Policy<O>) {
    match policy
    case Permit(_) => true
    case Deny => true
    case Grant(clause) => NegationFree(clause.condition)
    case All(arms) => forall i | 0 <= i < |arms| :: PolicyNegationFree(arms[i])
    case Any(arms) => forall i | 0 <= i < |arms| :: PolicyNegationFree(arms[i])
    case OrElse(primary, fallback) => PolicyNegationFree(primary) && PolicyNegationFree(fallback)
  }

  // Without negation, more present facts never turn a permit into a denial.
  lemma {:induction false} MoreFactsPermit<O>(policy: Policy<O>, fewer: KnownFacts, more: KnownFacts)
    requires PolicyNegationFree(policy)
    requires forall f | IsPresent(fewer, f) :: IsPresent(more, f)
    requires PolicyPermits(policy, fewer)
    ensures PolicyPermits(policy, more)
  {
    match policy
    case Grant(clause) => MoreFactsHold(clause.condition, fewer, more);
    case All(arms) => forall i | 0 <= i < |arms| { MoreFactsPermit(arms[i], fewer, more); }
    case Any(arms) =>
      var i :| 0 <= i < |arms| && PolicyPermits(arms[i], fewer);
      MoreFactsPermit(arms[i], fewer, more);
    case OrElse(primary, fallback) =>
      if PolicyPermits(primary, fewer) {
        MoreFactsPermit(primary, fewer, more);
      } else {
        MoreFactsPermit(fallback, fewer, more);
      }
    case _ =>
  }
}
