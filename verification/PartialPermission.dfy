/** Permission across partial evaluation, for any outcomes, and what a pending residual asks for. */
module PartialPermission {
  import opened Wrappers
  import opened Facts
  import opened Policies
  import opened Conditions
  import opened Evaluation
  import opened Semantics
  import opened PartialEvaluation
  import opened PartialProofs
  import CR = ConditionReduction

  ghost predicate StillPermits<O>(residual: Residual<O>, facts: KnownFacts) {
    if residual.Resolved? then residual.decision.effect.Permit? else ResidualPermits(residual.residual, facts)
  }

  // ----- which policies a reduced set is made of -----

  lemma {:induction false} PendingMembers<O>(arms: seq<Residual<O>>)
    ensures forall p | p in PendingResiduals(arms) :: Pending(p, []) in Stripped(arms)
    ensures forall arm | arm in arms && arm.Pending? :: arm.residual in PendingResiduals(arms)
  {
    if arms != [] {
      var n := |arms| - 1;
      PendingMembers(arms[..n]);
      assert Stripped(arms) == Stripped(arms[..n]) + [Strip(arms[n])];
      assert arms == arms[..n] + [arms[n]];
    }
  }

  function Strip<O>(arm: Residual<O>): Residual<O> {
    if arm.Pending? then arm.(consulted := []) else arm
  }

  function Stripped<O>(arms: seq<Residual<O>>): seq<Residual<O>> {
    seq(|arms|, i requires 0 <= i < |arms| => Strip(arms[i]))
  }

  lemma PendingArmOf<O>(arms: seq<Residual<O>>, policy: ResidualPolicy<O>) returns (i: nat)
    requires policy in PendingResiduals(arms)
    ensures i < |arms| && arms[i].Pending? && arms[i].residual == policy
  {
    PendingMembers(arms);
    i :| 0 <= i < |Stripped(arms)| && Stripped(arms)[i] == Pending(policy, []);
  }

  lemma {:induction false} PermitMembers<O>(arms: seq<Residual<O>>)
    ensures forall p | p in ResolvedPermits(arms) :: p.Permit? || p.PermitWithTrace?
    ensures ResolvedPermits(arms) != [] <==> exists arm :: arm in arms && ResolvedPermit(arm)
  {
    if arms != [] {
      var n := |arms| - 1;
      PermitMembers(arms[..n]);
      assert arms == arms[..n] + [arms[n]];
    }
  }

  // ----- permission -----

  lemma AllPermission<O>(lattice: Lattice<O>, arms: seq<Residual<O>>, partial: PartialFacts, facts: KnownFacts)
    requires forall arm | arm in arms :: ResolvedCoherent(arm)
    ensures StillPermits(ReduceAll(lattice, arms, partial), facts) <==>
      arms != [] && forall arm | arm in arms :: StillPermits(arm, facts)
  {
    var k := FirstResolvedDenial(arms);
    var permits, pending := ResolvedPermits(arms), PendingResiduals(arms);
    if k < |arms| {
      assert arms[k] in arms && !StillPermits(arms[k], facts);
    } else if arms != [] {
      PendingMembers(arms);
      PermitMembers(arms);
      AllOfTwoLists(permits, pending, facts);
      if forall p | p in pending :: ResidualPermits(p, facts) {
        forall i | 0 <= i < |arms| ensures StillPermits(arms[i], facts) {
          assert arms[i] in arms;
        }
        assert arms[0] in arms;
      } else {
        var p :| p in pending && !ResidualPermits(p, facts);
        var i := PendingArmOf(arms, p);
        assert arms[i] in arms && !StillPermits(arms[i], facts);
      }
      if pending == [] {
        assert permits + pending == permits;
        ResidualPermissionMeaning(lattice, ResidualPolicy.All(permits), PartialToKnown(partial));
      }
    }
  }

  lemma AnyPermission<O>(lattice: Lattice<O>, arms: seq<Residual<O>>, partial: PartialFacts, facts: KnownFacts)
    requires forall arm | arm in arms :: ResolvedCoherent(arm)
    ensures StillPermits(ReduceAny(lattice, arms, partial), facts) <==>
      exists arm :: arm in arms && StillPermits(arm, facts)
  {
    var k := FirstResolvedDenial(arms);
    var permits, pending := ResolvedPermits(arms), PendingResiduals(arms);
    PendingMembers(arms);
    PermitMembers(arms);
    var constants :=
      if permits == [] && k < |arms| then [PolicyFromDecision(arms[k].decision)] else permits;
    SomeArmPermits(arms, permits, pending, facts);
    if pending == [] {
      ResidualPermissionMeaning(lattice, ResidualPolicy.Any(permits), PartialToKnown(partial));
      assert permits != [] ==> ResidualPermits(permits[0], PartialToKnown(partial));
    } else {
      if k < |arms| {
        assert arms[k] in arms;
      }
      AnyOfTwoLists(constants, pending, facts);
      assert (exists i | 0 <= i < |constants| :: ResidualPermits(constants[i], facts)) <==> permits != [] by {
        assert permits != [] ==> permits[0] in permits;
      }
    }
  }

  lemma SomeArmPermits<O>(
      arms: seq<Residual<O>>, permits: seq<ResidualPolicy<O>>, pending: seq<ResidualPolicy<O>>, facts: KnownFacts)
    requires permits == ResolvedPermits(arms) && pending == PendingResiduals(arms)
    ensures (exists arm :: arm in arms && StillPermits(arm, facts)) <==>
      permits != [] || exists i | 0 <= i < |pending| :: ResidualPermits(pending[i], facts)
  {
    PendingMembers(arms);
    PermitMembers(arms);
    if arm :| arm in arms && StillPermits(arm, facts) {
      if arm.Pending? {
        assert arm.residual in pending;
      }
    }
    if i :| 0 <= i < |pending| && ResidualPermits(pending[i], facts) {
      var j := PendingArmOf(arms, pending[i]);
      assert arms[j] in arms && StillPermits(arms[j], facts);
    }
    if arm :| arm in arms && ResolvedPermit(arm) {
      assert StillPermits(arm, facts);
    }
  }

  lemma AllOfTwoLists<O>(left: seq<ResidualPolicy<O>>, right: seq<ResidualPolicy<O>>, facts: KnownFacts)
    ensures ResidualPermits(ResidualPolicy.All(left + right), facts) <==>
      && left + right != []
      && (forall p | p in left :: ResidualPermits(p, facts))
      && (forall p | p in right :: ResidualPermits(p, facts))
  {
    var both := left + right;
    if ResidualPermits(ResidualPolicy.All(both), facts) {
      forall i | 0 <= i < |left| ensures ResidualPermits(left[i], facts) {
        assert both[i] == left[i];
      }
      forall i | 0 <= i < |right| ensures ResidualPermits(right[i], facts) {
        assert both[|left| + i] == right[i];
      }
    } else if both != [] {
      var i :| 0 <= i < |both| && !ResidualPermits(both[i], facts);
      assert both[i] in left || both[i] in right;
    }
  }

  lemma AnyOfTwoLists<O>(left: seq<ResidualPolicy<O>>, right: seq<ResidualPolicy<O>>, facts: KnownFacts)
    ensures ResidualPermits(ResidualPolicy.Any(left + right), facts) <==>
      || (exists i | 0 <= i < |left| :: ResidualPermits(left[i], facts))
      || (exists i | 0 <= i < |right| :: ResidualPermits(right[i], facts))
  {
    var both := left + right;
    if i :| 0 <= i < |left| && ResidualPermits(left[i], facts) {
      assert both[i] == left[i];
    }
    if i :| 0 <= i < |right| && ResidualPermits(right[i], facts) {
      assert both[|left| + i] == right[i];
    }
  }

  // Whoever is permitted stays permitted and whoever is denied stays denied, for every outcome type.
  lemma {:induction false} PermissionPreserved<O>(
      lattice: Lattice<O>, policy: Policy<O>, partial: PartialFacts, facts: KnownFacts)
    requires Completes(facts, partial)
    ensures StillPermits(PartialEvaluate(lattice, policy, partial), facts) <==> PolicyPermits(policy, facts)
    decreases policy, 1
  {
    match policy
    case Grant(clause) =>
      GrantPreserved(lattice, clause, partial, facts);
      ReadingHolds(clause.condition, facts);
      var reduced := CR.ReduceCondition(clause.condition, partial);
      if reduced.Pending? {
        CR.ReductionAgrees(clause.condition, partial, facts);
      }
    case All(ps) =>
      ArmsReducedCoherent(lattice, ps, partial);
      ArmsKeepPermission(lattice, ps, partial, facts);
      AllPermission(lattice, PartialEvaluateArms(lattice, ps, partial), partial, facts);
    case Any(ps) =>
      ArmsReducedCoherent(lattice, ps, partial);
      ArmsKeepPermission(lattice, ps, partial, facts);
      AnyPermission(lattice, PartialEvaluateArms(lattice, ps, partial), partial, facts);
    case OrElse(primary, fallback) =>
      PermissionPreserved(lattice, primary, partial, facts);
      PermissionPreserved(lattice, fallback, partial, facts);
      ReductionCoherent(lattice, fallback, partial);
      OrElsePermission(
        PartialEvaluate(lattice, primary, partial), PartialEvaluate(lattice, fallback, partial), facts);
    case _ =>
  }

  lemma OrElsePermission<O>(primary: Residual<O>, fallback: Residual<O>, facts: KnownFacts)
    requires ResolvedCoherent(fallback)
    ensures StillPermits(ReduceOrElse(primary, fallback), facts) <==>
      StillPermits(primary, facts) || StillPermits(fallback, facts)
  {
    if fallback.Resolved? {
      var last := PolicyFromDecision(fallback.decision);
      assert ResidualPermits(last, facts) <==> fallback.decision.effect.Permit?;
    }
  }

  lemma {:induction false} ArmsKeepPermission<O>(
      lattice: Lattice<O>, ps: seq<Policy<O>>, partial: PartialFacts, facts: KnownFacts)
    requires Completes(facts, partial)
    ensures forall i | 0 <= i < |ps| ::
      StillPermits(PartialEvaluateArms(lattice, ps, partial)[i], facts) <==> PolicyPermits(ps[i], facts)
    decreases ps, 0
  {
    forall i | 0 <= i < |ps|
      ensures StillPermits(PartialEvaluateArms(lattice, ps, partial)[i], facts) <==> PolicyPermits(ps[i], facts)
    {
      PermissionPreserved(lattice, ps[i], partial, facts);
    }
  }

  // ----- what a pending residual asks for -----

  ghost predicate AsksOnlyUnknown<O>(residual: ResidualPolicy<O>, scope: set<FactId>, partial: PartialFacts) {
    && ResidualFacts(residual) != {}
    && forall f | f in ResidualFacts(residual) :: f in scope && PresenceOf(partial, f) == Unknown
  }

  lemma SetAsksOnlyUnknown<O>(
      constants: seq<ResidualPolicy<O>>, pending: seq<ResidualPolicy<O>>, scope: set<FactId>, partial: PartialFacts)
    requires pending != []
    requires forall p | p in constants :: ResidualFacts(p) == {}
    requires forall p | p in pending :: AsksOnlyUnknown(p, scope, partial)
    ensures AsksOnlyUnknown(ResidualPolicy.All(constants + pending), scope, partial)
    ensures AsksOnlyUnknown(ResidualPolicy.Any(constants + pending), scope, partial)
  {
    var both := constants + pending;
    assert both[|constants|] == pending[0] && AsksOnlyUnknown(pending[0], scope, partial);
    var f :| f in ResidualFacts(both[|constants|]);
    assert f in ResidualFacts(ResidualPolicy.All(both)) && f in ResidualFacts(ResidualPolicy.Any(both));
    forall g | g in ResidualFacts(ResidualPolicy.All(both)) || g in ResidualFacts(ResidualPolicy.Any(both))
      ensures g in scope && PresenceOf(partial, g) == Unknown
    {
      var i :| 0 <= i < |both| && g in ResidualFacts(both[i]);
      assert both[i] in constants || both[i] in pending;
    }
  }

  // A pending residual requires at least one fact; each was unknown and required by the policy.
  lemma {:induction false} PendingAsksOnlyUnknown<O>(lattice: Lattice<O>, policy: Policy<O>, partial: PartialFacts)
    ensures var reduced := PartialEvaluate(lattice, policy, partial);
      reduced.Pending? ==> AsksOnlyUnknown(reduced.residual, PolicyFacts(policy), partial)
    decreases policy, 1
  {
    match policy
    case Grant(clause) => CR.ResidualAsksOnlyUnknown(clause.condition, partial);
    case All(ps) => ArmsAskOnlyUnknown(lattice, policy, ps, partial);
    case Any(ps) => ArmsAskOnlyUnknown(lattice, policy, ps, partial);
    case OrElse(primary, fallback) =>
      PendingAsksOnlyUnknown(lattice, primary, partial);
      PendingAsksOnlyUnknown(lattice, fallback, partial);
    case _ =>
  }

  lemma {:induction false} ArmsAskOnlyUnknown<O>(
      lattice: Lattice<O>, parent: Policy<O>, ps: seq<Policy<O>>, partial: PartialFacts)
    requires parent == Policy.All(ps) || parent == Policy.Any(ps)
    ensures var reduced := PartialEvaluate(lattice, parent, partial);
      reduced.Pending? ==> AsksOnlyUnknown(reduced.residual, PolicyFacts(parent), partial)
    decreases ps, 0
  {
    var arms, scope := PartialEvaluateArms(lattice, ps, partial), PolicyFacts(parent);
    var k := FirstResolvedDenial(arms);
    var permits, pending := ResolvedPermits(arms), PendingResiduals(arms);
    forall p | p in pending ensures AsksOnlyUnknown(p, scope, partial) {
      var i := PendingArmOf(arms, p);
      PendingAsksOnlyUnknown(lattice, ps[i], partial);
      assert PolicyFacts(ps[i]) <= scope;
    }
    PermitMembers(arms);
    if pending != [] {
      SetAsksOnlyUnknown(permits, pending, scope, partial);
      if k < |arms| {
        SetAsksOnlyUnknown([PolicyFromDecision(arms[k].decision)], pending, scope, partial);
      }
    }
  }
}
