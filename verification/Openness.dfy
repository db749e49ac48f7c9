/** When a pending result is genuinely open: some completions say yes and some say no. */
module Openness {
  import opened Wrappers
  import opened Facts
  import opened Policies
  import opened Consulting
  import opened Conditions
  import opened Evaluation
  import opened Semantics
  import opened ConditionReduction
  import opened PartialProofs
  import opened PartialPermission
  import PE = PartialEvaluation

  // ----- read-once conditions -----

  function UnknownFacts(condition: Condition, partial: PartialFacts): set<FactId> {
    set f | f in ConditionFacts(condition) && PresenceOf(partial, f) == Unknown
  }

  // No unknown fact is asked by two arms of one set.
  predicate ReadOnce(condition: Condition, partial: PartialFacts) {
    match condition
    case Not(inner) => ReadOnce(inner, partial)
    case AllOf(cs) => (forall i | 0 <= i < |cs| :: ReadOnce(cs[i], partial)) && ArmsApart(cs, partial)
    case AnyOf(cs) => (forall i | 0 <= i < |cs| :: ReadOnce(cs[i], partial)) && ArmsApart(cs, partial)
    case _ => true
  }

  predicate ArmsApart(cs: seq<Condition>, partial: PartialFacts) {
    forall i, j | 0 <= i < j < |cs| :: UnknownFacts(cs[i], partial) !! UnknownFacts(cs[j], partial)
  }

  // Some completion of the partial facts gives the condition this truth.
  ghost predicate CanBe(condition: Condition, partial: PartialFacts, truth: bool) {
    exists known: KnownFacts :: CompletesTo(known, partial, condition, truth)
  }

  ghost predicate CompletesTo(known: KnownFacts, partial: PartialFacts, condition: Condition, truth: bool) {
    Completes(known, partial) && Holds(condition, known) == truth
  }

  // ----- settling -----

  // `last` decides the facts in `scope`, `most` all others.
  function Spliced(most: KnownFacts, last: KnownFacts, scope: set<FactId>): KnownFacts {
    map f | f in most.Keys + last.Keys :: if f in scope then Settled(last, f) else Settled(most, f)
  }

  function Settled(facts: KnownFacts, fact: FactId): (presence: Presence)
    ensures presence != Unknown && presence == PresenceOf(facts, fact)
  {
    PresenceOf(facts, fact)
  }

  lemma SplicedPresence(most: KnownFacts, last: KnownFacts, scope: set<FactId>, fact: FactId)
    ensures PresenceOf(Spliced(most, last, scope), fact) ==
      if fact in scope then PresenceOf(last, fact) else PresenceOf(most, fact)
  {
  }

  lemma SplicedCompletes(most: KnownFacts, last: KnownFacts, scope: set<FactId>, partial: PartialFacts)
    requires Completes(most, partial) && Completes(last, partial)
    ensures Completes(Spliced(most, last, scope), partial)
  {
    forall f | PresenceOf(partial, f) != Unknown
      ensures PresenceOf(Spliced(most, last, scope), f) == PresenceOf(partial, f)
    {
      SplicedPresence(most, last, scope, f);
    }
  }

  lemma HoldsLocal(condition: Condition, left: KnownFacts, right: KnownFacts)
    requires AgreeOn(ConditionFacts(condition), left, right)
    ensures Holds(condition, left) <==> Holds(condition, right)
  {
    ReadingLocal(condition, left, right);
    ReadingHolds(condition, left);
    ReadingHolds(condition, right);
  }

  // The facts a condition knows are the same in every completion, so only its unknown ones matter.
  lemma HoldsOnUnknowns(condition: Condition, partial: PartialFacts, left: KnownFacts, right: KnownFacts)
    requires Completes(left, partial) && Completes(right, partial)
    requires AgreeOn(UnknownFacts(condition, partial), left, right)
    ensures Holds(condition, left) <==> Holds(condition, right)
  {
    forall f | f in ConditionFacts(condition) ensures PresenceOf(left, f) == PresenceOf(right, f) {
      if PresenceOf(partial, f) == Unknown {
        assert f in UnknownFacts(condition, partial);
      }
    }
    HoldsLocal(condition, left, right);
  }

  lemma SplicedKeepsLast(
      condition: Condition, partial: PartialFacts, most: KnownFacts, last: KnownFacts)
    requires Completes(most, partial) && Completes(last, partial)
    ensures Holds(condition, Spliced(most, last, UnknownFacts(condition, partial))) <==> Holds(condition, last)
  {
    var scope := UnknownFacts(condition, partial);
    SplicedCompletes(most, last, scope, partial);
    forall f | f in scope ensures PresenceOf(Spliced(most, last, scope), f) == PresenceOf(last, f) {
      SplicedPresence(most, last, scope, f);
    }
    HoldsOnUnknowns(condition, partial, Spliced(most, last, scope), last);
  }

  lemma SplicedKeepsMost(
      condition: Condition, partial: PartialFacts, most: KnownFacts, last: KnownFacts, scope: set<FactId>)
    requires Completes(most, partial) && Completes(last, partial)
    requires UnknownFacts(condition, partial) !! scope
    ensures Holds(condition, Spliced(most, last, scope)) <==> Holds(condition, most)
  {
    SplicedCompletes(most, last, scope, partial);
    forall f | f in UnknownFacts(condition, partial)
      ensures PresenceOf(Spliced(most, last, scope), f) == PresenceOf(most, f)
    {
      SplicedPresence(most, last, scope, f);
    }
    HoldsOnUnknowns(condition, partial, Spliced(most, last, scope), most);
  }

  ghost predicate AllHold(cs: seq<Condition>, known: KnownFacts, truth: bool) {
    forall i | 0 <= i < |cs| :: Holds(cs[i], known) == truth
  }

  // Arms that share no unknown fact can all be given one truth at once if each can be given it.
  lemma {:induction false} SettleArms(cs: seq<Condition>, partial: PartialFacts, truth: bool)
    returns (known: KnownFacts)
    requires ArmsApart(cs, partial) && forall i | 0 <= i < |cs| :: CanBe(cs[i], partial, truth)
    ensures Completes(known, partial) && AllHold(cs, known, truth)
    decreases |cs|
  {
    if cs == [] {
      known := PartialToKnown(partial);
    } else {
      var n := |cs| - 1;
      assert ArmsApart(cs[..n], partial);
      var most := SettleArms(cs[..n], partial, truth);
      assert CanBe(cs[n], partial, truth);
      var last: KnownFacts :| CompletesTo(last, partial, cs[n], truth);
      var scope := UnknownFacts(cs[n], partial);
      known := Spliced(most, last, scope);
      SplicedCompletes(most, last, scope, partial);
      SplicedKeepsLast(cs[n], partial, most, last);
      forall i | 0 <= i < n ensures Holds(cs[i], known) == truth {
        assert Holds(cs[..n][i], most) == truth;
        SplicedKeepsMost(cs[i], partial, most, last, scope);
      }
    }
  }

  // ----- pending is open -----

  lemma KnownCanBe(condition: Condition, partial: PartialFacts)
    requires ReduceCondition(condition, partial).Known?
    ensures CanBe(condition, partial, ReduceCondition(condition, partial).satisfied)
  {
    var known := PartialToKnown(partial);
    ReductionAgrees(condition, partial, known);
    assert CompletesTo(known, partial, condition, ReduceCondition(condition, partial).satisfied);
  }

  lemma {:induction false} PendingCanBe(condition: Condition, partial: PartialFacts, truth: bool)
    requires ReadOnce(condition, partial) && ReduceCondition(condition, partial).Pending?
    ensures CanBe(condition, partial, truth)
  {
    match condition
    case Has(fact) =>
      var known: KnownFacts := PartialToKnown(partial)[fact := if truth then Present else Absent];
      assert CompletesTo(known, partial, condition, truth);
    case Not(inner) =>
      PendingCanBe(inner, partial, !truth);
      var known: KnownFacts :| CompletesTo(known, partial, inner, !truth);
      assert CompletesTo(known, partial, condition, truth);
    case AllOf(cs) => PendingSetCanBe(condition, cs, false, partial, truth);
    case AnyOf(cs) => PendingSetCanBe(condition, cs, true, partial, truth);
    case _ =>
  }

  lemma {:induction false} PendingSetCanBe(
      parent: Condition, cs: seq<Condition>, settles: bool, partial: PartialFacts, truth: bool)
    requires parent == if settles then AnyOf(cs) else AllOf(cs)
    requires ReadOnce(parent, partial) && ReduceCondition(parent, partial).Pending?
    ensures CanBe(parent, partial, truth)
    decreases cs, 0
  {
    var arms := ReduceConditions(cs, partial);
    NoArmSettles(arms, settles);
    if truth == settles {
      var k := PendingArm(arms, settles);
      PendingCanBe(cs[k], partial, settles);
      var known: KnownFacts :| CompletesTo(known, partial, cs[k], settles);
      assert CompletesTo(known, partial, parent, settles);
    } else {
      forall i | 0 <= i < |cs| ensures CanBe(cs[i], partial, !settles) {
        assert !Settles(arms[i], settles);
        if arms[i].Pending? {
          PendingCanBe(cs[i], partial, !settles);
        } else {
          KnownCanBe(cs[i], partial);
        }
      }
      var known := SettleArms(cs, partial, !settles);
      assert CompletesTo(known, partial, parent, !settles);
    }
  }

  lemma NoArmSettles(arms: seq<ReducedCondition>, settles: bool)
    requires Merged(arms, settles).Pending?
    ensures arms != [] && forall i | 0 <= i < |arms| :: !Settles(arms[i], settles)
  {
  }

  lemma PendingArm(arms: seq<ReducedCondition>, settles: bool) returns (k: nat)
    requires Merged(arms, settles).Pending?
    ensures k < |arms| && arms[k].Pending?
  {
    PendingIffOpen(arms);
    k :| k < |arms| && Truths(arms)[k] == Open;
  }

  // Reducing a residual again settles nothing.
  lemma {:induction false} ResidualStaysOpen(condition: Condition, partial: PartialFacts)
    requires ReduceCondition(condition, partial).Pending?
    ensures Kleene(ReduceCondition(condition, partial).residual, partial) == Open
    decreases condition, 1
  {
    match condition
    case Not(inner) => ResidualStaysOpen(inner, partial);
    case AllOf(cs) => ResidualSetStaysOpen(cs, false, partial);
    case AnyOf(cs) => ResidualSetStaysOpen(cs, true, partial);
    case _ =>
  }

  lemma {:induction false} ResidualSetStaysOpen(cs: seq<Condition>, settles: bool, partial: PartialFacts)
    requires Merged(ReduceConditions(cs, partial), settles).Pending?
    ensures Kleene(Merged(ReduceConditions(cs, partial), settles).residual, partial) == Open
    decreases cs, 0
  {
    var arms := ReduceConditions(cs, partial);
    forall i | 0 <= i < |cs| && arms[i].Pending? ensures Kleene(arms[i].residual, partial) == Open {
      ResidualStaysOpen(cs[i], partial);
    }
    AllPendingOpen(arms, partial);
    OpenSet(PendingConditions(arms), partial);
  }

  ghost predicate AllOpen(cs: seq<Condition>, partial: PartialFacts) {
    forall c | c in cs :: Kleene(c, partial) == Open
  }

  lemma OpenSet(cs: seq<Condition>, partial: PartialFacts)
    requires AllOpen(cs, partial)
    ensures cs != [] ==> Kleene(cs[0], partial) == Open
    ensures cs != [] ==> Kleene(AllOf(cs), partial) == Open && Kleene(AnyOf(cs), partial) == Open
  {
    if cs != [] {
      var truths := Kleenes(cs, partial);
      assert cs[0] in cs && truths[0] == Open;
      forall truth | truth in truths ensures truth == Open {
        var i :| 0 <= i < |truths| && truths[i] == truth;
        assert cs[i] in cs;
      }
    }
  }

  lemma {:induction false} AllPendingOpen(arms: seq<ReducedCondition>, partial: PartialFacts)
    requires forall i | 0 <= i < |arms| && arms[i].Pending? :: Kleene(arms[i].residual, partial) == Open
    ensures AllOpen(PendingConditions(arms), partial)
  {
    if arms != [] {
      AllPendingOpen(arms[..|arms| - 1], partial);
    }
  }

  lemma ResidualCanBe(condition: Condition, partial: PartialFacts, truth: bool)
    requires ReduceCondition(condition, partial).Pending?
    requires ReadOnce(ReduceCondition(condition, partial).residual, partial)
    ensures CanBe(condition, partial, truth)
  {
    var residual := ReduceCondition(condition, partial).residual;
    ResidualStaysOpen(condition, partial);
    ReductionIsKleene(residual, partial);
    PendingCanBe(residual, partial, truth);
    var known: KnownFacts :| CompletesTo(known, partial, residual, truth);
    ReductionAgrees(condition, partial, known);
    assert CompletesTo(known, partial, condition, truth);
  }

  // If two completions give a condition different truths it stays pending. It stays pending only then
  // if the condition, or just the residual, asks no unknown fact twice.
  lemma PendingIffCompletionsDiffer(condition: Condition, partial: PartialFacts)
    ensures CanBe(condition, partial, true) && CanBe(condition, partial, false) ==>
      ReduceCondition(condition, partial).Pending?
    ensures ReadOnce(condition, partial) ==>
      (ReduceCondition(condition, partial).Pending? <==>
       CanBe(condition, partial, true) && CanBe(condition, partial, false))
    ensures var reduced := ReduceCondition(condition, partial);
      reduced.Pending? && ReadOnce(reduced.residual, partial) ==>
        CanBe(condition, partial, true) && CanBe(condition, partial, false)
  {
    var reduced := ReduceCondition(condition, partial);
    if reduced.Pending? && ReadOnce(reduced.residual, partial) {
      ResidualCanBe(condition, partial, true);
      ResidualCanBe(condition, partial, false);
    }
    if ReduceCondition(condition, partial).Pending? {
      if ReadOnce(condition, partial) {
        PendingCanBe(condition, partial, true);
        PendingCanBe(condition, partial, false);
      }
    } else if CanBe(condition, partial, true) && CanBe(condition, partial, false) {
      var yes: KnownFacts :| CompletesTo(yes, partial, condition, true);
      var no: KnownFacts :| CompletesTo(no, partial, condition, false);
      ReductionAgrees(condition, partial, yes);
      ReductionAgrees(condition, partial, no);
    }
  }

  // ----- policies -----

  // The condition under which a policy permits.
  function PermissionCondition<O>(policy: Policy<O>): Condition
    decreases policy, 1
  {
    match policy
    case Permit(_) => Always
    case Deny => Never
    case Grant(clause) => clause.condition
    case All(arms) => AllOf(PermissionConditions(arms))
    case Any(arms) => AnyOf(PermissionConditions(arms))
    case OrElse(primary, fallback) => AnyOf([PermissionCondition(primary), PermissionCondition(fallback)])
  }

  function PermissionConditions<O>(policies: seq<Policy<O>>): (cs: seq<Condition>)
    ensures |cs| == |policies|
    ensures forall i | 0 <= i < |policies| :: cs[i] == PermissionCondition(policies[i])
    decreases policies, 0
  {
    if policies == [] then [] else [PermissionCondition(policies[0])] + PermissionConditions(policies[1..])
  }

  lemma {:induction false} PermissionConditionMeaning<O>(policy: Policy<O>, facts: KnownFacts)
    ensures Holds(PermissionCondition(policy), facts) <==> PolicyPermits(policy, facts)
  {
    match policy
    case All(arms) =>
      var cs := PermissionConditions(arms);
      forall i | 0 <= i < |arms| ensures Holds(cs[i], facts) <==> PolicyPermits(arms[i], facts) {
        PermissionConditionMeaning(arms[i], facts);
      }
    case Any(arms) =>
      var cs := PermissionConditions(arms);
      forall i | 0 <= i < |arms| ensures Holds(cs[i], facts) <==> PolicyPermits(arms[i], facts) {
        PermissionConditionMeaning(arms[i], facts);
      }
    case OrElse(primary, fallback) =>
      var cs := [PermissionCondition(primary), PermissionCondition(fallback)];
      PermissionConditionMeaning(primary, facts);
      PermissionConditionMeaning(fallback, facts);
      assert Holds(cs[0], facts) || Holds(cs[1], facts) <==> Holds(AnyOf(cs), facts);
    case _ =>
  }

  // What a partial result says about permission: a resolved one settles it, and a pending one is
  // never certain to deny.
  predicate Reports<O>(reduced: PE.Residual<O>, truth: Truth) {
    match reduced
    case Resolved(decision) => truth == if decision.effect.Permit? then True else False
    case Pending(_, _) => truth != False
  }

  lemma {:induction false} ReductionReports<O>(lattice: Lattice<O>, policy: Policy<O>, partial: PartialFacts)
    ensures PolicyReports(lattice, policy, partial)
    decreases policy, 1
  {
    match policy
    case Grant(clause) => GrantReports(lattice, clause, partial);
    case All(arms) =>
      ArmsReport(lattice, arms, partial);
      AllPolicyReports(lattice, arms, partial);
    case Any(arms) =>
      ArmsReport(lattice, arms, partial);
      AnyPolicyReports(lattice, arms, partial);
    case OrElse(primary, fallback) =>
      ReductionReports(lattice, primary, partial);
      ReductionReports(lattice, fallback, partial);
      EitherPolicyReports(lattice, primary, fallback, partial);
    case _ =>
  }

  ghost predicate PolicyReports<O>(lattice: Lattice<O>, policy: Policy<O>, partial: PartialFacts) {
    Reports(PE.PartialEvaluate(lattice, policy, partial), Kleene(PermissionCondition(policy), partial))
  }

  lemma {:induction false} SetTruths<O>(arms: seq<Policy<O>>, partial: PartialFacts)
    ensures var truths := Kleenes(PermissionConditions(arms), partial);
      && Kleene(PermissionCondition(Policy.All(arms)), partial) == Strong(truths, False)
      && Kleene(PermissionCondition(Policy.Any(arms)), partial) == Strong(truths, True)
  {
  }

  lemma AllPolicyReports<O>(lattice: Lattice<O>, arms: seq<Policy<O>>, partial: PartialFacts)
    requires AllReport(
      PE.PartialEvaluateArms(lattice, arms, partial), Kleenes(PermissionConditions(arms), partial))
    ensures PolicyReports(lattice, Policy.All(arms), partial)
  {
    SetTruths(arms, partial);
    var reduced := PE.PartialEvaluateArms(lattice, arms, partial);
    ArmsReducedCoherent(lattice, arms, partial);
    AllReports(lattice, reduced, Kleenes(PermissionConditions(arms), partial), partial);
    assert PE.PartialEvaluate(lattice, Policy.All(arms), partial) == PE.ReduceAll(lattice, reduced, partial);
  }

  lemma AnyPolicyReports<O>(lattice: Lattice<O>, arms: seq<Policy<O>>, partial: PartialFacts)
    requires AllReport(
      PE.PartialEvaluateArms(lattice, arms, partial), Kleenes(PermissionConditions(arms), partial))
    ensures PolicyReports(lattice, Policy.Any(arms), partial)
  {
    SetTruths(arms, partial);
    var reduced := PE.PartialEvaluateArms(lattice, arms, partial);
    ArmsReducedCoherent(lattice, arms, partial);
    AnyReports(lattice, reduced, Kleenes(PermissionConditions(arms), partial), partial);
    assert PE.PartialEvaluate(lattice, Policy.Any(arms), partial) == PE.ReduceAny(lattice, reduced, partial);
  }

  lemma EitherPolicyReports<O>(
      lattice: Lattice<O>, primary: Policy<O>, fallback: Policy<O>, partial: PartialFacts)
    requires PolicyReports(lattice, primary, partial) && PolicyReports(lattice, fallback, partial)
    ensures PolicyReports(lattice, Policy.OrElse(primary, fallback), partial)
  {
    EitherReports(
      PE.PartialEvaluate(lattice, primary, partial), PE.PartialEvaluate(lattice, fallback, partial),
      [PermissionCondition(primary), PermissionCondition(fallback)], partial);
  }

  lemma GrantReports<O>(lattice: Lattice<O>, clause: Clause<O>, partial: PartialFacts)
    ensures Reports(PE.ReduceGrant(lattice, clause, partial), Kleene(clause.condition, partial))
  {
    var known := PartialToKnown(partial);
    ReductionIsKleene(clause.condition, partial);
    if ReduceCondition(clause.condition, partial).Known? {
      ReductionAgrees(clause.condition, partial, known);
      ReadingHolds(clause.condition, known);
      assert Evaluate(lattice, Policy.Grant(clause), known).effect == EvalGrant(clause, known).result.effect;
    }
  }

  lemma EitherReports<O>(
      primary: PE.Residual<O>, fallback: PE.Residual<O>, cs: seq<Condition>, partial: PartialFacts)
    requires |cs| == 2
    requires Reports(primary, Kleene(cs[0], partial)) && Reports(fallback, Kleene(cs[1], partial))
    ensures Reports(PE.ReduceOrElse(primary, fallback), Kleene(AnyOf(cs), partial))
  {
    EitherTruth(cs, partial);
  }

  lemma EitherTruth(cs: seq<Condition>, partial: PartialFacts)
    requires |cs| == 2
    ensures Kleene(AnyOf(cs), partial) ==
      var a, b := Kleene(cs[0], partial), Kleene(cs[1], partial);
      if a == True || b == True then True else if a == Open || b == Open then Open else False
  {
    var truths := Kleenes(cs, partial);
    assert truths == [Kleene(cs[0], partial), Kleene(cs[1], partial)];
  }

  lemma {:induction false} ArmsReport<O>(lattice: Lattice<O>, arms: seq<Policy<O>>, partial: PartialFacts)
    ensures AllReport(
      PE.PartialEvaluateArms(lattice, arms, partial), Kleenes(PermissionConditions(arms), partial))
    decreases arms, 0
  {
    var cs := PermissionConditions(arms);
    forall i | 0 <= i < |arms|
      ensures Reports(PE.PartialEvaluateArms(lattice, arms, partial)[i], Kleenes(cs, partial)[i])
    {
      ReductionReports(lattice, arms[i], partial);
      assert PolicyReports(lattice, arms[i], partial);
      assert cs[i] == PermissionCondition(arms[i]);
    }
  }

  ghost predicate AllReport<O>(arms: seq<PE.Residual<O>>, truths: seq<Truth>) {
    |arms| == |truths| && forall i | 0 <= i < |arms| :: Reports(arms[i], truths[i])
  }

  lemma AllReports<O>(lattice: Lattice<O>, arms: seq<PE.Residual<O>>, truths: seq<Truth>, partial: PartialFacts)
    requires AllReport(arms, truths)
    requires forall arm | arm in arms :: ResolvedCoherent(arm)
    ensures Reports(PE.ReduceAll(lattice, arms, partial), Strong(truths, False))
  {
    var k := PE.FirstResolvedDenial(arms);
    if k < |arms| {
      assert Reports(arms[k], truths[k]);
    } else {
      UndeniedReports(lattice, arms, truths, partial);
    }
  }

  lemma UndeniedReports<O>(lattice: Lattice<O>, arms: seq<PE.Residual<O>>, truths: seq<Truth>, partial: PartialFacts)
    requires AllReport(arms, truths) && PE.FirstResolvedDenial(arms) == |arms|
    requires forall arm | arm in arms :: ResolvedCoherent(arm)
    ensures Reports(PE.ReduceAll(lattice, arms, partial), Strong(truths, False))
  {
    NoneIsFalse(arms, truths);
    if PE.PendingResiduals(arms) == [] && arms != [] {
      AllPermission(lattice, arms, partial, PartialToKnown(partial));
      AllAreTrue(arms, truths);
    }
  }

  lemma NoneIsFalse<O>(arms: seq<PE.Residual<O>>, truths: seq<Truth>)
    requires AllReport(arms, truths) && PE.FirstResolvedDenial(arms) == |arms|
    ensures False !in truths
  {
    forall i | 0 <= i < |truths| ensures truths[i] != False {
      assert Reports(arms[i], truths[i]);
    }
  }

  lemma AllAreTrue<O>(arms: seq<PE.Residual<O>>, truths: seq<Truth>)
    requires AllReport(arms, truths) && PE.FirstResolvedDenial(arms) == |arms|
    requires PE.PendingResiduals(arms) == []
    ensures forall truth | truth in truths :: truth == True
    ensures forall arm | arm in arms :: PE.ResolvedPermit(arm)
  {
    PendingMembers(arms);
    forall i | 0 <= i < |arms| ensures truths[i] == True && PE.ResolvedPermit(arms[i]) {
      assert arms[i] in arms;
      assert Reports(arms[i], truths[i]);
    }
  }

  lemma AnyReports<O>(lattice: Lattice<O>, arms: seq<PE.Residual<O>>, truths: seq<Truth>, partial: PartialFacts)
    requires AllReport(arms, truths)
    requires forall arm | arm in arms :: ResolvedCoherent(arm)
    ensures Reports(PE.ReduceAny(lattice, arms, partial), Strong(truths, True))
  {
    var pending, known := PE.PendingResiduals(arms), PartialToKnown(partial);
    if pending != [] {
      var i := PendingArmOf(arms, pending[0]);
      assert Reports(arms[i], truths[i]);
    } else {
      AnyPermission(lattice, arms, partial, known);
      PendingMembers(arms);
      forall i | 0 <= i < |arms| ensures arms[i].Resolved? && (StillPermits(arms[i], known) <==> truths[i] == True) {
        assert arms[i] in arms;
        assert Reports(arms[i], truths[i]);
      }
      NoOpen(truths);
      if arm :| arm in arms && StillPermits(arm, known) {
        var i :| 0 <= i < |arms| && arms[i] == arm;
        assert truths[i] in truths;
      }
    }
  }

  lemma NoOpen(truths: seq<Truth>)
    ensures True !in truths && Open !in truths ==> Strong(truths, True) == False
  {
  }

  // Some completion of the partial facts gives the policy this answer.
  ghost predicate CanPermit<O>(policy: Policy<O>, partial: PartialFacts, permits: bool) {
    exists known: KnownFacts :: Completes(known, partial) && PolicyPermits(policy, known) == permits
  }

  lemma CanPermitMeaning<O>(policy: Policy<O>, partial: PartialFacts, permits: bool)
    ensures CanPermit(policy, partial, permits) <==> CanBe(PermissionCondition(policy), partial, permits)
  {
    forall known: KnownFacts
      ensures CompletesTo(known, partial, PermissionCondition(policy), permits) <==>
        Completes(known, partial) && PolicyPermits(policy, known) == permits
    {
      PermissionConditionMeaning(policy, known);
    }
  }

  // A policy whose permission two completions dispute is pending and not certain to permit; if it
  // asks no unknown fact twice, it is that only then. A certain pending policy awaits its outcome.
  lemma PolicyOpenIffCompletionsDiffer<O>(lattice: Lattice<O>, policy: Policy<O>, partial: PartialFacts)
    ensures
      var open := PE.PartialEvaluate(lattice, policy, partial).Pending? &&
        Kleene(PermissionCondition(policy), partial) != True;
      var disputed := CanPermit(policy, partial, true) && CanPermit(policy, partial, false);
      && (disputed ==> open)
      && (ReadOnce(PermissionCondition(policy), partial) ==> (open <==> disputed))
  {
    var condition := PermissionCondition(policy);
    ReductionReports(lattice, policy, partial);
    ReductionIsKleene(condition, partial);
    PendingIffCompletionsDiffer(condition, partial);
    CanPermitMeaning(policy, partial, true);
    CanPermitMeaning(policy, partial, false);
  }
}
