/** What a partial result consulted, and the evidence that a completed decision carries. */
module CompletionEvidence {
  import opened Wrappers
  import opened Facts
  import opened Policies
  import opened Consulting
  import opened Conditions
  import opened Evaluation
  import opened PartialEvaluation
  import opened DecisiveEvidence
  import opened Openness
  import CR = ConditionReduction

  // ----- the facts a reduction looks at -----

  // The position of the first truth that settles a set.
  function FirstAbsorbing(truths: seq<CR.Truth>, absorbing: CR.Truth): (k: nat)
    ensures k <= |truths|
    ensures forall i | 0 <= i < k :: truths[i] != absorbing
    ensures k < |truths| ==> truths[k] == absorbing
  {
    if truths == [] || truths[0] == absorbing then 0 else 1 + FirstAbsorbing(truths[1..], absorbing)
  }

  // What the members of a set look at, up to and including position `stop`.
  ghost function Together(sets: seq<set<FactId>>, stop: nat): set<FactId> {
    set i, f | 0 <= i < |sets| && i <= stop && f in sets[i] :: f
  }

  // A set of conditions is read up to the first arm that settles it.
  ghost function Visited(condition: Condition, partial: PartialFacts): set<FactId>
    decreases condition, 1
  {
    match condition
    case Has(fact) => {fact}
    case Not(inner) => Visited(inner, partial)
    case AllOf(cs) => Together(VisitedByEach(cs, partial), FirstAbsorbing(CR.Kleenes(cs, partial), CR.False))
    case AnyOf(cs) => Together(VisitedByEach(cs, partial), FirstAbsorbing(CR.Kleenes(cs, partial), CR.True))
    case _ => {}
  }

  ghost function VisitedByEach(cs: seq<Condition>, partial: PartialFacts): (sets: seq<set<FactId>>)
    ensures |sets| == |cs| && forall i | 0 <= i < |cs| :: sets[i] == Visited(cs[i], partial)
    decreases cs, 0
  {
    if cs == [] then [] else [Visited(cs[0], partial)] + VisitedByEach(cs[1..], partial)
  }

  ghost function KnownAmong(facts: set<FactId>, partial: PartialFacts): set<FactId> {
    set f | f in facts && PresenceOf(partial, f) != Unknown
  }

  // An `all` is read up to the first arm certain to deny, an `any` to the end, and an alternative past
  // its primary unless that is resolved to permit.
  ghost function PolicyVisited<O>(lattice: Lattice<O>, policy: Policy<O>, partial: PartialFacts): set<FactId>
    decreases policy, 1
  {
    match policy
    case Grant(clause) => Visited(clause.condition, partial)
    case All(arms) =>
      Together(
        PolicyVisitedByEach(lattice, arms, partial),
        FirstAbsorbing(CR.Kleenes(PermissionConditions(arms), partial), CR.False))
    case Any(arms) => Together(PolicyVisitedByEach(lattice, arms, partial), |arms|)
    case OrElse(primary, fallback) =>
      if ResolvedPermit(PartialEvaluate(lattice, primary, partial)) then PolicyVisited(lattice, primary, partial)
      else PolicyVisited(lattice, primary, partial) + PolicyVisited(lattice, fallback, partial)
    case _ => {}
  }

  ghost function PolicyVisitedByEach<O>(lattice: Lattice<O>, ps: seq<Policy<O>>, partial: PartialFacts)
    : (sets: seq<set<FactId>>)
    ensures |sets| == |ps| && forall i | 0 <= i < |ps| :: sets[i] == PolicyVisited(lattice, ps[i], partial)
    decreases ps, 0
  {
    if ps == [] then []
    else [PolicyVisited(lattice, ps[0], partial)] + PolicyVisitedByEach(lattice, ps[1..], partial)
  }

  // ----- a reduced condition consulted exactly the known facts it looked at -----

  lemma {:induction false} MergedLogNames(arms: seq<CR.ReducedCondition>, fact: FactId)
    ensures fact in Named(CR.MergedLogs(arms)) <==> exists i | 0 <= i < |arms| :: fact in Named(arms[i].consulted)
  {
    if arms != [] {
      var n := |arms| - 1;
      MergedLogNames(arms[..n], fact);
      NamedExtended(CR.MergedLogs(arms[..n]), arms[n].consulted);
      assert arms == arms[..n] + [arms[n]];
    }
  }

  lemma FirstKnownIsAbsorbing(cs: seq<Condition>, settles: bool, partial: PartialFacts)
    ensures CR.FirstKnown(CR.ReduceConditions(cs, partial), settles) ==
      FirstAbsorbing(CR.Kleenes(cs, partial), if settles then CR.True else CR.False)
  {
    var arms, truths := CR.ReduceConditions(cs, partial), CR.Kleenes(cs, partial);
    forall i | 0 <= i < |cs| ensures CR.TruthOf(arms[i]) == truths[i] {
      CR.ReductionIsKleene(cs[i], partial);
    }
    SameFirst(arms, truths, settles);
  }

  lemma {:induction false} SameFirst(arms: seq<CR.ReducedCondition>, truths: seq<CR.Truth>, settles: bool)
    requires |arms| == |truths| && forall i | 0 <= i < |arms| :: CR.TruthOf(arms[i]) == truths[i]
    ensures CR.FirstKnown(arms, settles) == FirstAbsorbing(truths, if settles then CR.True else CR.False)
  {
    var k, j := CR.FirstKnown(arms, settles), FirstAbsorbing(truths, if settles then CR.True else CR.False);
    assert k < |arms| ==> CR.TruthOf(arms[k]) == truths[k];
    assert j < |arms| ==> CR.TruthOf(arms[j]) == truths[j];
  }

  lemma {:induction false} ConditionConsultsVisited(condition: Condition, partial: PartialFacts)
    ensures Named(CR.ReduceCondition(condition, partial).consulted) == KnownAmong(Visited(condition, partial), partial)
    decreases condition, 1
  {
    match condition
    case Has(fact) =>
      var log := CR.ReduceCondition(condition, partial).consulted;
      if PresenceOf(partial, fact) != Unknown {
        assert log[0].0 == fact;
      }
    case Not(inner) => ConditionConsultsVisited(inner, partial);
    case AllOf(cs) => ConditionsConsultVisited(condition, cs, false, partial);
    case AnyOf(cs) => ConditionsConsultVisited(condition, cs, true, partial);
    case _ =>
  }

  lemma {:induction false} ConditionsConsultVisited(
      parent: Condition, cs: seq<Condition>, settles: bool, partial: PartialFacts)
    requires parent == if settles then AnyOf(cs) else AllOf(cs)
    ensures Named(CR.ReduceCondition(parent, partial).consulted) == KnownAmong(Visited(parent, partial), partial)
    decreases cs, 0
  {
    var arms, sets := CR.ReduceConditions(cs, partial), VisitedByEach(cs, partial);
    FirstKnownIsAbsorbing(cs, settles, partial);
    forall i | 0 <= i < |cs| ensures Named(arms[i].consulted) == KnownAmong(sets[i], partial) {
      ConditionConsultsVisited(cs[i], partial);
    }
    MergedConsultTogether(arms, sets, settles, partial);
  }

  lemma MergedConsultTogether(
      arms: seq<CR.ReducedCondition>, sets: seq<set<FactId>>, settles: bool, partial: PartialFacts)
    requires |arms| == |sets|
    requires forall i | 0 <= i < |arms| :: Named(arms[i].consulted) == KnownAmong(sets[i], partial)
    ensures Named(CR.Merged(arms, settles).consulted) ==
      KnownAmong(Together(sets, CR.FirstKnown(arms, settles)), partial)
  {
    var k := CR.FirstKnown(arms, settles);
    if k < |arms| {
      MergedLogsTogether(arms[..k + 1], sets, k, partial);
    } else {
      MergedLogsTogether(arms, sets, k, partial);
    }
  }

  lemma MergedLogsTogether(used: seq<CR.ReducedCondition>, sets: seq<set<FactId>>, stop: nat, partial: PartialFacts)
    requires |used| == if stop < |sets| then stop + 1 else |sets|
    requires forall i | 0 <= i < |used| :: Named(used[i].consulted) == KnownAmong(sets[i], partial)
    ensures Named(CR.MergedLogs(used)) == KnownAmong(Together(sets, stop), partial)
  {
    forall f ensures f in Named(CR.MergedLogs(used)) <==> f in KnownAmong(Together(sets, stop), partial) {
      MergedLogNames(used, f);
    }
  }

  // ----- a reduced policy likewise -----

  lemma {:induction false} MergedNames<O>(arms: seq<Residual<O>>, fact: FactId)
    ensures fact in Named(MergedConsulted(arms)) <==> exists i | 0 <= i < |arms| :: fact in Named(ConsultedOf(arms[i]))
  {
    if arms != [] {
      var n := |arms| - 1;
      MergedNames(arms[..n], fact);
      NamedExtended(MergedConsulted(arms[..n]), ConsultedOf(arms[n]));
      assert arms == arms[..n] + [arms[n]];
    }
  }

  lemma FirstDenialIsAbsorbing<O>(lattice: Lattice<O>, ps: seq<Policy<O>>, partial: PartialFacts)
    ensures FirstResolvedDenial(PartialEvaluateArms(lattice, ps, partial)) ==
      FirstAbsorbing(CR.Kleenes(PermissionConditions(ps), partial), CR.False)
  {
    var arms, cs := PartialEvaluateArms(lattice, ps, partial), PermissionConditions(ps);
    var truths := CR.Kleenes(cs, partial);
    forall i | 0 <= i < |ps| ensures ResolvedDenial(arms[i]) <==> truths[i] == CR.False {
      ReductionReports(lattice, ps[i], partial);
      assert PolicyReports(lattice, ps[i], partial);
    }
  }

  lemma {:induction false} DeniedAllConsulted<O>(
      lattice: Lattice<O>, arms: seq<Residual<O>>, partial: PartialFacts, k: nat)
    requires k == FirstResolvedDenial(arms) < |arms|
    ensures ConsultedOf(ReduceAll(lattice, arms, partial)) == MergedConsulted(arms[..k + 1])
  {
  }

  lemma {:induction false} KeptAllConsulted<O>(lattice: Lattice<O>, arms: seq<Residual<O>>, partial: PartialFacts)
    requires FirstResolvedDenial(arms) == |arms|
    ensures ConsultedOf(ReduceAll(lattice, arms, partial)) == MergedConsulted(arms)
  {
  }

  lemma ConsultedOfAny<O>(lattice: Lattice<O>, arms: seq<Residual<O>>, partial: PartialFacts)
    ensures ConsultedOf(ReduceAny(lattice, arms, partial)) == MergedConsulted(arms)
  {
  }

  ghost predicate ConsultsVisited<O>(lattice: Lattice<O>, policy: Policy<O>, partial: PartialFacts) {
    Named(ConsultedOf(PartialEvaluate(lattice, policy, partial))) ==
      KnownAmong(PolicyVisited(lattice, policy, partial), partial)
  }

  // A partial result consulted exactly the known facts among those it looked at, resolved or pending.
  lemma {:induction false} PolicyConsultsVisited<O>(lattice: Lattice<O>, policy: Policy<O>, partial: PartialFacts)
    ensures ConsultsVisited(lattice, policy, partial)
    decreases policy, 1
  {
    match policy
    case Grant(clause) => ConditionConsultsVisited(clause.condition, partial);
    case All(ps) =>
      ArmsConsultVisited(lattice, ps, partial);
      AllConsultsVisited(lattice, ps, partial);
    case Any(ps) =>
      ArmsConsultVisited(lattice, ps, partial);
      AnyConsultsVisited(lattice, ps, partial);
    case OrElse(primary, fallback) =>
      PolicyConsultsVisited(lattice, primary, partial);
      PolicyConsultsVisited(lattice, fallback, partial);
      NamedExtended(
        ConsultedOf(PartialEvaluate(lattice, primary, partial)),
        ConsultedOf(PartialEvaluate(lattice, fallback, partial)));
    case _ =>
  }

  lemma {:induction false} ArmsConsultVisited<O>(lattice: Lattice<O>, ps: seq<Policy<O>>, partial: PartialFacts)
    ensures forall i | 0 <= i < |ps| :: ConsultsVisited(lattice, ps[i], partial)
    decreases ps, 0
  {
    forall i | 0 <= i < |ps| ensures ConsultsVisited(lattice, ps[i], partial) {
      PolicyConsultsVisited(lattice, ps[i], partial);
    }
  }

  lemma MergedTogether<O>(used: seq<Residual<O>>, sets: seq<set<FactId>>, stop: nat, partial: PartialFacts)
    requires |used| == if stop < |sets| then stop + 1 else |sets|
    requires forall i | 0 <= i < |used| :: Named(ConsultedOf(used[i])) == KnownAmong(sets[i], partial)
    ensures Named(MergedConsulted(used)) == KnownAmong(Together(sets, stop), partial)
  {
    forall f ensures f in Named(MergedConsulted(used)) <==> f in KnownAmong(Together(sets, stop), partial) {
      MergedNames(used, f);
    }
  }

  ghost predicate EachConsults<O>(arms: seq<Residual<O>>, sets: seq<set<FactId>>, partial: PartialFacts) {
    |arms| == |sets| && forall i | 0 <= i < |arms| :: Named(ConsultedOf(arms[i])) == KnownAmong(sets[i], partial)
  }

  lemma ReducedAllTogether<O>(
      lattice: Lattice<O>, arms: seq<Residual<O>>, sets: seq<set<FactId>>, partial: PartialFacts)
    requires EachConsults(arms, sets, partial)
    ensures Named(ConsultedOf(ReduceAll(lattice, arms, partial))) ==
      KnownAmong(Together(sets, FirstResolvedDenial(arms)), partial)
  {
    var k := FirstResolvedDenial(arms);
    if k < |arms| {
      DeniedAllConsulted(lattice, arms, partial, k);
      MergedTogether(arms[..k + 1], sets, k, partial);
    } else {
      KeptAllConsulted(lattice, arms, partial);
      MergedTogether(arms, sets, k, partial);
    }
  }

  lemma ReducedAnyTogether<O>(
      lattice: Lattice<O>, arms: seq<Residual<O>>, sets: seq<set<FactId>>, partial: PartialFacts)
    requires EachConsults(arms, sets, partial)
    ensures Named(ConsultedOf(ReduceAny(lattice, arms, partial))) == KnownAmong(Together(sets, |arms|), partial)
  {
    ConsultedOfAny(lattice, arms, partial);
    MergedTogether(arms, sets, |arms|, partial);
  }

  lemma ArmsEachConsult<O>(lattice: Lattice<O>, ps: seq<Policy<O>>, partial: PartialFacts)
    requires forall i | 0 <= i < |ps| :: ConsultsVisited(lattice, ps[i], partial)
    ensures EachConsults(
      PartialEvaluateArms(lattice, ps, partial), PolicyVisitedByEach(lattice, ps, partial), partial)
  {
    var arms, sets := PartialEvaluateArms(lattice, ps, partial), PolicyVisitedByEach(lattice, ps, partial);
    forall i | 0 <= i < |arms| ensures Named(ConsultedOf(arms[i])) == KnownAmong(sets[i], partial) {
      assert ConsultsVisited(lattice, ps[i], partial);
    }
  }

  lemma AllConsultsVisited<O>(lattice: Lattice<O>, ps: seq<Policy<O>>, partial: PartialFacts)
    requires forall i | 0 <= i < |ps| :: ConsultsVisited(lattice, ps[i], partial)
    ensures ConsultsVisited(lattice, Policy.All(ps), partial)
  {
    var arms := PartialEvaluateArms(lattice, ps, partial);
    ArmsEachConsult(lattice, ps, partial);
    ReducedAllTogether(lattice, arms, PolicyVisitedByEach(lattice, ps, partial), partial);
    FirstDenialIsAbsorbing(lattice, ps, partial);
    assert PartialEvaluate(lattice, Policy.All(ps), partial) == ReduceAll(lattice, arms, partial);
  }

  lemma AnyConsultsVisited<O>(lattice: Lattice<O>, ps: seq<Policy<O>>, partial: PartialFacts)
    requires forall i | 0 <= i < |ps| :: ConsultsVisited(lattice, ps[i], partial)
    ensures ConsultsVisited(lattice, Policy.Any(ps), partial)
  {
    var arms := PartialEvaluateArms(lattice, ps, partial);
    ArmsEachConsult(lattice, ps, partial);
    ReducedAnyTogether(lattice, arms, PolicyVisitedByEach(lattice, ps, partial), partial);
    assert PartialEvaluate(lattice, Policy.Any(ps), partial) == ReduceAny(lattice, arms, partial);
  }

  // ----- no fact twice -----

  lemma {:induction false} MergedLogsDistinct(arms: seq<CR.ReducedCondition>)
    ensures NoDuplicates(CR.MergedLogs(arms))
  {
    if arms != [] {
      var n := |arms| - 1;
      MergedLogsDistinct(arms[..n]);
      ExtendedNoDuplicates(CR.MergedLogs(arms[..n]), arms[n].consulted);
    }
  }

  lemma {:induction false} ConditionConsultsOnce(condition: Condition, partial: PartialFacts)
    ensures NoDuplicates(CR.ReduceCondition(condition, partial).consulted)
  {
    match condition
    case Not(inner) => ConditionConsultsOnce(inner, partial);
    case AllOf(cs) => MergedOnce(CR.ReduceConditions(cs, partial), false);
    case AnyOf(cs) => MergedOnce(CR.ReduceConditions(cs, partial), true);
    case _ =>
  }

  lemma MergedOnce(arms: seq<CR.ReducedCondition>, settles: bool)
    ensures NoDuplicates(CR.Merged(arms, settles).consulted)
  {
    MergedLogsDistinct(arms);
    var k := CR.FirstKnown(arms, settles);
    if k < |arms| {
      MergedLogsDistinct(arms[..k + 1]);
    }
  }

  lemma {:induction false} MergedConsultedDistinct<O>(arms: seq<Residual<O>>)
    ensures NoDuplicates(MergedConsulted(arms))
  {
    if arms != [] {
      var n := |arms| - 1;
      MergedConsultedDistinct(arms[..n]);
      ExtendedNoDuplicates(MergedConsulted(arms[..n]), ConsultedOf(arms[n]));
    }
  }

  lemma SetsConsultOnce<O>(lattice: Lattice<O>, arms: seq<Residual<O>>, partial: PartialFacts)
    ensures NoDuplicates(ConsultedOf(ReduceAll(lattice, arms, partial)))
    ensures NoDuplicates(ConsultedOf(ReduceAny(lattice, arms, partial)))
  {
    var k := FirstResolvedDenial(arms);
    ConsultedOfAny(lattice, arms, partial);
    MergedConsultedDistinct(arms);
    if k < |arms| {
      DeniedAllConsulted(lattice, arms, partial, k);
      MergedConsultedDistinct(arms[..k + 1]);
    } else {
      KeptAllConsulted(lattice, arms, partial);
    }
  }

  lemma {:induction false} PolicyConsultsOnce<O>(lattice: Lattice<O>, policy: Policy<O>, partial: PartialFacts)
    ensures NoDuplicates(ConsultedOf(PartialEvaluate(lattice, policy, partial)))
  {
    match policy
    case Grant(clause) => ConditionConsultsOnce(clause.condition, partial);
    case All(ps) => SetsConsultOnce(lattice, PartialEvaluateArms(lattice, ps, partial), partial);
    case Any(ps) => SetsConsultOnce(lattice, PartialEvaluateArms(lattice, ps, partial), partial);
    case OrElse(primary, fallback) =>
      PolicyConsultsOnce(lattice, primary, partial);
      ExtendedNoDuplicates(
        ConsultedOf(PartialEvaluate(lattice, primary, partial)),
        ConsultedOf(PartialEvaluate(lattice, fallback, partial)));
    case _ =>
  }

  // ----- constants in a residual cite consulted facts -----

  // The facts cited by the constants that reduction left in a residual.
  ghost function ConstantCited<O>(policy: ResidualPolicy<O>): set<FactId> {
    match policy
    case PermitWithTrace(_, _, satisfied, _) => set f | f in satisfied
    case DenyWithTrace(_, unsatisfied, _, _, _) => set f | f in unsatisfied
    case All(arms) => set i, f | 0 <= i < |arms| && f in ConstantCited(arms[i]) :: f
    case Any(arms) => set i, f | 0 <= i < |arms| && f in ConstantCited(arms[i]) :: f
    case OrElse(primary, fallback) => ConstantCited(primary) + ConstantCited(fallback)
    case _ => {}
  }

  ghost predicate CitesBacked<O>(residual: Residual<O>, partial: PartialFacts) {
    var cited := if residual.Resolved? then Cited(residual.decision.decisive) else ConstantCited(residual.residual);
    forall f | f in cited :: Unsettled(partial, f) || f in Named(ConsultedOf(residual))
  }

  lemma RebuiltCites<O>(decision: Decision<O>)
    ensures ConstantCited(PolicyFromDecision(decision)) <= Cited(decision.decisive)
  {
  }

  ghost predicate CitesWithin<O>(policies: seq<ResidualPolicy<O>>, log: Log, partial: PartialFacts) {
    forall p, f | p in policies && f in ConstantCited(p) :: Unsettled(partial, f) || f in Named(log)
  }

  lemma CitesWithinMore<O>(policies: seq<ResidualPolicy<O>>, log: Log, more: Log, partial: PartialFacts)
    requires CitesWithin(policies, log, partial) && Named(log) <= Named(more)
    ensures CitesWithin(policies, more, partial)
  {
  }

  lemma CitesWithinAppend<O>(
      policies: seq<ResidualPolicy<O>>, last: ResidualPolicy<O>, log: Log, partial: PartialFacts)
    requires CitesWithin(policies, log, partial)
    requires forall f | f in ConstantCited(last) :: Unsettled(partial, f) || f in Named(log)
    ensures CitesWithin(policies + [last], log, partial)
  {
  }

  lemma {:induction false} KeptCites<O>(arms: seq<Residual<O>>, partial: PartialFacts)
    requires forall i | 0 <= i < |arms| :: CitesBacked(arms[i], partial)
    ensures CitesWithin(ResolvedPermits(arms), MergedConsulted(arms), partial)
    ensures CitesWithin(PendingResiduals(arms), MergedConsulted(arms), partial)
  {
    if arms != [] {
      var n := |arms| - 1;
      var log, last := MergedConsulted(arms), arms[n];
      KeptCites(arms[..n], partial);
      NamedExtended(MergedConsulted(arms[..n]), ConsultedOf(last));
      CitesWithinMore(ResolvedPermits(arms[..n]), MergedConsulted(arms[..n]), log, partial);
      CitesWithinMore(PendingResiduals(arms[..n]), MergedConsulted(arms[..n]), log, partial);
      assert CitesBacked(last, partial);
      if ResolvedPermit(last) {
        RebuiltCites(last.decision);
        CitesWithinAppend(ResolvedPermits(arms[..n]), PolicyFromDecision(last.decision), log, partial);
      }
      if last.Pending? {
        CitesWithinAppend(PendingResiduals(arms[..n]), last.residual, log, partial);
      }
    }
  }

  lemma SetCites<O>(policies: seq<ResidualPolicy<O>>, log: Log, partial: PartialFacts)
    requires CitesWithin(policies, log, partial)
    ensures forall f | f in ConstantCited(ResidualPolicy.All(policies)) :: Unsettled(partial, f) || f in Named(log)
    ensures forall f | f in ConstantCited(ResidualPolicy.Any(policies)) :: Unsettled(partial, f) || f in Named(log)
  {
  }

  lemma PendingAllCites<O>(lattice: Lattice<O>, arms: seq<Residual<O>>, partial: PartialFacts)
    requires forall i | 0 <= i < |arms| :: CitesBacked(arms[i], partial)
    requires ReduceAll(lattice, arms, partial).Pending?
    ensures CitesBacked(ReduceAll(lattice, arms, partial), partial)
  {
    KeptCites(arms, partial);
    SetCites(ResolvedPermits(arms) + PendingResiduals(arms), MergedConsulted(arms), partial);
  }

  lemma PendingAnyCites<O>(lattice: Lattice<O>, arms: seq<Residual<O>>, partial: PartialFacts)
    requires forall i | 0 <= i < |arms| :: CitesBacked(arms[i], partial)
    requires ReduceAny(lattice, arms, partial).Pending?
    ensures CitesBacked(ReduceAny(lattice, arms, partial), partial)
  {
    KeptCites(arms, partial);
    var k, log := FirstResolvedDenial(arms), MergedConsulted(arms);
    if ResolvedPermits(arms) == [] && k < |arms| {
      assert CitesBacked(arms[k], partial);
      RebuiltCites(arms[k].decision);
      MergedConsultedNames(arms);
      assert Named(ConsultedOf(arms[k])) <= Named(log);
      CitesWithinAppend([], PolicyFromDecision(arms[k].decision), log, partial);
      SetCites([PolicyFromDecision(arms[k].decision)] + PendingResiduals(arms), log, partial);
    } else {
      SetCites(ResolvedPermits(arms) + PendingResiduals(arms), log, partial);
    }
  }

  lemma {:induction false} ReductionCites<O>(lattice: Lattice<O>, policy: Policy<O>, partial: PartialFacts)
    ensures CitesBacked(PartialEvaluate(lattice, policy, partial), partial)
    decreases policy, 1
  {
    ReductionSound(lattice, policy, partial);
    if PartialEvaluate(lattice, policy, partial).Pending? {
      match policy
      case All(ps) =>
        ArmsCite(lattice, ps, partial);
        PendingAllCites(lattice, PartialEvaluateArms(lattice, ps, partial), partial);
      case Any(ps) =>
        ArmsCite(lattice, ps, partial);
        PendingAnyCites(lattice, PartialEvaluateArms(lattice, ps, partial), partial);
      case OrElse(primary, fallback) =>
        ReductionCites(lattice, primary, partial);
        ReductionCites(lattice, fallback, partial);
        EitherCites(
          PartialEvaluate(lattice, primary, partial), PartialEvaluate(lattice, fallback, partial), partial);
      case _ =>
    }
  }

  lemma EitherCites<O>(first: Residual<O>, second: Residual<O>, partial: PartialFacts)
    requires CitesBacked(first, partial) && CitesBacked(second, partial)
    requires ReduceOrElse(first, second).Pending?
    ensures CitesBacked(ReduceOrElse(first, second), partial)
  {
    NamedExtended(ConsultedOf(first), ConsultedOf(second));
    if second.Resolved? {
      RebuiltCites(second.decision);
    }
  }

  lemma {:induction false} ArmsCite<O>(lattice: Lattice<O>, ps: seq<Policy<O>>, partial: PartialFacts)
    ensures forall i | 0 <= i < |ps| :: CitesBacked(PartialEvaluateArms(lattice, ps, partial)[i], partial)
    decreases ps, 0
  {
    forall i | 0 <= i < |ps| ensures CitesBacked(PartialEvaluateArms(lattice, ps, partial)[i], partial) {
      ReductionCites(lattice, ps[i], partial);
    }
  }

  // ----- evaluating a residual cites its reads and its constants -----

  ghost predicate ResidualCites<O>(arm: Arm<O>, cited: set<FactId>) {
    Cited(arm.result.decisive) <= Named(arm.readLog) + cited
  }

  lemma {:induction false} ResidualCitesItsReads<O>(
      lattice: Lattice<O>, policy: ResidualPolicy<O>, facts: KnownFacts)
    ensures ResidualCites(EvalResidual(lattice, policy, facts), ConstantCited(policy))
    decreases policy, 1
  {
    match policy
    case Grant(clause) => ReadingFaithful(clause.condition, facts);
    case All(ps) =>
      ResidualArmsCite(lattice, policy, ps, facts);
      ResidualSetsCite(lattice, EvalResiduals(lattice, ps, facts), ConstantCited(policy));
    case Any(ps) =>
      ResidualArmsCite(lattice, policy, ps, facts);
      ResidualSetsCite(lattice, EvalResiduals(lattice, ps, facts), ConstantCited(policy));
    case OrElse(primary, fallback) =>
      ResidualCitesItsReads(lattice, primary, facts);
      ResidualCitesItsReads(lattice, fallback, facts);
      NamedAppend(EvalResidual(lattice, primary, facts).readLog, EvalResidual(lattice, fallback, facts).readLog);
    case _ =>
  }

  lemma {:induction false} ResidualArmsCite<O>(
      lattice: Lattice<O>, parent: ResidualPolicy<O>, ps: seq<ResidualPolicy<O>>, facts: KnownFacts)
    requires parent == ResidualPolicy.All(ps) || parent == ResidualPolicy.Any(ps)
    ensures forall i | 0 <= i < |ps| :: ResidualCites(EvalResiduals(lattice, ps, facts)[i], ConstantCited(parent))
    decreases ps, 0
  {
    forall i | 0 <= i < |ps| ensures ResidualCites(EvalResiduals(lattice, ps, facts)[i], ConstantCited(parent)) {
      ResidualCitesItsReads(lattice, ps[i], facts);
      assert ConstantCited(ps[i]) <= ConstantCited(parent);
    }
  }

  lemma ResidualSetsCite<O>(lattice: Lattice<O>, arms: seq<Arm<O>>, cited: set<FactId>)
    requires forall i | 0 <= i < |arms| :: ResidualCites(arms[i], cited)
    ensures ResidualCites(AllOfArms(lattice, arms), cited) && ResidualCites(AnyOfArms(lattice, arms), cited)
  {
    ReadsNameArms(arms);
    assert AllCiteWithin(arms, Named(ReadsOf(arms)) + cited) by {
      assert forall i | 0 <= i < |arms| :: ResidualCites(arms[i], cited);
    }
    CombinedCitesWithin(lattice, arms, Named(ReadsOf(arms)) + cited);
    var k := FirstDeny(arms);
    if k < |arms| {
      ReadsNameArms(arms[..k + 1]);
      assert Named(arms[..k + 1][k].readLog) <= Named(ReadsOf(arms[..k + 1]));
      assert ResidualCites(arms[k], cited);
    }
  }

  // ----- completed decisions -----

  lemma {:induction false} ExtendedKeepsFirst(log: Log, other: Log)
    ensures log <= Extended(log, other)
  {
    if other != [] {
      ExtendedKeepsFirst(log, other[..|other| - 1]);
    }
  }

  lemma {:induction false} DistinctIsOwnMerge(log: Log)
    requires NoDuplicates(log)
    ensures Extended([], log) == log
  {
    if log != [] {
      var n := |log| - 1;
      DistinctIsOwnMerge(log[..n]);
      forall i | 0 <= i < n ensures log[..n][i].0 != log[n].0 {
      }
      assert !Mentions(log[..n], log[n].0);
      assert log == log[..n] + [log[n]];
    }
  }

  lemma {:induction false} ResidualAccurate<O>(lattice: Lattice<O>, policy: ResidualPolicy<O>, facts: KnownFacts)
    ensures Accurate(EvalResidual(lattice, policy, facts).readLog, facts)
    decreases policy, 1
  {
    match policy
    case Grant(clause) => ReadingFaithful(clause.condition, facts);
    case All(ps) =>
      ResidualArmsAccurate(lattice, ps, facts);
      SetsAccurate(lattice, EvalResiduals(lattice, ps, facts), facts);
    case Any(ps) =>
      ResidualArmsAccurate(lattice, ps, facts);
      SetsAccurate(lattice, EvalResiduals(lattice, ps, facts), facts);
    case OrElse(primary, fallback) =>
      ResidualAccurate(lattice, primary, facts);
      ResidualAccurate(lattice, fallback, facts);
    case _ =>
  }

  lemma {:induction false} ResidualArmsAccurate<O>(
      lattice: Lattice<O>, ps: seq<ResidualPolicy<O>>, facts: KnownFacts)
    ensures forall i | 0 <= i < |ps| :: Accurate(EvalResiduals(lattice, ps, facts)[i].readLog, facts)
    decreases ps, 0
  {
    forall i | 0 <= i < |ps| ensures Accurate(EvalResiduals(lattice, ps, facts)[i].readLog, facts) {
      ResidualAccurate(lattice, ps[i], facts);
    }
  }

  lemma {:induction false} ReadsAccurate<O>(arms: seq<Arm<O>>, facts: KnownFacts)
    requires forall i | 0 <= i < |arms| :: Accurate(arms[i].readLog, facts)
    ensures Accurate(ReadsOf(arms), facts)
  {
    if arms != [] {
      ReadsAccurate(arms[..|arms| - 1], facts);
    }
  }

  lemma SetsAccurate<O>(lattice: Lattice<O>, arms: seq<Arm<O>>, facts: KnownFacts)
    requires forall i | 0 <= i < |arms| :: Accurate(arms[i].readLog, facts)
    ensures Accurate(AllOfArms(lattice, arms).readLog, facts) && Accurate(AnyOfArms(lattice, arms).readLog, facts)
  {
    ReadsAccurate(arms, facts);
    var k := FirstDeny(arms);
    if k < |arms| {
      ReadsAccurate(arms[..k + 1], facts);
    }
  }

  // The reads of the residual itself; a resolved result needs none.
  function ResidualReads<O(==)>(lattice: Lattice<O>, residual: Residual<O>, facts: KnownFacts): Log {
    if residual.Pending? then EvalResidual(lattice, residual.residual, facts).readLog else []
  }

  lemma CompletedList<O>(lattice: Lattice<O>, residual: Residual<O>, facts: KnownFacts)
    requires NoDuplicates(ConsultedOf(residual))
    ensures var log := CompleteResidual(lattice, residual, facts).consulted;
      log == Extended(ConsultedOf(residual), ResidualReads(lattice, residual, facts))
  {
    if residual.Pending? {
      var readLog := EvalResidual(lattice, residual.residual, facts).readLog;
      DistinctIsOwnMerge(residual.consulted);
      ExtendedMerged(residual.consulted, [], readLog);
    }
  }

  lemma SettledIsAccurate(log: Log, partial: PartialFacts, facts: KnownFacts)
    requires DecisiveEvidence.Settled(log, partial) && Completes(facts, partial)
    ensures Accurate(log, facts)
  {
  }

  // The completed list: what partial evaluation consulted, in its order, then what the residual read
  // for the first time; each fact once, at its presence in the completing facts.
  lemma CompletedConsulted<O>(
      lattice: Lattice<O>, policy: Policy<O>, partial: PartialFacts, facts: KnownFacts)
    requires Completes(facts, partial)
    ensures
      var residual := PartialEvaluate(lattice, policy, partial);
      var log := CompleteResidual(lattice, residual, facts).consulted;
      && NoDuplicates(log) && Accurate(log, facts)
      && ConsultedOf(residual) <= log
      && Named(log) == Named(ConsultedOf(residual)) + Named(ResidualReads(lattice, residual, facts))
  {
    var residual := PartialEvaluate(lattice, policy, partial);
    var first, readLog := ConsultedOf(residual), ResidualReads(lattice, residual, facts);
    PolicyConsultsOnce(lattice, policy, partial);
    CompletedList(lattice, residual, facts);
    ReductionSound(lattice, policy, partial);
    SettledIsAccurate(first, partial, facts);
    if residual.Pending? {
      ResidualAccurate(lattice, residual.residual, facts);
    }
    ExtendedNoDuplicates(first, readLog);
    ExtendedAccurate(first, readLog, facts);
    ExtendedKeepsFirst(first, readLog);
    NamedExtended(first, readLog);
  }

  // A completed decision consulted every fact of its decisive clause, except facts unknown to partial
  // evaluation that a constant cites.
  lemma CompletedCitesConsulted<O>(
      lattice: Lattice<O>, policy: Policy<O>, partial: PartialFacts, facts: KnownFacts)
    requires Completes(facts, partial)
    ensures var decision := CompleteResidual(lattice, PartialEvaluate(lattice, policy, partial), facts);
      forall f | f in Cited(decision.decisive) && PresenceOf(partial, f) != Unknown ::
        Mentions(decision.consulted, f)
  {
    var residual := PartialEvaluate(lattice, policy, partial);
    var decision := CompleteResidual(lattice, residual, facts);
    CompletedConsulted(lattice, policy, partial, facts);
    ReductionCites(lattice, policy, partial);
    if residual.Pending? {
      ResidualCitesItsReads(lattice, residual.residual, facts);
    }
    forall f | f in Cited(decision.decisive) && PresenceOf(partial, f) != Unknown
      ensures Mentions(decision.consulted, f)
    {
      assert f in Named(decision.consulted);
    }
  }

  // ----- the consulted facts certify a partial result -----

  lemma {:induction false} SettledSetLocal(
      reduced: seq<CR.ReducedCondition>, other: seq<CR.ReducedCondition>, settles: bool, k: nat)
    requires k == CR.FirstKnown(reduced, settles) < |reduced| && |other| == |reduced|
    requires reduced[..k + 1] == other[..k + 1]
    ensures CR.Merged(reduced, settles) == CR.Merged(other, settles)
  {
    forall i | 0 <= i <= k ensures reduced[i] == other[i] {
      assert reduced[..k + 1][i] == other[..k + 1][i];
    }
    assert CR.FirstKnown(other, settles) == k;
  }

  lemma {:induction false} SettledReadingLocal(readings: seq<Reading>, other: seq<Reading>, settles: bool, k: nat)
    requires k < |readings| == |other| && readings[..k + 1] == other[..k + 1]
    requires readings[k].satisfied == settles
    ensures Combined(readings, settles) == Combined(other, settles)
  {
    forall i | 0 <= i <= k ensures readings[i] == other[i] {
      assert readings[..k + 1][i] == other[..k + 1][i];
    }
    var j := FirstSettling(readings, settles);
    assert j <= k && FirstSettling(other, settles) == j;
    assert readings[..j + 1] == readings[..k + 1][..j + 1] == other[..j + 1];
  }

  // Facts that agree on what a reduction looked at give the same reduction, and the same reading with
  // unknown facts taken as absent.
  ghost predicate SameReduction(condition: Condition, partial: PartialFacts, other: PartialFacts) {
    && CR.ReduceCondition(condition, other) == CR.ReduceCondition(condition, partial)
    && EvalCondition(condition, PartialToKnown(other)) == EvalCondition(condition, PartialToKnown(partial))
  }

  lemma {:induction false} ReductionLocal(condition: Condition, partial: PartialFacts, other: PartialFacts)
    requires AgreeOn(Visited(condition, partial), partial, other)
    ensures SameReduction(condition, partial, other)
    decreases condition, 1
  {
    match condition
    case Has(fact) =>
      assert fact in Visited(condition, partial);
      assert PresenceOf(partial, fact) == PresenceOf(other, fact);
    case Not(inner) => ReductionLocal(inner, partial, other);
    case AllOf(cs) => ReductionsLocal(condition, cs, false, partial, other);
    case AnyOf(cs) => ReductionsLocal(condition, cs, true, partial, other);
    case _ =>
  }

  lemma {:induction false} ReductionsLocal(
      parent: Condition, cs: seq<Condition>, settles: bool, partial: PartialFacts, other: PartialFacts)
    requires parent == if settles then AnyOf(cs) else AllOf(cs)
    requires AgreeOn(Visited(parent, partial), partial, other)
    ensures SameReduction(parent, partial, other)
    decreases cs, 0
  {
    var k := CR.FirstKnown(CR.ReduceConditions(cs, partial), settles);
    FirstKnownIsAbsorbing(cs, settles, partial);
    forall i | 0 <= i < |cs| && i <= k ensures SameReduction(cs[i], partial, other) {
      TogetherContains(VisitedByEach(cs, partial), k, i);
      ReductionLocal(cs[i], partial, other);
    }
    SetLocal(parent, cs, settles, partial, other);
  }

  lemma TogetherContains(sets: seq<set<FactId>>, stop: nat, i: nat)
    requires i < |sets| && i <= stop
    ensures sets[i] <= Together(sets, stop)
  {
  }

  lemma {:induction false} SetLocal(
      parent: Condition, cs: seq<Condition>, settles: bool, partial: PartialFacts, other: PartialFacts)
    requires parent == if settles then AnyOf(cs) else AllOf(cs)
    requires var k := CR.FirstKnown(CR.ReduceConditions(cs, partial), settles);
      forall i | 0 <= i < |cs| && i <= k :: SameReduction(cs[i], partial, other)
    ensures SameReduction(parent, partial, other)
  {
    var before, after := CR.ReduceConditions(cs, partial), CR.ReduceConditions(cs, other);
    var known, changed := PartialToKnown(partial), PartialToKnown(other);
    var was, now := EvalConditions(cs, known), EvalConditions(cs, changed);
    var k := CR.FirstKnown(before, settles);
    forall i | 0 <= i < |cs| && i <= k ensures before[i] == after[i] && was[i] == now[i] {
      assert SameReduction(cs[i], partial, other);
    }
    if k < |cs| {
      assert before[..k + 1] == after[..k + 1] && was[..k + 1] == now[..k + 1];
      CR.ReductionAgrees(cs[k], partial, known);
      ReadingHolds(cs[k], known);
      SettledSetLocal(before, after, settles, k);
      SettledReadingLocal(was, now, settles, k);
    } else {
      assert before == after && was == now;
    }
  }

  lemma {:induction false} ConstantsIgnoreFacts<O>(
      lattice: Lattice<O>, arms: seq<Residual<O>>, left: KnownFacts, right: KnownFacts)
    ensures EvalResiduals(lattice, ResolvedPermits(arms), left) == EvalResiduals(lattice, ResolvedPermits(arms), right)
  {
    if arms != [] {
      var n := |arms| - 1;
      ConstantsIgnoreFacts(lattice, arms[..n], left, right);
      if ResolvedPermit(arms[n]) {
        ConstantsAppend(lattice, ResolvedPermits(arms[..n]), PolicyFromDecision(arms[n].decision), left);
        ConstantsAppend(lattice, ResolvedPermits(arms[..n]), PolicyFromDecision(arms[n].decision), right);
      }
    }
  }

  lemma {:induction false} DeniedAllLocal<O>(
      lattice: Lattice<O>, arms: seq<Residual<O>>, changed: seq<Residual<O>>,
      partial: PartialFacts, other: PartialFacts, k: nat)
    requires k == FirstResolvedDenial(arms) < |arms| && |changed| == |arms|
    requires arms[..k + 1] == changed[..k + 1]
    ensures ReduceAll(lattice, changed, other) == ReduceAll(lattice, arms, partial)
  {
    forall i | 0 <= i <= k ensures arms[i] == changed[i] {
      assert arms[..k + 1][i] == changed[..k + 1][i];
    }
    assert FirstResolvedDenial(changed) == k;
  }

  lemma {:induction false} KeptAllLocal<O>(
      lattice: Lattice<O>, arms: seq<Residual<O>>, partial: PartialFacts, other: PartialFacts)
    ensures ReduceAll(lattice, arms, other) == ReduceAll(lattice, arms, partial)
  {
    ConstantsIgnoreFacts(lattice, arms, PartialToKnown(partial), PartialToKnown(other));
  }

  lemma {:induction false} AnyLocal<O>(
      lattice: Lattice<O>, arms: seq<Residual<O>>, partial: PartialFacts, other: PartialFacts)
    ensures ReduceAny(lattice, arms, other) == ReduceAny(lattice, arms, partial)
  {
    ConstantsIgnoreFacts(lattice, arms, PartialToKnown(partial), PartialToKnown(other));
  }

  lemma GrantLocal<O>(lattice: Lattice<O>, clause: Clause<O>, partial: PartialFacts, other: PartialFacts)
    requires SameReduction(clause.condition, partial, other)
    ensures ReduceGrant(lattice, clause, other) == ReduceGrant(lattice, clause, partial)
  {
  }

  lemma {:induction false} PartialLocal<O>(
      lattice: Lattice<O>, policy: Policy<O>, partial: PartialFacts, other: PartialFacts)
    requires AgreeOn(PolicyVisited(lattice, policy, partial), partial, other)
    ensures PartialEvaluate(lattice, policy, other) == PartialEvaluate(lattice, policy, partial)
    decreases policy, 1
  {
    match policy
    case Grant(clause) =>
      ReductionLocal(clause.condition, partial, other);
      GrantLocal(lattice, clause, partial, other);
    case All(ps) =>
      var arms, changed := PartialEvaluateArms(lattice, ps, partial), PartialEvaluateArms(lattice, ps, other);
      FirstDenialIsAbsorbing(lattice, ps, partial);
      PrefixLocal(lattice, ps, partial, other, FirstResolvedDenial(arms));
      AllLocal(lattice, arms, changed, partial, other);
    case Any(ps) =>
      var arms, changed := PartialEvaluateArms(lattice, ps, partial), PartialEvaluateArms(lattice, ps, other);
      PrefixLocal(lattice, ps, partial, other, |ps|);
      assert arms == changed;
      AnyLocal(lattice, arms, partial, other);
    case OrElse(primary, fallback) =>
      PartialLocal(lattice, primary, partial, other);
      if !ResolvedPermit(PartialEvaluate(lattice, primary, partial)) {
        PartialLocal(lattice, fallback, partial, other);
      }
    case _ =>
  }

  lemma {:induction false} PrefixLocal<O>(
      lattice: Lattice<O>, ps: seq<Policy<O>>, partial: PartialFacts, other: PartialFacts, stop: nat)
    requires AgreeOn(Together(PolicyVisitedByEach(lattice, ps, partial), stop), partial, other)
    ensures forall i | 0 <= i < |ps| && i <= stop ::
      PartialEvaluateArms(lattice, ps, other)[i] == PartialEvaluateArms(lattice, ps, partial)[i]
    decreases ps, 0
  {
    forall i | 0 <= i < |ps| && i <= stop
      ensures PartialEvaluateArms(lattice, ps, other)[i] == PartialEvaluateArms(lattice, ps, partial)[i]
    {
      TogetherContains(PolicyVisitedByEach(lattice, ps, partial), stop, i);
      PartialLocal(lattice, ps[i], partial, other);
    }
  }

  lemma {:induction false} AllLocal<O>(
      lattice: Lattice<O>, arms: seq<Residual<O>>, changed: seq<Residual<O>>,
      partial: PartialFacts, other: PartialFacts)
    requires |arms| == |changed|
    requires forall i | 0 <= i < |arms| && i <= FirstResolvedDenial(arms) :: changed[i] == arms[i]
    ensures ReduceAll(lattice, changed, other) == ReduceAll(lattice, arms, partial)
  {
    var k := FirstResolvedDenial(arms);
    if k < |arms| {
      assert arms[..k + 1] == changed[..k + 1];
      DeniedAllLocal(lattice, arms, changed, partial, other, k);
    } else {
      assert arms == changed;
      KeptAllLocal(lattice, arms, partial, other);
    }
  }

  // The consulted list certifies a partial result, resolved or pending: facts that keep the consulted
  // ones and leave the unknown ones unknown give the same result, whatever the others become.
  lemma ConsultedCertifiesPartial<O>(
      lattice: Lattice<O>, policy: Policy<O>, partial: PartialFacts, other: PartialFacts)
    requires AgreeOn(Named(ConsultedOf(PartialEvaluate(lattice, policy, partial))), partial, other)
    requires forall f | PresenceOf(partial, f) == Unknown :: PresenceOf(other, f) == Unknown
    ensures PartialEvaluate(lattice, policy, other) == PartialEvaluate(lattice, policy, partial)
  {
    PolicyConsultsVisited(lattice, policy, partial);
    PartialLocal(lattice, policy, partial, other);
  }
}
