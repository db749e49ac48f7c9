/** The decisive clause and the consulted facts: when a decision cites only what it read. */
module DecisiveEvidence {
  import opened Wrappers
  import opened Facts
  import opened Policies
  import opened Consulting
  import opened Conditions
  import opened Evaluation
  import opened PartialEvaluation
  import CR = ConditionReduction

  function Cited<O>(clause: DecisiveClause<O>): set<FactId> {
    match clause
    case Permit(_, satisfied, _) => set f | f in satisfied
    case Deny(_, unsatisfied, _, _, _) => set f | f in unsatisfied
  }

  function Named(log: Log): set<FactId> {
    set i | 0 <= i < |log| :: log[i].0
  }

  lemma NamedAppend(left: Log, right: Log)
    ensures Named(left + right) == Named(left) + Named(right)
  {
    forall f ensures f in Named(left + right) <==> f in Named(left) || f in Named(right) {
      MentionsAppend(left, right, f);
    }
  }

  lemma NamedExtended(log: Log, other: Log)
    ensures Named(Extended(log, other)) == Named(log) + Named(other)
  {
    forall f ensures f in Named(Extended(log, other)) <==> f in Named(log) || f in Named(other) {
      ExtendedMentions(log, other, f);
    }
  }

  // ----- combined results cite what an arm cites -----

  ghost predicate AllCiteWithin<O>(arms: seq<Arm<O>>, scope: set<FactId>) {
    forall i | 0 <= i < |arms| :: Cited(arms[i].result.decisive) <= scope
  }

  lemma {:induction false} FoldCitesWithin<O>(
      lattice: Lattice<O>, mode: Mode, arms: seq<Arm<O>>, scope: set<FactId>)
    requires AllCiteWithin(arms, scope)
    ensures var permit := FoldPermits(lattice, mode, arms);
      permit.Some? ==> Cited(permit.value.decisive) <= scope
  {
    if arms != [] {
      FoldCitesWithin(lattice, mode, arms[..|arms| - 1], scope);
    }
  }

  lemma CombinedCitesWithin<O>(lattice: Lattice<O>, arms: seq<Arm<O>>, scope: set<FactId>)
    requires AllCiteWithin(arms, scope)
    ensures Cited(AllOfArms(lattice, arms).result.decisive) <= scope
    ensures Cited(AnyOfArms(lattice, arms).result.decisive) <= scope
  {
    FoldCitesWithin(lattice, ByMeet, arms, scope);
    FoldCitesWithin(lattice, ByJoin, arms, scope);
  }

  // ----- direct evaluation -----

  ghost predicate CitesItsReads<O>(arm: Arm<O>) {
    Cited(arm.result.decisive) <= Named(arm.readLog)
  }

  lemma {:induction false} ReadsNameArms<O>(arms: seq<Arm<O>>)
    ensures forall i | 0 <= i < |arms| :: Named(arms[i].readLog) <= Named(ReadsOf(arms))
  {
    if arms != [] {
      var n := |arms| - 1;
      ReadsNameArms(arms[..n]);
      NamedAppend(ReadsOf(arms[..n]), arms[n].readLog);
      assert arms == arms[..n] + [arms[n]];
    }
  }

  lemma SetsCiteTheirReads<O>(lattice: Lattice<O>, arms: seq<Arm<O>>)
    requires forall i | 0 <= i < |arms| :: CitesItsReads(arms[i])
    ensures CitesItsReads(AllOfArms(lattice, arms)) && CitesItsReads(AnyOfArms(lattice, arms))
  {
    ReadsNameArms(arms);
    assert AllCiteWithin(arms, Named(ReadsOf(arms))) by {
      assert forall i | 0 <= i < |arms| :: CitesItsReads(arms[i]);
    }
    CombinedCitesWithin(lattice, arms, Named(ReadsOf(arms)));
    var k := FirstDeny(arms);
    if k < |arms| {
      ReadsNameArms(arms[..k + 1]);
      assert CitesItsReads(arms[..k + 1][k]);
    }
  }

  lemma {:induction false} EvaluationCitesItsReads<O>(lattice: Lattice<O>, policy: Policy<O>, facts: KnownFacts)
    ensures CitesItsReads(EvalPolicy(lattice, policy, facts))
    decreases policy, 1
  {
    match policy
    case Grant(clause) => ReadingFaithful(clause.condition, facts);
    case All(ps) =>
      ArmsCiteTheirReads(lattice, ps, facts);
      SetsCiteTheirReads(lattice, EvalPolicies(lattice, ps, facts));
    case Any(ps) =>
      ArmsCiteTheirReads(lattice, ps, facts);
      SetsCiteTheirReads(lattice, EvalPolicies(lattice, ps, facts));
    case OrElse(primary, fallback) =>
      EvaluationCitesItsReads(lattice, primary, facts);
      EvaluationCitesItsReads(lattice, fallback, facts);
      var first, second := EvalPolicy(lattice, primary, facts), EvalPolicy(lattice, fallback, facts);
      NamedAppend(first.readLog, second.readLog);
    case _ =>
  }

  lemma {:induction false} ArmsCiteTheirReads<O>(lattice: Lattice<O>, ps: seq<Policy<O>>, facts: KnownFacts)
    ensures forall i | 0 <= i < |ps| :: CitesItsReads(EvalPolicies(lattice, ps, facts)[i])
    decreases ps, 0
  {
    forall i | 0 <= i < |ps| ensures CitesItsReads(EvalPolicies(lattice, ps, facts)[i]) {
      EvaluationCitesItsReads(lattice, ps[i], facts);
    }
  }

  // Directly evaluated, every fact of the decisive clause was consulted.
  lemma DecisiveFactsWereConsulted<O>(lattice: Lattice<O>, policy: Policy<O>, facts: KnownFacts)
    ensures var decision := Evaluate(lattice, policy, facts);
      forall f | f in Cited(decision.decisive) :: Mentions(decision.consulted, f)
  {
    EvaluationCitesItsReads(lattice, policy, facts);
    var arm := EvalPolicy(lattice, policy, facts);
    NamedExtended([], arm.readLog);
    assert Cited(arm.result.decisive) <= Named(Extended([], arm.readLog));
  }

  // ----- reduced conditions -----

  ghost predicate Unsettled(partial: PartialFacts, fact: FactId) {
    PresenceOf(partial, fact) == Unknown
  }

  // A fact is in the list only at its known presence.
  ghost predicate Settled(log: Log, partial: PartialFacts) {
    forall i | 0 <= i < |log| :: log[i].1 == PresenceOf(partial, log[i].0) && log[i].1 != Unknown
  }

  lemma {:induction false} ExtendedSettled(log: Log, other: Log, partial: PartialFacts)
    requires Settled(log, partial) && Settled(other, partial)
    ensures Settled(Extended(log, other), partial)
  {
    if other != [] {
      ExtendedSettled(log, other[..|other| - 1], partial);
    }
  }

  lemma {:induction false} MergedSettledLogs(arms: seq<CR.ReducedCondition>, partial: PartialFacts)
    requires forall i | 0 <= i < |arms| :: Settled(arms[i].consulted, partial)
    ensures Settled(CR.MergedLogs(arms), partial)
  {
    if arms != [] {
      var n := |arms| - 1;
      MergedSettledLogs(arms[..n], partial);
      ExtendedSettled(CR.MergedLogs(arms[..n]), arms[n].consulted, partial);
    }
  }

  lemma {:induction false} ConditionConsultsSettled(condition: Condition, partial: PartialFacts)
    ensures Settled(CR.ReduceCondition(condition, partial).consulted, partial)
    decreases condition, 1
  {
    match condition
    case Not(inner) => ConditionConsultsSettled(inner, partial);
    case AllOf(cs) => ConditionsConsultSettled(cs, false, partial);
    case AnyOf(cs) => ConditionsConsultSettled(cs, true, partial);
    case _ =>
  }

  lemma {:induction false} ConditionsConsultSettled(cs: seq<Condition>, settles: bool, partial: PartialFacts)
    ensures Settled(CR.Merged(CR.ReduceConditions(cs, partial), settles).consulted, partial)
    decreases cs, 0
  {
    var arms := CR.ReduceConditions(cs, partial);
    forall i | 0 <= i < |arms| ensures Settled(arms[i].consulted, partial) {
      ConditionConsultsSettled(cs[i], partial);
    }
    MergedIsSettled(arms, settles, partial);
  }

  lemma MergedIsSettled(arms: seq<CR.ReducedCondition>, settles: bool, partial: PartialFacts)
    requires forall i | 0 <= i < |arms| :: Settled(arms[i].consulted, partial)
    ensures Settled(CR.Merged(arms, settles).consulted, partial)
  {
    MergedSettledLogs(arms, partial);
    var k := CR.FirstKnown(arms, settles);
    if k < |arms| {
      MergedSettledLogs(arms[..k + 1], partial);
    }
  }

  // Read with every unknown fact taken as absent, a condition is decided by unknown facts or by
  // facts its reduction consulted.
  ghost predicate Backed(decisive: seq<FactId>, log: Log, partial: PartialFacts) {
    forall f | f in decisive :: Unsettled(partial, f) || f in Named(log)
  }

  lemma {:induction false} MergedLogsName(arms: seq<CR.ReducedCondition>)
    ensures forall i | 0 <= i < |arms| :: Named(arms[i].consulted) <= Named(CR.MergedLogs(arms))
  {
    if arms != [] {
      var n := |arms| - 1;
      MergedLogsName(arms[..n]);
      NamedExtended(CR.MergedLogs(arms[..n]), arms[n].consulted);
      assert arms == arms[..n] + [arms[n]];
    }
  }

  lemma {:induction false} DecisivesBacked(
      arms: seq<CR.ReducedCondition>, readings: seq<Reading>, log: Log, partial: PartialFacts)
    requires |arms| == |readings|
    requires forall i | 0 <= i < |arms| :: Backed(readings[i].decisive, log, partial)
    ensures Backed(Decisives(readings), log, partial)
  {
    if arms != [] {
      var n := |arms| - 1;
      DecisivesBacked(arms[..n], readings[..n], log, partial);
    }
  }

  lemma BackedByMore(decisive: seq<FactId>, log: Log, more: Log, partial: PartialFacts)
    requires Backed(decisive, log, partial) && Named(log) <= Named(more)
    ensures Backed(decisive, more, partial)
  {
  }

  ghost predicate BackedBy(arms: seq<CR.ReducedCondition>, readings: seq<Reading>, partial: PartialFacts) {
    && |arms| == |readings|
    && forall i | 0 <= i < |arms| :: Backed(readings[i].decisive, arms[i].consulted, partial)
  }

  lemma {:induction false} AllBacked(
      arms: seq<CR.ReducedCondition>, readings: seq<Reading>, partial: PartialFacts)
    requires BackedBy(arms, readings, partial)
    ensures Backed(Decisives(readings), CR.MergedLogs(arms), partial)
    ensures forall i | 0 <= i < |arms| :: Backed(readings[i].decisive, CR.MergedLogs(arms), partial)
  {
    MergedLogsName(arms);
    forall i | 0 <= i < |arms| ensures Backed(readings[i].decisive, CR.MergedLogs(arms), partial) {
      BackedByMore(readings[i].decisive, arms[i].consulted, CR.MergedLogs(arms), partial);
    }
    DecisivesBacked(arms, readings, CR.MergedLogs(arms), partial);
  }

  // A reduction cannot settle before the reading does.
  lemma {:induction false} MergedBacked(
      arms: seq<CR.ReducedCondition>, readings: seq<Reading>, settles: bool, partial: PartialFacts)
    requires BackedBy(arms, readings, partial)
    requires forall i | 0 <= i < |arms| && arms[i].Known? :: arms[i].satisfied == readings[i].satisfied
    ensures Backed(Combined(readings, settles).decisive, CR.Merged(arms, settles).consulted, partial)
  {
    var k, j := FirstSettling(readings, settles), CR.FirstKnown(arms, settles);
    if j < |arms| {
      assert k <= j;
      AllBacked(arms[..j + 1], readings[..j + 1], partial);
      assert readings[..j + 1][k] == readings[k];
    } else {
      AllBacked(arms, readings, partial);
    }
  }

  lemma {:induction false} ConditionBacked(condition: Condition, partial: PartialFacts)
    ensures Backed(
      EvalCondition(condition, PartialToKnown(partial)).decisive,
      CR.ReduceCondition(condition, partial).consulted, partial)
    decreases condition, 1
  {
    match condition
    case Has(fact) =>
      var log := CR.ReduceCondition(condition, partial).consulted;
      if !Unsettled(partial, fact) {
        assert log[0].0 == fact;
      }
    case Not(inner) => ConditionBacked(inner, partial);
    case AllOf(cs) => ConditionsBacked(cs, false, partial);
    case AnyOf(cs) => ConditionsBacked(cs, true, partial);
    case _ =>
  }

  lemma {:induction false} ConditionsBacked(cs: seq<Condition>, settles: bool, partial: PartialFacts)
    ensures Backed(
      Combined(EvalConditions(cs, PartialToKnown(partial)), settles).decisive,
      CR.Merged(CR.ReduceConditions(cs, partial), settles).consulted, partial)
    decreases cs, 0
  {
    var known := PartialToKnown(partial);
    var arms, readings := CR.ReduceConditions(cs, partial), EvalConditions(cs, known);
    forall i | 0 <= i < |cs|
      ensures Backed(readings[i].decisive, arms[i].consulted, partial)
      ensures arms[i].Known? ==> arms[i].satisfied == readings[i].satisfied
    {
      ConditionBacked(cs[i], partial);
      CR.ReductionAgrees(cs[i], partial, known);
      ReadingHolds(cs[i], known);
    }
    MergedBacked(arms, readings, settles, partial);
  }

  // ----- reduced policies -----

  ghost predicate ResolvedBacked<O>(residual: Residual<O>, partial: PartialFacts) {
    residual.Resolved? ==>
      forall f | f in Cited(residual.decision.decisive) ::
        Unsettled(partial, f) || f in Named(residual.decision.consulted)
  }

  ghost predicate Sound<O>(residual: Residual<O>, partial: PartialFacts) {
    Settled(ConsultedOf(residual), partial) && ResolvedBacked(residual, partial)
  }

  lemma {:induction false} MergedConsultedNames<O>(arms: seq<Residual<O>>)
    ensures forall i | 0 <= i < |arms| :: Named(ConsultedOf(arms[i])) <= Named(MergedConsulted(arms))
  {
    if arms != [] {
      var n := |arms| - 1;
      MergedConsultedNames(arms[..n]);
      NamedExtended(MergedConsulted(arms[..n]), ConsultedOf(arms[n]));
      assert arms == arms[..n] + [arms[n]];
    }
  }

  lemma {:induction false} MergedConsultedSettled<O>(arms: seq<Residual<O>>, partial: PartialFacts)
    requires forall i | 0 <= i < |arms| :: Sound(arms[i], partial)
    ensures Settled(MergedConsulted(arms), partial)
  {
    if arms != [] {
      var n := |arms| - 1;
      MergedConsultedSettled(arms[..n], partial);
      assert Sound(arms[n], partial);
      ExtendedSettled(MergedConsulted(arms[..n]), ConsultedOf(arms[n]), partial);
    }
  }

  // The facts that resolved arms cite.
  ghost function ResolvedCited<O>(arms: seq<Residual<O>>): set<FactId> {
    set i, f | 0 <= i < |arms| && arms[i].Resolved? && f in Cited(arms[i].decision.decisive) :: f
  }

  lemma ConstantsAppend<O>(
      lattice: Lattice<O>, left: seq<ResidualPolicy<O>>, last: ResidualPolicy<O>, facts: KnownFacts)
    ensures EvalResiduals(lattice, left + [last], facts) ==
      EvalResiduals(lattice, left, facts) + [EvalResidual(lattice, last, facts)]
  {
  }

  lemma {:induction false} ConstantsCite<O>(
      lattice: Lattice<O>, arms: seq<Residual<O>>, scope: set<FactId>, facts: KnownFacts)
    requires forall i | 0 <= i < |arms| && arms[i].Resolved? :: Cited(arms[i].decision.decisive) <= scope
    ensures AllCiteWithin(EvalResiduals(lattice, ResolvedPermits(arms), facts), scope)
  {
    if arms != [] {
      var n := |arms| - 1;
      ConstantsCite(lattice, arms[..n], scope, facts);
      if ResolvedPermit(arms[n]) {
        ConstantsAppend(lattice, ResolvedPermits(arms[..n]), PolicyFromDecision(arms[n].decision), facts);
      }
    }
  }

  lemma ResolvedCitedAreNamed<O>(arms: seq<Residual<O>>, partial: PartialFacts)
    requires forall i | 0 <= i < |arms| :: Sound(arms[i], partial)
    ensures forall f | f in ResolvedCited(arms) :: Unsettled(partial, f) || f in Named(MergedConsulted(arms))
  {
    MergedConsultedNames(arms);
    forall f | f in ResolvedCited(arms) ensures Unsettled(partial, f) || f in Named(MergedConsulted(arms)) {
      var i :| 0 <= i < |arms| && arms[i].Resolved? && f in Cited(arms[i].decision.decisive);
      assert Sound(arms[i], partial);
      assert Named(ConsultedOf(arms[i])) <= Named(MergedConsulted(arms));
    }
  }

  lemma ArmsAreCited<O>(arms: seq<Residual<O>>)
    ensures forall i | 0 <= i < |arms| && arms[i].Resolved? ::
      Cited(arms[i].decision.decisive) <= ResolvedCited(arms)
  {
  }

  lemma ConstantsCiteTheirArms<O>(lattice: Lattice<O>, arms: seq<Residual<O>>, facts: KnownFacts)
    ensures AllCiteWithin(EvalResiduals(lattice, ResolvedPermits(arms), facts), ResolvedCited(arms))
  {
    ArmsAreCited(arms);
    ConstantsCite(lattice, arms, ResolvedCited(arms), facts);
  }

  lemma ConstantsCombinedCite<O>(
      lattice: Lattice<O>, constants: seq<ResidualPolicy<O>>, scope: set<FactId>, facts: KnownFacts)
    requires AllCiteWithin(EvalResiduals(lattice, constants, facts), scope)
    ensures Cited(EvaluateResidual(lattice, ResidualPolicy.All(constants), facts).decisive) <= scope
    ensures Cited(EvaluateResidual(lattice, ResidualPolicy.Any(constants), facts).decisive) <= scope
  {
    CombinedCitesWithin(lattice, EvalResiduals(lattice, constants, facts), scope);
  }

  lemma ResolvedConstantsSound<O>(arms: seq<Residual<O>>, partial: PartialFacts, decision: Decision<O>)
    requires forall i | 0 <= i < |arms| :: Sound(arms[i], partial)
    requires Cited(decision.decisive) <= ResolvedCited(arms)
    ensures Sound(Resolved(WithConsulted(decision, MergedConsulted(arms))), partial)
  {
    ResolvedCitedAreNamed(arms, partial);
    MergedConsultedSettled(arms, partial);
  }

  lemma DenialSound<O>(arms: seq<Residual<O>>, used: seq<Residual<O>>, k: nat, partial: PartialFacts)
    requires k < |used| <= |arms| && used == arms[..|used|] && arms[k].Resolved?
    requires forall i | 0 <= i < |arms| :: Sound(arms[i], partial)
    ensures Sound(Resolved(WithConsulted(arms[k].decision, MergedConsulted(used))), partial)
  {
    assert used[k] == arms[k] && Sound(arms[k], partial);
    MergedConsultedNames(used);
    assert Named(ConsultedOf(used[k])) <= Named(MergedConsulted(used));
    MergedConsultedSettled(used, partial);
  }

  lemma AllSound<O>(lattice: Lattice<O>, arms: seq<Residual<O>>, partial: PartialFacts)
    requires forall i | 0 <= i < |arms| :: Sound(arms[i], partial)
    ensures Sound(ReduceAll(lattice, arms, partial), partial)
  {
    var k, known := FirstResolvedDenial(arms), PartialToKnown(partial);
    if k < |arms| {
      DenialSound(arms, arms[..k + 1], k, partial);
    } else if PendingResiduals(arms) == [] {
      ConstantsCiteTheirArms(lattice, arms, known);
      ConstantsCombinedCite(lattice, ResolvedPermits(arms), ResolvedCited(arms), known);
      ResolvedConstantsSound(
        arms, partial, EvaluateResidual(lattice, ResidualPolicy.All(ResolvedPermits(arms)), known));
    } else {
      MergedConsultedSettled(arms, partial);
    }
  }

  lemma AnySound<O>(lattice: Lattice<O>, arms: seq<Residual<O>>, partial: PartialFacts)
    requires forall i | 0 <= i < |arms| :: Sound(arms[i], partial)
    ensures Sound(ReduceAny(lattice, arms, partial), partial)
  {
    var k, known := FirstResolvedDenial(arms), PartialToKnown(partial);
    if PendingResiduals(arms) != [] {
      MergedConsultedSettled(arms, partial);
    } else if ResolvedPermits(arms) == [] && k < |arms| {
      DenialSound(arms, arms, k, partial);
    } else {
      ConstantsCiteTheirArms(lattice, arms, known);
      ConstantsCombinedCite(lattice, ResolvedPermits(arms), ResolvedCited(arms), known);
      ResolvedConstantsSound(
        arms, partial, EvaluateResidual(lattice, ResidualPolicy.Any(ResolvedPermits(arms)), known));
    }
  }

  lemma OrElseSound<O>(first: Residual<O>, second: Residual<O>, partial: PartialFacts)
    requires Sound(first, partial) && Sound(second, partial)
    ensures Sound(ReduceOrElse(first, second), partial)
  {
    ExtendedSettled(ConsultedOf(first), ConsultedOf(second), partial);
    NamedExtended(ConsultedOf(first), ConsultedOf(second));
  }

  lemma GrantSound<O>(lattice: Lattice<O>, clause: Clause<O>, partial: PartialFacts)
    ensures Sound(ReduceGrant(lattice, clause, partial), partial)
  {
    ConditionConsultsSettled(clause.condition, partial);
    ConditionBacked(clause.condition, partial);
  }

  lemma {:induction false} ReductionSound<O>(lattice: Lattice<O>, policy: Policy<O>, partial: PartialFacts)
    ensures Sound(PartialEvaluate(lattice, policy, partial), partial)
    decreases policy, 1
  {
    match policy
    case Grant(clause) => GrantSound(lattice, clause, partial);
    case All(ps) =>
      ArmsSound(lattice, ps, partial);
      AllSound(lattice, PartialEvaluateArms(lattice, ps, partial), partial);
    case Any(ps) =>
      ArmsSound(lattice, ps, partial);
      AnySound(lattice, PartialEvaluateArms(lattice, ps, partial), partial);
    case OrElse(primary, fallback) =>
      ReductionSound(lattice, primary, partial);
      ReductionSound(lattice, fallback, partial);
      OrElseSound(PartialEvaluate(lattice, primary, partial), PartialEvaluate(lattice, fallback, partial), partial);
    case _ =>
  }

  lemma {:induction false} ArmsSound<O>(lattice: Lattice<O>, ps: seq<Policy<O>>, partial: PartialFacts)
    ensures forall i | 0 <= i < |ps| :: Sound(PartialEvaluateArms(lattice, ps, partial)[i], partial)
    decreases ps, 0
  {
    forall i | 0 <= i < |ps| ensures Sound(PartialEvaluateArms(lattice, ps, partial)[i], partial) {
      ReductionSound(lattice, ps[i], partial);
    }
  }

  // A decision resolved from partial facts consulted a fact of its decisive clause exactly when that
  // fact was known; so it cites only what it consulted exactly when it cites nothing unknown.
  lemma DecisiveFactsConsultedIffKnown<O>(lattice: Lattice<O>, policy: Policy<O>, partial: PartialFacts)
    requires PartialEvaluate(lattice, policy, partial).Resolved?
    ensures var decision := PartialEvaluate(lattice, policy, partial).decision;
      && (forall f | f in Cited(decision.decisive) ::
            Mentions(decision.consulted, f) <==> PresenceOf(partial, f) != Unknown)
      && (Cited(decision.decisive) <= Named(decision.consulted) <==>
          forall f | f in Cited(decision.decisive) :: PresenceOf(partial, f) != Unknown)
  {
    ReductionSound(lattice, policy, partial);
    var decision := PartialEvaluate(lattice, policy, partial).decision;
    forall f | f in Cited(decision.decisive)
      ensures Mentions(decision.consulted, f) <==> f in Named(decision.consulted)
      ensures f in Named(decision.consulted) <==> PresenceOf(partial, f) != Unknown
    {
    }
  }

  // The case to know about: an absent fact settles a conjunction whose earlier fact is unknown, and
  // the denial is then blamed on the unknown fact, which nothing consulted.
  lemma UnknownFactTakesTheBlame<O>(lattice: Lattice<O>, outcome: O, unknown: FactId, absent: FactId)
    requires unknown != absent
    ensures
      var clause := Clause(outcome, AllOf([Has(unknown), Has(absent)]), None, Forbidden, [], None);
      var reduced := PartialEvaluate(lattice, Policy.Grant(clause), map[unknown := Unknown, absent := Absent]);
      && reduced.Resolved? && reduced.decision.effect.Deny?
      && reduced.decision.decisive.Deny? && reduced.decision.decisive.unsatisfied == [unknown]
      && reduced.decision.consulted == [(absent, Absent)]
  {
    BlamedCondition(unknown, absent);
  }

  lemma BlamedCondition(unknown: FactId, absent: FactId)
    requires unknown != absent
    ensures
      var condition, partial := AllOf([Has(unknown), Has(absent)]), map[unknown := Unknown, absent := Absent];
      var reading := EvalCondition(condition, PartialToKnown(partial));
      && CR.ReduceCondition(condition, partial) == CR.Known(false, [(absent, Absent)])
      && !reading.satisfied && reading.decisive == [unknown]
  {
    var cs, partial := [Has(unknown), Has(absent)], map[unknown := Unknown, absent := Absent];
    var first, second := CR.Pending(Has(unknown), []), CR.Known(false, [(absent, Absent)]);
    assert CR.ReduceConditions(cs, partial) == [first, second];
    SecondSettles(first, second);
    var readings := EvalConditions(cs, PartialToKnown(partial));
    assert !readings[0].satisfied && FirstSettling(readings, false) == 0;
  }

  lemma SecondSettles(first: CR.ReducedCondition, second: CR.ReducedCondition)
    requires first.Pending? && first.consulted == [] && CR.Settles(second, false) && |second.consulted| == 1
    ensures CR.Merged([first, second], false) == second
  {
    var arms := [first, second];
    CR.MergedSettled(arms, false, 1);
    assert arms[..2] == arms && arms[..1] == [first] && arms[..1][..0] == [];
    assert CR.MergedLogs(arms[..1][..0]) == [];
    assert CR.MergedLogs(arms[..1]) == [];
    assert second.consulted == [(second.consulted[0].0, second.consulted[0].1)];
    CR.ExtendedSingle(second.consulted[0].0, second.consulted[0].1);
  }
}
