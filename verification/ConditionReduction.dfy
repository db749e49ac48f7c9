/** Partial evaluation of conditions: strong Kleene logic with residual conditions. */
module ConditionReduction {
  import opened Facts
  import opened Policies
  import opened Consulting
  import opened Conditions

  datatype ReducedCondition =
    | Known(satisfied: bool, consulted: Log)
    | Pending(residual: Condition, consulted: Log)

  // ----- three-valued reference -----

  datatype Truth = True | False | Open

  function Kleene(condition: Condition, facts: PartialFacts): Truth
    decreases condition, 1
  {
    match condition
    case Always => True
    case Never => False
    case Has(fact) =>
      (match PresenceOf(facts, fact)
       case Present => True
       case Absent => False
       case Unknown => Open)
    case Not(inner) =>
      (match Kleene(inner, facts)
       case True => False
       case False => True
       case Open => Open)
    case AllOf(cs) => Strong(Kleenes(cs, facts), False)
    case AnyOf(cs) => Strong(Kleenes(cs, facts), True)
  }

  function Kleenes(conditions: seq<Condition>, facts: PartialFacts): (truths: seq<Truth>)
    ensures |truths| == |conditions|
    ensures forall i | 0 <= i < |truths| :: truths[i] == Kleene(conditions[i], facts)
    decreases conditions, 0
  {
    if conditions == [] then []
    else [Kleene(conditions[0], facts)] + Kleenes(conditions[1..], facts)
  }

  // Strong conjunction (absorbing False) and disjunction (absorbing True); empty sets are false.
  function Strong(truths: seq<Truth>, absorbing: Truth): Truth {
    if truths == [] then False
    else if absorbing in truths then absorbing
    else if Open in truths then Open
    else if absorbing == True then False else True
  }

  function TruthOf(reduced: ReducedCondition): Truth {
    if reduced.Pending? then Open else if reduced.satisfied then True else False
  }

  // ----- reduction -----

  function ReduceCondition(condition: Condition, facts: PartialFacts): ReducedCondition
    decreases condition, 1
  {
    match condition
    case Always => Known(true, [])
    case Never => Known(false, [])
    case Has(fact) =>
      (match PresenceOf(facts, fact)
       case Present => Known(true, [(fact, Present)])
       case Absent => Known(false, [(fact, Absent)])
       case Unknown => Pending(Has(fact), []))
    case Not(inner) =>
      (match ReduceCondition(inner, facts)
       case Known(satisfied, consulted) => Known(!satisfied, consulted)
       case Pending(residual, consulted) => Pending(Not(residual), consulted))
    case AllOf(conditions) => Merged(ReduceConditions(conditions, facts), false)
    case AnyOf(conditions) => Merged(ReduceConditions(conditions, facts), true)
  }

  function ReduceConditions(conditions: seq<Condition>, facts: PartialFacts): (arms: seq<ReducedCondition>)
    ensures |arms| == |conditions|
    ensures forall i | 0 <= i < |arms| :: arms[i] == ReduceCondition(conditions[i], facts)
    decreases conditions, 0
  {
    if conditions == [] then []
    else [ReduceCondition(conditions[0], facts)] + ReduceConditions(conditions[1..], facts)
  }

  // A known arm whose truth is `settles` resolves the set, even after pending arms.
  function Merged(arms: seq<ReducedCondition>, settles: bool): ReducedCondition {
    var k := FirstKnown(arms, settles);
    if k < |arms| then Known(settles, MergedLogs(arms[..k + 1]))
    else
      var pending := PendingConditions(arms);
      if pending == [] then Known(arms != [] && !settles, MergedLogs(arms))
      else if |pending| == 1 then Pending(pending[0], MergedLogs(arms))
      else Pending(if settles then AnyOf(pending) else AllOf(pending), MergedLogs(arms))
  }

  predicate Settles(reduced: ReducedCondition, settles: bool) {
    reduced.Known? && reduced.satisfied == settles
  }

  function FirstKnown(arms: seq<ReducedCondition>, settles: bool): (k: nat)
    ensures k <= |arms|
    ensures forall i | 0 <= i < k :: !Settles(arms[i], settles)
    ensures k < |arms| ==> Settles(arms[k], settles)
  {
    if arms == [] || Settles(arms[0], settles) then 0 else 1 + FirstKnown(arms[1..], settles)
  }

  function MergedLogs(arms: seq<ReducedCondition>): Log {
    if arms == [] then []
    else Extended(MergedLogs(arms[..|arms| - 1]), arms[|arms| - 1].consulted)
  }

  function PendingConditions(arms: seq<ReducedCondition>): (pending: seq<Condition>)
  {
    if arms == [] then []
    else
      var earlier, last := PendingConditions(arms[..|arms| - 1]), arms[|arms| - 1];
      if last.Pending? then earlier + [last.residual] else earlier
  }

  method Reduce(condition: Condition, facts: PartialFacts) returns (reduced: ReducedCondition)
    ensures reduced == ReduceCondition(condition, facts)
    decreases condition, 1
  {
    match condition
    case Always => reduced := Known(true, []);
    case Never => reduced := Known(false, []);
    case Has(fact) =>
      var presence := PresenceOf(facts, fact);
      if presence == Unknown {
        reduced := Pending(Has(fact), []);
      } else {
        var consulted := new ConsultedList();
        consulted.Record(fact, presence);
        reduced := Known(presence == Present, consulted.entries);
      }
    case Not(inner) =>
      reduced := Reduce(inner, facts);
      if reduced.Known? {
        reduced := reduced.(satisfied := !reduced.satisfied);
      } else {
        reduced := reduced.(residual := Not(reduced.residual));
      }
    case AllOf(conditions) => reduced := ReduceArms(conditions, false, facts);
    case AnyOf(conditions) => reduced := ReduceArms(conditions, true, facts);
  }

  // The loop of `reduce_condition_all` (settles = false) and `reduce_condition_any` (settles = true).
  method ReduceArms(conditions: seq<Condition>, settles: bool, facts: PartialFacts)
    returns (reduced: ReducedCondition)
    ensures reduced == Merged(ReduceConditions(conditions, facts), settles)
    decreases conditions, 0
  {
    if conditions == [] {
      return Known(false, []);
    }
    ghost var arms := ReduceConditions(conditions, facts);
    var consulted := new ConsultedList();
    var pending := [];
    for i := 0 to |conditions|
      invariant fresh(consulted)
      invariant NoneSettlesYet(arms[..i], settles)
      invariant consulted.entries == MergedLogs(arms[..i])
      invariant pending == PendingConditions(arms[..i])
    {
      MergedStep(arms, settles, i);
      var arm := Reduce(conditions[i], facts);
      consulted.Extend(arm.consulted);
      if Settles(arm, settles) {
        MergedSettled(arms, settles, i);
        return Known(settles, consulted.entries);
      }
      if arm.Pending? {
        pending := pending + [arm.residual];
      }
    }
    assert arms[..|conditions|] == arms;
    MergedUnsettled(arms, settles);
    if pending == [] {
      reduced := Known(!settles, consulted.entries);
    } else if |pending| == 1 {
      reduced := Pending(pending[0], consulted.entries);
    } else {
      reduced := Pending(if settles then AnyOf(pending) else AllOf(pending), consulted.entries);
    }
  }

  ghost predicate NoneSettlesYet(arms: seq<ReducedCondition>, settles: bool) {
    forall i | 0 <= i < |arms| :: !Settles(arms[i], settles)
  }

  lemma MergedStep(arms: seq<ReducedCondition>, settles: bool, i: nat)
    requires i < |arms|
    ensures MergedLogs(arms[..i + 1]) == Extended(MergedLogs(arms[..i]), arms[i].consulted)
    ensures PendingConditions(arms[..i + 1]) ==
      PendingConditions(arms[..i]) + if arms[i].Pending? then [arms[i].residual] else []
    ensures NoneSettlesYet(arms[..i + 1], settles) <==>
      NoneSettlesYet(arms[..i], settles) && !Settles(arms[i], settles)
  {
    assert arms[..i + 1][..i] == arms[..i];
    assert arms[..i + 1] == arms[..i] + [arms[i]];
  }

  lemma MergedSettled(arms: seq<ReducedCondition>, settles: bool, i: nat)
    requires i < |arms| && Settles(arms[i], settles)
    requires NoneSettlesYet(arms[..i], settles)
    ensures Merged(arms, settles) == Known(settles, MergedLogs(arms[..i + 1]))
  {
    forall j | 0 <= j < i ensures !Settles(arms[j], settles) {
      assert arms[..i][j] == arms[j];
    }
  }

  lemma MergedUnsettled(arms: seq<ReducedCondition>, settles: bool)
    requires NoneSettlesYet(arms, settles)
    ensures FirstKnown(arms, settles) == |arms|
  {
  }

  // ----- Kleene -----

  lemma {:induction false} ReductionIsKleene(condition: Condition, facts: PartialFacts)
    ensures TruthOf(ReduceCondition(condition, facts)) == Kleene(condition, facts)
  {
    match condition
    case Not(inner) => ReductionIsKleene(inner, facts);
    case AllOf(cs) =>
      ReductionsAreKleene(cs, facts);
      MergedTruth(ReduceConditions(cs, facts), false);
    case AnyOf(cs) =>
      ReductionsAreKleene(cs, facts);
      MergedTruth(ReduceConditions(cs, facts), true);
    case _ =>
  }

  lemma {:induction false} ReductionsAreKleene(cs: seq<Condition>, facts: PartialFacts)
    ensures Truths(ReduceConditions(cs, facts)) == Kleenes(cs, facts)
    decreases cs, 0
  {
    forall i | 0 <= i < |cs| ensures Truths(ReduceConditions(cs, facts))[i] == Kleenes(cs, facts)[i] {
      ReductionIsKleene(cs[i], facts);
    }
  }

  function Truths(arms: seq<ReducedCondition>): (truths: seq<Truth>) {
    seq(|arms|, i requires 0 <= i < |arms| => TruthOf(arms[i]))
  }

  lemma MergedTruth(arms: seq<ReducedCondition>, settles: bool)
    ensures TruthOf(Merged(arms, settles)) == Strong(Truths(arms), if settles then True else False)
  {
    var absorbing := if settles then True else False;
    var k, truths := FirstKnown(arms, settles), Truths(arms);
    if k < |arms| {
      assert truths[k] == absorbing;
    } else {
      assert absorbing !in truths;
      PendingIffOpen(arms);
    }
  }

  lemma {:induction false} PendingIffOpen(arms: seq<ReducedCondition>)
    ensures PendingConditions(arms) == [] <==> Open !in Truths(arms)
  {
    if arms != [] {
      var n := |arms| - 1;
      PendingIffOpen(arms[..n]);
      assert Truths(arms) == Truths(arms[..n]) + [TruthOf(arms[n])];
    }
  }

  // ----- agreement with every completion -----

  ghost predicate Stands(reduced: ReducedCondition, condition: Condition, known: KnownFacts) {
    match reduced
    case Known(satisfied, _) => satisfied == Holds(condition, known)
    case Pending(residual, _) => Holds(residual, known) == Holds(condition, known)
  }

  lemma {:induction false} ReductionAgrees(condition: Condition, facts: PartialFacts, known: KnownFacts)
    requires Completes(known, facts)
    ensures Stands(ReduceCondition(condition, facts), condition, known)
  {
    match condition
    case Not(inner) => ReductionAgrees(inner, facts, known);
    case AllOf(cs) =>
      forall i | 0 <= i < |cs| { ReductionAgrees(cs[i], facts, known); }
      MergedAgrees(ReduceConditions(cs, facts), cs, false, known);
    case AnyOf(cs) =>
      forall i | 0 <= i < |cs| { ReductionAgrees(cs[i], facts, known); }
      MergedAgrees(ReduceConditions(cs, facts), cs, true, known);
    case _ =>
  }

  lemma MergedAgrees(
      arms: seq<ReducedCondition>, cs: seq<Condition>, settles: bool, known: KnownFacts)
    requires |arms| == |cs|
    requires forall i | 0 <= i < |arms| :: Stands(arms[i], cs[i], known)
    ensures Stands(Merged(arms, settles), if settles then AnyOf(cs) else AllOf(cs), known)
  {
    var k := FirstKnown(arms, settles);
    if k < |arms| {
      assert Holds(cs[k], known) == settles;
    } else {
      PendingHold(arms, cs, settles, known);
      var pending := PendingConditions(arms);
      if |pending| == 1 {
        assert pending == [pending[0]];
      }
    }
  }

  ghost predicate SomeHolds(cs: seq<Condition>, settles: bool, known: KnownFacts) {
    exists i | 0 <= i < |cs| :: Holds(cs[i], known) == settles
  }

  lemma SomeHoldsAppend(cs: seq<Condition>, last: Condition, settles: bool, known: KnownFacts)
    ensures SomeHolds(cs + [last], settles, known) <==> SomeHolds(cs, settles, known) || Holds(last, known) == settles
  {
    var all := cs + [last];
    assert all[|cs|] == last;
    assert forall i | 0 <= i < |cs| :: all[i] == cs[i];
  }

  // With no settling arm, some pending residual has truth `settles` exactly when some arm has.
  lemma {:induction false} PendingHold(
      arms: seq<ReducedCondition>, cs: seq<Condition>, settles: bool, known: KnownFacts)
    requires |arms| == |cs|
    requires forall i | 0 <= i < |arms| :: Stands(arms[i], cs[i], known) && !Settles(arms[i], settles)
    ensures SomeHolds(PendingConditions(arms), settles, known) <==> SomeHolds(cs, settles, known)
  {
    if arms != [] {
      var n := |arms| - 1;
      PendingHold(arms[..n], cs[..n], settles, known);
      var earlier := PendingConditions(arms[..n]);
      assert Stands(arms[n], cs[n], known);
      SomeHoldsAppend(cs[..n], cs[n], settles, known);
      assert cs == cs[..n] + [cs[n]];
      if arms[n].Pending? {
        SomeHoldsAppend(earlier, arms[n].residual, settles, known);
        assert PendingConditions(arms) == earlier + [arms[n].residual];
      } else {
        assert PendingConditions(arms) == earlier;
      }
    }
  }

  // ----- what a residual still asks for -----

  ghost predicate AsksOnlyUnknown(residual: Condition, scope: set<FactId>, facts: PartialFacts) {
    && ConditionFacts(residual) != {}
    && forall f | f in ConditionFacts(residual) :: f in scope && PresenceOf(facts, f) == Unknown
  }

  lemma {:induction false} ResidualAsksOnlyUnknown(condition: Condition, facts: PartialFacts)
    ensures var reduced := ReduceCondition(condition, facts);
      reduced.Pending? ==> AsksOnlyUnknown(reduced.residual, ConditionFacts(condition), facts)
  {
    match condition
    case Not(inner) => ResidualAsksOnlyUnknown(inner, facts);
    case AllOf(cs) => ArmsAskOnlyUnknown(condition, cs, false, facts);
    case AnyOf(cs) => ArmsAskOnlyUnknown(condition, cs, true, facts);
    case _ =>
  }

  lemma {:induction false} ArmsAskOnlyUnknown(
      parent: Condition, cs: seq<Condition>, settles: bool, facts: PartialFacts)
    requires parent == if settles then AnyOf(cs) else AllOf(cs)
    ensures var reduced := ReduceCondition(parent, facts);
      reduced.Pending? ==> AsksOnlyUnknown(reduced.residual, ConditionFacts(parent), facts)
    decreases cs, 0
  {
    var arms, scope := ReduceConditions(cs, facts), ConditionFacts(parent);
    forall i | 0 <= i < |arms| && arms[i].Pending?
      ensures AsksOnlyUnknown(arms[i].residual, scope, facts)
    {
      ResidualAsksOnlyUnknown(cs[i], facts);
      assert ConditionFacts(cs[i]) <= scope;
    }
    PendingAskOnlyUnknown(arms, scope, facts);
    var pending := PendingConditions(arms);
    if |pending| > 1 {
      assert AsksOnlyUnknown(pending[0], scope, facts);
      var f :| f in ConditionFacts(pending[0]);
      assert f in ConditionFacts(AllOf(pending)) && f in ConditionFacts(AnyOf(pending));
      forall f | f in ConditionFacts(AllOf(pending)) || f in ConditionFacts(AnyOf(pending))
        ensures f in scope && PresenceOf(facts, f) == Unknown
      {
        var i :| 0 <= i < |pending| && f in ConditionFacts(pending[i]);
        assert pending[i] in pending;
      }
    }
  }

  lemma {:induction false} PendingAskOnlyUnknown(
      arms: seq<ReducedCondition>, scope: set<FactId>, facts: PartialFacts)
    requires forall arm | arm in arms && arm.Pending? :: AsksOnlyUnknown(arm.residual, scope, facts)
    ensures forall c | c in PendingConditions(arms) :: AsksOnlyUnknown(c, scope, facts)
  {
    if arms != [] {
      PendingAskOnlyUnknown(arms[..|arms| - 1], scope, facts);
      forall c | c in PendingConditions(arms) ensures AsksOnlyUnknown(c, scope, facts) {
        if c !in PendingConditions(arms[..|arms| - 1]) {
          assert arms[|arms| - 1] in arms && c == arms[|arms| - 1].residual;
        }
      }
    }
  }

  // ----- exactness -----

  lemma {:induction false} ReductionExact(condition: Condition, facts: PartialFacts, known: KnownFacts)
    requires Completes(known, facts)
    requires forall f | f in ConditionFacts(condition) :: PresenceOf(facts, f) != Unknown
    ensures var reading := EvalCondition(condition, known);
      ReduceCondition(condition, facts) == Known(reading.satisfied, Extended([], reading.readLog))
  {
    match condition
    case Has(fact) => ExtendedSingle(fact, PresenceOf(known, fact));
    case Not(inner) => ReductionExact(inner, facts, known);
    case AllOf(cs) => ArmsExact(condition, cs, false, facts, known);
    case AnyOf(cs) => ArmsExact(condition, cs, true, facts, known);
    case _ =>
  }

  lemma ExtendedSingle(fact: FactId, presence: Presence)
    ensures Extended([], [(fact, presence)]) == [(fact, presence)]
  {
    assert [(fact, presence)][..0] == [];
  }

  lemma {:induction false} ArmsExact(
      parent: Condition, cs: seq<Condition>, settles: bool, facts: PartialFacts, known: KnownFacts)
    requires parent == if settles then AnyOf(cs) else AllOf(cs)
    requires Completes(known, facts)
    requires forall f | f in ConditionFacts(parent) :: PresenceOf(facts, f) != Unknown
    ensures var reading := EvalCondition(parent, known);
      ReduceCondition(parent, facts) == Known(reading.satisfied, Extended([], reading.readLog))
    decreases cs, 0
  {
    var reduced, readings := ReduceConditions(cs, facts), EvalConditions(cs, known);
    forall i | 0 <= i < |cs| ensures Matches(reduced[i], readings[i]) {
      assert ConditionFacts(cs[i]) <= ConditionFacts(parent);
      ReductionExact(cs[i], facts, known);
    }
    MergedExact(reduced, readings, settles);
  }

  ghost predicate Matches(reduced: ReducedCondition, reading: Reading) {
    reduced == Known(reading.satisfied, Extended([], reading.readLog))
  }

  lemma MergedExact(arms: seq<ReducedCondition>, readings: seq<Reading>, settles: bool)
    requires |arms| == |readings|
    requires forall i | 0 <= i < |arms| :: Matches(arms[i], readings[i])
    ensures Matches(Merged(arms, settles), Combined(readings, settles))
  {
    var k := FirstKnown(arms, settles);
    forall i | 0 <= i < |arms| ensures Settles(arms[i], settles) <==> readings[i].satisfied == settles {
      assert Matches(arms[i], readings[i]);
    }
    assert k == FirstSettling(readings, settles);
    if k < |arms| {
      LogsExact(arms[..k + 1], readings[..k + 1]);
      assert Merged(arms, settles) == Known(settles, MergedLogs(arms[..k + 1]));
    } else {
      LogsExact(arms, readings);
    }
  }

  lemma {:induction false} LogsExact(arms: seq<ReducedCondition>, readings: seq<Reading>)
    requires |arms| == |readings|
    requires forall i | 0 <= i < |arms| :: Matches(arms[i], readings[i])
    ensures MergedLogs(arms) == Extended([], Reads(readings))
    ensures PendingConditions(arms) == []
  {
    if arms != [] {
      var n := |arms| - 1;
      LogsExact(arms[..n], readings[..n]);
      assert Matches(arms[n], readings[n]);
      ExtendedMerged(Extended([], Reads(readings[..n])), [], readings[n].readLog);
      ExtendedAppend([], Reads(readings[..n]), readings[n].readLog);
    }
  }

  // ----- the price of Kleene logic -----

  // A reduction can stay pending although every completion gives the same answer.
  lemma ReductionIsNotSupervaluation(fact: FactId)
    ensures var condition, facts := AnyOf([Has(fact), Not(Has(fact))]), map[fact := Unknown];
      && ReduceCondition(condition, facts).Pending?
      && forall known: KnownFacts | Completes(known, facts) :: Holds(condition, known)
  {
    var cs, facts := [Has(fact), Not(Has(fact))], map[fact := Unknown];
    assert PresenceOf(facts, fact) == Unknown;
    ReductionIsKleene(AnyOf(cs), facts);
    assert Kleene(cs[0], facts) == Open && Kleene(cs[1], facts) == Open;
    assert Kleenes(cs, facts) == [Open, Open];
    forall known: KnownFacts ensures Holds(AnyOf(cs), known) {
      assert Holds(cs[0], known) || Holds(cs[1], known);
    }
  }
}
