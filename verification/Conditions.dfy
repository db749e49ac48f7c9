/** Reading conditions against known facts, and reducing them against partial ones. */
module Conditions {
  import opened Facts
  import opened Policies
  import opened Consulting

  // ----- evaluation -----

  // The outcome of one condition: its truth, the facts that fixed it, and every read in order.
  datatype Reading = Reading(satisfied: bool, decisive: seq<FactId>, readLog: Log)

  function EvalCondition(condition: Condition, facts: KnownFacts): Reading
    decreases condition, 1
  {
    match condition
    case Always => Reading(true, [], [])
    case Never => Reading(false, [], [])
    case Has(fact) => Reading(IsPresent(facts, fact), [fact], [(fact, PresenceOf(facts, fact))])
    case Not(inner) =>
      var reading := EvalCondition(inner, facts);
      reading.(satisfied := !reading.satisfied)
    case AllOf(conditions) => Combined(EvalConditions(conditions, facts), false)
    case AnyOf(conditions) => Combined(EvalConditions(conditions, facts), true)
  }

  function EvalConditions(conditions: seq<Condition>, facts: KnownFacts): (arms: seq<Reading>)
    ensures |arms| == |conditions|
    ensures forall i | 0 <= i < |arms| :: arms[i] == EvalCondition(conditions[i], facts)
    decreases conditions, 0
  {
    if conditions == [] then []
    else [EvalCondition(conditions[0], facts)] + EvalConditions(conditions[1..], facts)
  }

  // The first arm whose truth is `settles` ends the evaluation; without one, every arm counts.
  // `settles` is false for a conjunction and true for a disjunction; no arms at all is false.
  function Combined(arms: seq<Reading>, settles: bool): Reading {
    var k := FirstSettling(arms, settles);
    if k < |arms| then Reading(settles, arms[k].decisive, Reads(arms[..k + 1]))
    else Reading(arms != [] && !settles, Decisives(arms), Reads(arms))
  }

  function FirstSettling(arms: seq<Reading>, settles: bool): (k: nat)
    ensures k <= |arms|
    ensures forall i | 0 <= i < k :: arms[i].satisfied != settles
    ensures k < |arms| ==> arms[k].satisfied == settles
  {
    if arms == [] || arms[0].satisfied == settles then 0
    else 1 + FirstSettling(arms[1..], settles)
  }

  function Reads(arms: seq<Reading>): Log {
    if arms == [] then [] else Reads(arms[..|arms| - 1]) + arms[|arms| - 1].readLog
  }

  function Decisives(arms: seq<Reading>): seq<FactId> {
    if arms == [] then [] else Decisives(arms[..|arms| - 1]) + arms[|arms| - 1].decisive
  }

  method EvaluateCondition(condition: Condition, facts: KnownFacts, consulted: ConsultedList)
    returns (satisfied: bool, decisive: seq<FactId>)
    modifies consulted
    ensures satisfied == EvalCondition(condition, facts).satisfied
    ensures decisive == EvalCondition(condition, facts).decisive
    ensures consulted.entries == Extended(old(consulted.entries), EvalCondition(condition, facts).readLog)
    decreases condition, 1
  {
    match condition
    case Always => satisfied, decisive := true, [];
    case Never => satisfied, decisive := false, [];
    case Has(fact) =>
      var presence := PresenceOf(facts, fact);
      consulted.Record(fact, presence);
      satisfied, decisive := presence == Present, [fact];
    case Not(inner) =>
      satisfied, decisive := EvaluateCondition(inner, facts, consulted);
      satisfied := !satisfied;
    case AllOf(conditions) =>
      satisfied, decisive := EvaluateConditionArms(conditions, false, facts, consulted);
    case AnyOf(conditions) =>
      satisfied, decisive := EvaluateConditionArms(conditions, true, facts, consulted);
  }

  // The loop of `eval_condition_all` (settles = false) and `eval_condition_any` (settles = true).
  method EvaluateConditionArms(
      conditions: seq<Condition>, settles: bool, facts: KnownFacts, consulted: ConsultedList)
    returns (satisfied: bool, decisive: seq<FactId>)
    modifies consulted
    ensures satisfied == Combined(EvalConditions(conditions, facts), settles).satisfied
    ensures decisive == Combined(EvalConditions(conditions, facts), settles).decisive
    ensures consulted.entries ==
      Extended(old(consulted.entries), Combined(EvalConditions(conditions, facts), settles).readLog)
    decreases conditions, 0
  {
    if conditions == [] {
      return false, [];
    }
    ghost var arms, before := EvalConditions(conditions, facts), consulted.entries;
    decisive := [];
    for i := 0 to |conditions|
      invariant NoneSettles(arms[..i], settles)
      invariant decisive == Decisives(arms[..i])
      invariant consulted.entries == Extended(before, Reads(arms[..i]))
    {
      CollectedStep(arms, settles, i);
      var armSatisfied, armDecisive := EvaluateCondition(conditions[i], facts, consulted);
      ExtendedAppend(before, Reads(arms[..i]), arms[i].readLog);
      if armSatisfied == settles {
        CombinedSettled(arms, settles, i);
        return settles, armDecisive;
      }
      decisive := decisive + armDecisive;
    }
    assert arms[..|conditions|] == arms;
    CombinedUnsettled(arms, settles);
    satisfied := !settles;
  }

  ghost predicate NoneSettles(arms: seq<Reading>, settles: bool) {
    forall i | 0 <= i < |arms| :: arms[i].satisfied != settles
  }

  lemma CollectedStep(arms: seq<Reading>, settles: bool, i: nat)
    requires i < |arms|
    ensures NoneSettles(arms[..i + 1], settles) <==>
      NoneSettles(arms[..i], settles) && arms[i].satisfied != settles
    ensures Reads(arms[..i + 1]) == Reads(arms[..i]) + arms[i].readLog
    ensures Decisives(arms[..i + 1]) == Decisives(arms[..i]) + arms[i].decisive
  {
    assert arms[..i + 1][..i] == arms[..i];
    assert arms[..i + 1] == arms[..i] + [arms[i]];
  }

  lemma CombinedSettled(arms: seq<Reading>, settles: bool, i: nat)
    requires i < |arms| && arms[i].satisfied == settles
    requires NoneSettles(arms[..i], settles)
    ensures Combined(arms, settles) == Reading(settles, arms[i].decisive, Reads(arms[..i + 1]))
  {
    forall j | 0 <= j < i ensures arms[j].satisfied != settles {
      assert arms[..i][j] == arms[j];
    }
  }

  lemma CombinedUnsettled(arms: seq<Reading>, settles: bool)
    requires NoneSettles(arms, settles)
    ensures Combined(arms, settles) == Reading(arms != [] && !settles, Decisives(arms), Reads(arms))
  {
  }

  // ----- what a reading means -----

  lemma {:induction false} ReadingHolds(condition: Condition, facts: KnownFacts)
    ensures EvalCondition(condition, facts).satisfied <==> Holds(condition, facts)
  {
    match condition
    case Not(inner) => ReadingHolds(inner, facts);
    case AllOf(cs) =>
      forall i | 0 <= i < |cs| { ReadingHolds(cs[i], facts); }
      assert forall i | 0 <= i < |cs| :: EvalConditions(cs, facts)[i].satisfied == Holds(cs[i], facts);
    case AnyOf(cs) =>
      forall i | 0 <= i < |cs| { ReadingHolds(cs[i], facts); }
      assert forall i | 0 <= i < |cs| :: EvalConditions(cs, facts)[i].satisfied == Holds(cs[i], facts);
    case _ =>
  }

  lemma {:induction false} ReadingLocal(condition: Condition, left: KnownFacts, right: KnownFacts)
    requires AgreeOn(ConditionFacts(condition), left, right)
    ensures EvalCondition(condition, left) == EvalCondition(condition, right)
  {
    match condition
    case Not(inner) => ReadingLocal(inner, left, right);
    case AllOf(cs) => ReadingsLocal(condition, cs, left, right);
    case AnyOf(cs) => ReadingsLocal(condition, cs, left, right);
    case _ =>
  }

  lemma {:induction false} ReadingsLocal(
      parent: Condition, cs: seq<Condition>, left: KnownFacts, right: KnownFacts)
    requires parent == AllOf(cs) || parent == AnyOf(cs)
    requires AgreeOn(ConditionFacts(parent), left, right)
    ensures EvalConditions(cs, left) == EvalConditions(cs, right)
    decreases cs, 0
  {
    forall i | 0 <= i < |cs| ensures EvalCondition(cs[i], left) == EvalCondition(cs[i], right) {
      assert ConditionFacts(cs[i]) <= ConditionFacts(parent);
      ReadingLocal(cs[i], left, right);
    }
  }

  // Every read is of a fact of the condition, at the presence the facts give it, and the
  // decisive facts are among the reads.
  ghost predicate Faithful(reading: Reading, scope: set<FactId>, facts: PartialFacts) {
    && Accurate(reading.readLog, facts)
    && (forall i | 0 <= i < |reading.readLog| :: reading.readLog[i].0 in scope)
    && (forall f | f in reading.decisive :: Mentions(reading.readLog, f))
  }

  lemma CombinedFaithful(
      arms: seq<Reading>, settles: bool, scope: set<FactId>, facts: PartialFacts)
    requires forall i | 0 <= i < |arms| :: Faithful(arms[i], scope, facts)
    ensures Faithful(Combined(arms, settles), scope, facts)
  {
    var k := FirstSettling(arms, settles);
    if k < |arms| {
      CollectedFaithful(arms[..k + 1], scope, facts);
      assert arms[..k + 1][k] == arms[k];
      assert forall f | f in arms[k].decisive :: f in Decisives(arms[..k + 1]);
    } else {
      CollectedFaithful(arms, scope, facts);
    }
  }

  lemma {:induction false} CollectedFaithful(arms: seq<Reading>, scope: set<FactId>, facts: PartialFacts)
    requires forall i | 0 <= i < |arms| :: Faithful(arms[i], scope, facts)
    ensures Faithful(Reading(true, Decisives(arms), Reads(arms)), scope, facts)
  {
    if arms != [] {
      var most, last := arms[..|arms| - 1], arms[|arms| - 1];
      CollectedFaithful(most, scope, facts);
      forall f | f in Decisives(arms) ensures Mentions(Reads(arms), f) {
        if f in Decisives(most) {
          MentionsAppend(Reads(most), last.readLog, f);
        } else {
          MentionsAppend(Reads(most), last.readLog, f);
        }
      }
    }
  }

  lemma MentionsAppend(left: Log, right: Log, fact: FactId)
    ensures Mentions(left + right, fact) <==> Mentions(left, fact) || Mentions(right, fact)
  {
    if Mentions(right, fact) {
      var i :| 0 <= i < |right| && right[i].0 == fact;
      assert (left + right)[|left| + i].0 == fact;
    }
    if Mentions(left, fact) {
      var i :| 0 <= i < |left| && left[i].0 == fact;
      assert (left + right)[i].0 == fact;
    }
  }

  lemma {:induction false} ReadingFaithful(condition: Condition, facts: KnownFacts)
    ensures Faithful(EvalCondition(condition, facts), ConditionFacts(condition), facts)
  {
    match condition
    case Has(fact) =>
      assert EvalCondition(condition, facts).readLog[0].0 == fact;
    case Not(inner) => ReadingFaithful(inner, facts);
    case AllOf(cs) =>
      var arms, scope := EvalConditions(cs, facts), ConditionFacts(condition);
      ArmsFaithful(condition, cs, scope, facts);
      CombinedFaithful(arms, false, scope, facts);
    case AnyOf(cs) =>
      var arms, scope := EvalConditions(cs, facts), ConditionFacts(condition);
      ArmsFaithful(condition, cs, scope, facts);
      CombinedFaithful(arms, true, scope, facts);
    case _ =>
  }

  lemma {:induction false} ArmsFaithful(
      parent: Condition, cs: seq<Condition>, scope: set<FactId>, facts: KnownFacts)
    requires parent == AllOf(cs) || parent == AnyOf(cs)
    requires scope == ConditionFacts(parent)
    ensures forall i | 0 <= i < |cs| :: Faithful(EvalConditions(cs, facts)[i], scope, facts)
    decreases cs, 0
  {
    forall i | 0 <= i < |cs| ensures Faithful(EvalConditions(cs, facts)[i], scope, facts) {
      assert ConditionFacts(cs[i]) <= scope;
      ReadingFaithful(cs[i], facts);
    }
  }

  // The decisive facts certify the answer: any facts agreeing on them give the same truth.
  lemma {:induction false} DecisiveFactsCertify(condition: Condition, facts: KnownFacts, other: KnownFacts)
    requires forall f | f in EvalCondition(condition, facts).decisive :: PresenceOf(facts, f) == PresenceOf(other, f)
    ensures Holds(condition, other) <==> Holds(condition, facts)
  {
    match condition
    case Has(fact) =>
      assert fact in EvalCondition(condition, facts).decisive;
    case Not(inner) => DecisiveFactsCertify(inner, facts, other);
    case AllOf(cs) => ArmsCertify(condition, cs, false, facts, other);
    case AnyOf(cs) => ArmsCertify(condition, cs, true, facts, other);
    case _ =>
  }

  lemma {:induction false} ArmsCertify(
      parent: Condition, cs: seq<Condition>, settles: bool, facts: KnownFacts, other: KnownFacts)
    requires parent == if settles then AnyOf(cs) else AllOf(cs)
    requires forall f | f in Combined(EvalConditions(cs, facts), settles).decisive ::
      PresenceOf(facts, f) == PresenceOf(other, f)
    ensures Holds(parent, other) <==> Holds(parent, facts)
    decreases cs, 0
  {
    var arms := EvalConditions(cs, facts);
    ReadingHolds(parent, facts);
    var k := FirstSettling(arms, settles);
    if k < |arms| {
      DecisiveFactsCertify(cs[k], facts, other);
      ReadingHolds(cs[k], facts);
      assert Holds(cs[k], other) == settles;
    } else {
      forall i | 0 <= i < |cs| ensures Holds(cs[i], other) == !settles {
        DecisivesContain(arms, i);
        DecisiveFactsCertify(cs[i], facts, other);
        ReadingHolds(cs[i], facts);
      }
    }
  }

  lemma {:induction false} DecisivesContain(arms: seq<Reading>, i: nat)
    requires i < |arms|
    ensures forall f | f in arms[i].decisive :: f in Decisives(arms)
  {
    if i < |arms| - 1 {
      DecisivesContain(arms[..|arms| - 1], i);
    }
  }

  // Without negation, learning that more facts are present never falsifies a condition.
  lemma {:induction false} MoreFactsHold(condition: Condition, fewer: KnownFacts, more: KnownFacts)
    requires NegationFree(condition)
    requires forall f | IsPresent(fewer, f) :: IsPresent(more, f)
    requires Holds(condition, fewer)
    ensures Holds(condition, more)
  {
    match condition
    case AllOf(cs) => forall i | 0 <= i < |cs| { MoreFactsHold(cs[i], fewer, more); }
    case AnyOf(cs) =>
      var i :| 0 <= i < |cs| && Holds(cs[i], fewer);
      MoreFactsHold(cs[i], fewer, more);
    case _ =>
  }
}
