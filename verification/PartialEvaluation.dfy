/** Partial evaluation of policies: what resolves, what stays pending, and what was consulted. */
module PartialEvaluation {
  import opened Wrappers
  import opened Facts
  import opened Policies
  import opened Consulting
  import Conditions
  import opened Evaluation
  import CR = ConditionReduction
  import Loops = EvaluationLoops

  datatype Residual<O> =
    | Resolved(decision: Decision<O>)
    | Pending(residual: ResidualPolicy<O>, consulted: Log)

  function PolicyFromDecision<O>(decision: Decision<O>): ResidualPolicy<O> {
    match decision.effect
    case Permit(outcome) =>
      (match decision.decisive
       case Permit(_, satisfied, clauseLabel) =>
         ResidualPolicy.PermitWithTrace(outcome, decision.obligations, satisfied, clauseLabel)
       case Deny(_, _, _, _, _) => ResidualPolicy.Permit(outcome))
    case Deny =>
      match decision.decisive
      case Deny(denied, unsatisfied, clauseLabel, reason, shape) =>
        ResidualPolicy.DenyWithTrace(denied, unsatisfied, clauseLabel, reason, shape)
      case Permit(_, _, _) => ResidualPolicy.Deny
  }

  function WithConsulted<O>(decision: Decision<O>, consulted: Log): Decision<O> {
    decision.(consulted := consulted)
  }

  // ----- arms -----

  predicate ResolvedDenial<O>(arm: Residual<O>) {
    arm.Resolved? && arm.decision.effect.Deny?
  }

  predicate ResolvedPermit<O>(arm: Residual<O>) {
    arm.Resolved? && arm.decision.effect.Permit?
  }

  function ConsultedOf<O>(arm: Residual<O>): Log {
    if arm.Resolved? then arm.decision.consulted else arm.consulted
  }

  function FirstResolvedDenial<O>(arms: seq<Residual<O>>): (k: nat)
    ensures k <= |arms|
    ensures forall i | 0 <= i < k :: !ResolvedDenial(arms[i])
    ensures k < |arms| ==> ResolvedDenial(arms[k])
  {
    if arms == [] || ResolvedDenial(arms[0]) then 0 else 1 + FirstResolvedDenial(arms[1..])
  }

  function MergedConsulted<O>(arms: seq<Residual<O>>): Log {
    if arms == [] then []
    else Extended(MergedConsulted(arms[..|arms| - 1]), ConsultedOf(arms[|arms| - 1]))
  }

  function ResolvedPermits<O>(arms: seq<Residual<O>>): seq<ResidualPolicy<O>> {
    if arms == [] then []
    else
      var earlier, last := ResolvedPermits(arms[..|arms| - 1]), arms[|arms| - 1];
      if ResolvedPermit(last) then earlier + [PolicyFromDecision(last.decision)] else earlier
  }

  function PendingResiduals<O>(arms: seq<Residual<O>>): seq<ResidualPolicy<O>> {
    if arms == [] then []
    else
      var earlier, last := PendingResiduals(arms[..|arms| - 1]), arms[|arms| - 1];
      if last.Pending? then earlier + [last.residual] else earlier
  }

  function NoArms<O>(): Residual<O> {
    Resolved(DecisionFrom(Arm(GenericDeny(), [])))
  }

  // A resolved denial decides an `all`, even after pending arms. Otherwise resolved permits
  // come first in the residual, then the pending arms.
  function ReduceAll<O(==)>(lattice: Lattice<O>, arms: seq<Residual<O>>, facts: PartialFacts): Residual<O> {
    var k := FirstResolvedDenial(arms);
    var permits, pending := ResolvedPermits(arms), PendingResiduals(arms);
    if arms == [] then NoArms()
    else if k < |arms| then
      Resolved(WithConsulted(arms[k].decision, MergedConsulted(arms[..k + 1])))
    else if pending == [] then
      var decision := EvaluateResidual(lattice, ResidualPolicy.All(permits), PartialToKnown(facts));
      Resolved(WithConsulted(decision, MergedConsulted(arms)))
    else Pending(ResidualPolicy.All(permits + pending), MergedConsulted(arms))
  }

  // Resolved denials drop out of an `any`, except the first one when no arm is a resolved permit.
  function ReduceAny<O(==)>(lattice: Lattice<O>, arms: seq<Residual<O>>, facts: PartialFacts): Residual<O> {
    var k := FirstResolvedDenial(arms);
    var permits, pending := ResolvedPermits(arms), PendingResiduals(arms);
    if arms == [] then NoArms()
    else if pending == [] then
      if permits == [] && k < |arms| then
        Resolved(WithConsulted(arms[k].decision, MergedConsulted(arms)))
      else
        var decision := EvaluateResidual(lattice, ResidualPolicy.Any(permits), PartialToKnown(facts));
        Resolved(WithConsulted(decision, MergedConsulted(arms)))
    else
      var constants :=
        if permits == [] && k < |arms| then [PolicyFromDecision(arms[k].decision)] else permits;
      Pending(ResidualPolicy.Any(constants + pending), MergedConsulted(arms))
  }

  function ReduceOrElse<O>(primary: Residual<O>, fallback: Residual<O>): Residual<O> {
    if ResolvedPermit(primary) then primary
    else
      var consulted := Extended(ConsultedOf(primary), ConsultedOf(fallback));
      if primary.Resolved? then
        match fallback
        case Resolved(decision) => Resolved(WithConsulted(decision, consulted))
        case Pending(residual, _) => Pending(residual, consulted)
      else
        var last := if fallback.Resolved? then PolicyFromDecision(fallback.decision) else fallback.residual;
        Pending(ResidualPolicy.OrElse(primary.residual, last), consulted)
  }

  function ReduceGrant<O(==)>(lattice: Lattice<O>, clause: Clause<O>, facts: PartialFacts): Residual<O> {
    match CR.ReduceCondition(clause.condition, facts)
    case Known(_, consulted) =>
      Resolved(WithConsulted(Evaluate(lattice, Policy.Grant(clause), PartialToKnown(facts)), consulted))
    case Pending(residual, consulted) =>
      Pending(ResidualPolicy.Grant(clause.(condition := residual)), consulted)
  }

  // ----- policies -----

  function PartialEvaluate<O(==)>(lattice: Lattice<O>, policy: Policy<O>, facts: PartialFacts): Residual<O>
    decreases policy, 1
  {
    match policy
    case Permit(_) => Resolved(Evaluate(lattice, policy, PartialToKnown(facts)))
    case Deny => Resolved(Evaluate(lattice, policy, PartialToKnown(facts)))
    case Grant(clause) => ReduceGrant(lattice, clause, facts)
    case All(policies) => ReduceAll(lattice, PartialEvaluateArms(lattice, policies, facts), facts)
    case Any(policies) => ReduceAny(lattice, PartialEvaluateArms(lattice, policies, facts), facts)
    case OrElse(primary, fallback) =>
      ReduceOrElse(PartialEvaluate(lattice, primary, facts), PartialEvaluate(lattice, fallback, facts))
  }

  function PartialEvaluateArms<O(==)>(lattice: Lattice<O>, policies: seq<Policy<O>>, facts: PartialFacts)
    : (arms: seq<Residual<O>>)
    ensures |arms| == |policies|
    ensures forall i | 0 <= i < |arms| :: arms[i] == PartialEvaluate(lattice, policies[i], facts)
    decreases policies, 0
  {
    if policies == [] then []
    else [PartialEvaluate(lattice, policies[0], facts)] + PartialEvaluateArms(lattice, policies[1..], facts)
  }

  function CompleteResidual<O(==)>(lattice: Lattice<O>, residual: Residual<O>, facts: KnownFacts): Decision<O> {
    match residual
    case Resolved(decision) => decision
    case Pending(policy, consulted) =>
      var decision := EvaluateResidual(lattice, policy, facts);
      WithConsulted(decision, Extended(Extended([], consulted), decision.consulted))
  }

  // ----- the reducer's loops -----

  method Reduce<O(==)>(lattice: Lattice<O>, policy: Policy<O>, facts: PartialFacts)
    returns (reduced: Residual<O>)
    ensures reduced == PartialEvaluate(lattice, policy, facts)
    decreases policy, 1
  {
    match policy
    case Permit(_) =>
      var decision := Loops.EvaluateToDecision(lattice, policy, PartialToKnown(facts));
      reduced := Resolved(decision);
    case Deny =>
      var decision := Loops.EvaluateToDecision(lattice, policy, PartialToKnown(facts));
      reduced := Resolved(decision);
    case Grant(clause) =>
      var condition := CR.Reduce(clause.condition, facts);
      if condition.Known? {
        var decision := Loops.EvaluateToDecision(lattice, policy, PartialToKnown(facts));
        reduced := Resolved(WithConsulted(decision, condition.consulted));
      } else {
        reduced := Pending(ResidualPolicy.Grant(clause.(condition := condition.residual)), condition.consulted);
      }
    case All(policies) => reduced := ReduceAllLoop(lattice, policies, facts);
    case Any(policies) => reduced := ReduceAnyLoop(lattice, policies, facts);
    case OrElse(primary, fallback) =>
      var first := Reduce(lattice, primary, facts);
      if ResolvedPermit(first) {
        return first;
      }
      var second := Reduce(lattice, fallback, facts);
      reduced := ReduceOrElse(first, second);
  }

  method ReduceAllLoop<O(==)>(lattice: Lattice<O>, policies: seq<Policy<O>>, facts: PartialFacts)
    returns (reduced: Residual<O>)
    ensures reduced == ReduceAll(lattice, PartialEvaluateArms(lattice, policies, facts), facts)
    decreases policies, 0
  {
    if policies == [] {
      return NoArms();
    }
    ghost var arms := PartialEvaluateArms(lattice, policies, facts);
    var consulted := new ConsultedList();
    var pending, resolvedPermits := [], [];
    for i := 0 to |policies|
      invariant fresh(consulted)
      invariant i <= FirstResolvedDenial(arms)
      invariant consulted.entries == MergedConsulted(arms[..i])
      invariant pending == PendingResiduals(arms[..i])
      invariant resolvedPermits == ResolvedPermits(arms[..i])
    {
      ReductionStep(arms, i);
      var arm := Reduce(lattice, policies[i], facts);
      consulted.Extend(ConsultedOf(arm));
      if arm.Pending? {
        pending := pending + [arm.residual];
      } else if arm.decision.effect.Deny? {
        assert FirstResolvedDenial(arms) == i;
        DenialDecides(lattice, arms, i, facts);
        return Resolved(WithConsulted(arm.decision, consulted.entries));
      } else {
        resolvedPermits := resolvedPermits + [PolicyFromDecision(arm.decision)];
      }
    }
    assert arms[..|policies|] == arms;
    NoDenialReduces(lattice, arms, facts);
    if pending == [] {
      var decision := Loops.EvaluateResidualToDecision(
        lattice, ResidualPolicy.All(resolvedPermits), PartialToKnown(facts));
      return Resolved(WithConsulted(decision, consulted.entries));
    }
    reduced := Pending(ResidualPolicy.All(resolvedPermits + pending), consulted.entries);
  }

  method ReduceAnyLoop<O(==)>(lattice: Lattice<O>, policies: seq<Policy<O>>, facts: PartialFacts)
    returns (reduced: Residual<O>)
    ensures reduced == ReduceAny(lattice, PartialEvaluateArms(lattice, policies, facts), facts)
    decreases policies, 0
  {
    if policies == [] {
      return NoArms();
    }
    ghost var arms := PartialEvaluateArms(lattice, policies, facts);
    var consulted := new ConsultedList();
    var pending, resolvedPermits := [], [];
    var firstDenial: Option<Decision<O>> := None;
    for i := 0 to |policies|
      invariant fresh(consulted)
      invariant firstDenial == FirstDenialOf(arms[..i])
      invariant consulted.entries == MergedConsulted(arms[..i])
      invariant pending == PendingResiduals(arms[..i])
      invariant resolvedPermits == ResolvedPermits(arms[..i])
    {
      ReductionStep(arms, i);
      FirstDenialOfStep(arms, i);
      var arm := Reduce(lattice, policies[i], facts);
      consulted.Extend(ConsultedOf(arm));
      if arm.Pending? {
        pending := pending + [arm.residual];
      } else if arm.decision.effect.Permit? {
        resolvedPermits := resolvedPermits + [PolicyFromDecision(arm.decision)];
      } else if firstDenial.None? {
        firstDenial := Some(arm.decision);
      }
    }
    assert arms[..|policies|] == arms;
    AnyReduces(lattice, arms, facts);
    if pending == [] {
      if resolvedPermits == [] && firstDenial.Some? {
        return Resolved(WithConsulted(firstDenial.value, consulted.entries));
      }
      var decision := Loops.EvaluateResidualToDecision(
        lattice, ResidualPolicy.Any(resolvedPermits), PartialToKnown(facts));
      return Resolved(WithConsulted(decision, consulted.entries));
    }
    var residual := resolvedPermits;
    if residual == [] && firstDenial.Some? {
      residual := [PolicyFromDecision(firstDenial.value)];
    }
    reduced := Pending(ResidualPolicy.Any(residual + pending), consulted.entries);
  }

  // ----- loop steps -----

  ghost predicate NoResolvedDenial<O>(arms: seq<Residual<O>>) {
    forall i | 0 <= i < |arms| :: !ResolvedDenial(arms[i])
  }

  function FirstDenialOf<O>(arms: seq<Residual<O>>): Option<Decision<O>> {
    var k := FirstResolvedDenial(arms);
    if k < |arms| then Some(arms[k].decision) else None
  }

  lemma ReductionStep<O>(arms: seq<Residual<O>>, i: nat)
    requires i < |arms|
    ensures arms[..i + 1][..i] == arms[..i]
    ensures MergedConsulted(arms[..i + 1]) == Extended(MergedConsulted(arms[..i]), ConsultedOf(arms[i]))
    ensures PendingResiduals(arms[..i + 1]) ==
      if arms[i].Pending? then PendingResiduals(arms[..i]) + [arms[i].residual] else PendingResiduals(arms[..i])
    ensures ResolvedPermits(arms[..i + 1]) ==
      if ResolvedPermit(arms[i]) then ResolvedPermits(arms[..i]) + [PolicyFromDecision(arms[i].decision)]
      else ResolvedPermits(arms[..i])
  {
    assert arms[..i + 1][..i] == arms[..i];
    assert arms[..i + 1] == arms[..i] + [arms[i]];
  }

  lemma FirstResolvedDenialUnique<O>(arms: seq<Residual<O>>, k: nat)
    requires k <= |arms| && NoResolvedDenial(arms[..k])
    requires k < |arms| ==> ResolvedDenial(arms[k])
    ensures FirstResolvedDenial(arms) == k
  {
    forall i | 0 <= i < k ensures !ResolvedDenial(arms[i]) {
      assert arms[..k][i] == arms[i];
    }
  }

  lemma FirstDenialOfStep<O>(arms: seq<Residual<O>>, i: nat)
    requires i < |arms|
    ensures FirstDenialOf(arms[..i + 1]) ==
      if FirstDenialOf(arms[..i]).Some? || !ResolvedDenial(arms[i]) then FirstDenialOf(arms[..i])
      else Some(arms[i].decision)
  {
    var before, after := arms[..i], arms[..i + 1];
    assert after == before + [arms[i]];
    var k := FirstResolvedDenial(before);
    assert k < |before| ==> after[k] == before[k];
    FirstResolvedDenialUnique(after, if k < |before| || ResolvedDenial(arms[i]) then k else i + 1);
  }

  lemma AnyReduces<O>(lattice: Lattice<O>, arms: seq<Residual<O>>, facts: PartialFacts)
    requires arms != []
    ensures var permits, pending, denial, consulted :=
        ResolvedPermits(arms), PendingResiduals(arms), FirstDenialOf(arms), MergedConsulted(arms);
      ReduceAny(lattice, arms, facts) ==
        if pending != [] then
          var constants := if permits == [] && denial.Some? then [PolicyFromDecision(denial.value)] else permits;
          Pending(ResidualPolicy.Any(constants + pending), consulted)
        else if permits == [] && denial.Some? then Resolved(WithConsulted(denial.value, consulted))
        else Resolved(WithConsulted(
          EvaluateResidual(lattice, ResidualPolicy.Any(permits), PartialToKnown(facts)), consulted))
  {
  }

  lemma NoDenialReduces<O>(lattice: Lattice<O>, arms: seq<Residual<O>>, facts: PartialFacts)
    requires arms != [] && FirstResolvedDenial(arms) == |arms|
    ensures var permits, pending := ResolvedPermits(arms), PendingResiduals(arms);
      ReduceAll(lattice, arms, facts) ==
        if pending != [] then Pending(ResidualPolicy.All(permits + pending), MergedConsulted(arms))
        else Resolved(WithConsulted(
          EvaluateResidual(lattice, ResidualPolicy.All(permits), PartialToKnown(facts)), MergedConsulted(arms)))
  {
  }

  lemma DenialDecides<O>(lattice: Lattice<O>, arms: seq<Residual<O>>, i: nat, facts: PartialFacts)
    requires i < |arms| && FirstResolvedDenial(arms) == i
    ensures ReduceAll(lattice, arms, facts) ==
      Resolved(WithConsulted(arms[i].decision, MergedConsulted(arms[..i + 1])))
  {
  }
}
