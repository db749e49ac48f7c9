/** Evaluation of policies and residual policies against known facts. */
module Evaluation {
  import opened Wrappers
  import opened Facts
  import opened Policies
  import opened Consulting
  import opened Conditions

  datatype EvalResult<+O> = EvalResult(
    effect: Effect<O>,
    obligations: seq<ObligationId>,
    decisive: DecisiveClause<O>)

  // The result of one policy with every read that produced it, in order.
  datatype Arm<+O> = Arm(result: EvalResult<O>, readLog: Log)

  // A permit keeps its trace and obligations attached while outcomes combine.
  datatype PermitState<+O> = PermitState(
    outcome: O,
    obligations: seq<ObligationId>,
    decisive: DecisiveClause<O>)

  function GenericDeny<O>(): EvalResult<O> {
    EvalResult(Effect.Deny, [], DecisiveClause.Deny(None, [], None, None, Forbidden))
  }

  function ConstantPermit<O>(
      outcome: O, obligations: seq<ObligationId>, satisfied: seq<FactId>, clauseLabel: Option<Label>)
    : EvalResult<O>
  {
    EvalResult(Effect.Permit(outcome), obligations, DecisiveClause.Permit(outcome, satisfied, clauseLabel))
  }

  // ----- combining permits -----

  // Appends the obligations of `source` that `target` lacks.
  function UnionObligations(target: seq<ObligationId>, source: seq<ObligationId>): seq<ObligationId> {
    if source == [] then target
    else
      var earlier, last := UnionObligations(target, source[..|source| - 1]), source[|source| - 1];
      if last in earlier then earlier else earlier + [last]
  }

  function CombinedPermit<O>(outcome: O, obligations: seq<ObligationId>): PermitState<O> {
    PermitState(outcome, obligations, DecisiveClause.Permit(outcome, [], None))
  }

  function Meet<O(==)>(lattice: Lattice<O>, current: PermitState<O>, incoming: PermitState<O>): PermitState<O> {
    var outcome := lattice.meet(current.outcome, incoming.outcome);
    if outcome == current.outcome then current
    else if outcome == incoming.outcome then incoming
    else CombinedPermit(outcome, [])
  }

  function Join<O(==)>(lattice: Lattice<O>, current: PermitState<O>, incoming: PermitState<O>): PermitState<O> {
    var outcome := lattice.join(current.outcome, incoming.outcome);
    var union := UnionObligations(current.obligations, incoming.obligations);
    if outcome == current.outcome && outcome == incoming.outcome then current.(obligations := union)
    else if outcome == incoming.outcome then incoming
    else if outcome == current.outcome then current
    else CombinedPermit(outcome, union)
  }

  function IntoResult<O>(permit: PermitState<O>): EvalResult<O> {
    EvalResult(Effect.Permit(permit.outcome), permit.obligations, permit.decisive)
  }

  function PermitOf<O>(result: EvalResult<O>): PermitState<O>
    requires result.effect.Permit?
  {
    PermitState(result.effect.outcome, result.obligations, result.decisive)
  }

  // ----- combining arms -----

  function FirstDeny<O>(arms: seq<Arm<O>>): (k: nat)
    ensures k <= |arms|
    ensures forall i | 0 <= i < k :: arms[i].result.effect.Permit?
    ensures k < |arms| ==> arms[k].result.effect.Deny?
  {
    if arms == [] || arms[0].result.effect.Deny? then 0 else 1 + FirstDeny(arms[1..])
  }

  function ReadsOf<O>(arms: seq<Arm<O>>): Log {
    if arms == [] then [] else ReadsOf(arms[..|arms| - 1]) + arms[|arms| - 1].readLog
  }

  datatype Mode = ByMeet | ByJoin

  function Combine<O(==)>(lattice: Lattice<O>, mode: Mode, current: PermitState<O>, incoming: PermitState<O>)
    : PermitState<O>
  {
    if mode == ByMeet then Meet(lattice, current, incoming) else Join(lattice, current, incoming)
  }

  // The permitting arms combined from left to right.
  function FoldPermits<O(==)>(lattice: Lattice<O>, mode: Mode, arms: seq<Arm<O>>): Option<PermitState<O>> {
    if arms == [] then None
    else
      var current, last := FoldPermits(lattice, mode, arms[..|arms| - 1]), arms[|arms| - 1].result;
      if last.effect.Deny? then current
      else if current.None? then Some(PermitOf(last))
      else Some(Combine(lattice, mode, current.value, PermitOf(last)))
  }

  // An `all` set stops at its first denial; without arms it denies.
  function AllOfArms<O(==)>(lattice: Lattice<O>, arms: seq<Arm<O>>): Arm<O> {
    var k := FirstDeny(arms);
    if k < |arms| then Arm(arms[k].result, ReadsOf(arms[..k + 1]))
    else
      match FoldPermits(lattice, ByMeet, arms)
      case None => Arm(GenericDeny(), [])
      case Some(permit) => Arm(IntoResult(permit), ReadsOf(arms))
  }

  // An `any` set reads every arm; without a permit it reports its first denial.
  function AnyOfArms<O(==)>(lattice: Lattice<O>, arms: seq<Arm<O>>): Arm<O> {
    match FoldPermits(lattice, ByJoin, arms)
    case Some(permit) => Arm(IntoResult(permit), ReadsOf(arms))
    case None =>
      var k := FirstDeny(arms);
      var decisive := if k < |arms| then arms[k].result.decisive else GenericDeny().decisive;
      Arm(EvalResult(Effect.Deny, [], decisive), ReadsOf(arms))
  }

  function OrElseArms<O>(primary: Arm<O>, fallback: Arm<O>): Arm<O> {
    if primary.result.effect.Permit? then primary
    else Arm(fallback.result, primary.readLog + fallback.readLog)
  }

  function EvalGrant<O>(clause: Clause<O>, facts: KnownFacts): Arm<O> {
    var reading := EvalCondition(clause.condition, facts);
    if reading.satisfied then
      Arm(ConstantPermit(clause.outcome, clause.obligations, reading.decisive, clause.clauseLabel),
          reading.readLog)
    else
      Arm(EvalResult(
            Effect.Deny, [],
            DecisiveClause.Deny(
              Some(clause.outcome), reading.decisive, clause.clauseLabel, clause.reason, clause.denyShape)),
          reading.readLog)
  }

  // ----- policies -----

  function EvalPolicy<O(==)>(lattice: Lattice<O>, policy: Policy<O>, facts: KnownFacts): Arm<O>
    decreases policy, 1
  {
    match policy
    case Permit(outcome) => Arm(ConstantPermit(outcome, [], [], None), [])
    case Deny => Arm(GenericDeny(), [])
    case Grant(clause) => EvalGrant(clause, facts)
    case All(policies) => AllOfArms(lattice, EvalPolicies(lattice, policies, facts))
    case Any(policies) => AnyOfArms(lattice, EvalPolicies(lattice, policies, facts))
    case OrElse(primary, fallback) =>
      OrElseArms(EvalPolicy(lattice, primary, facts), EvalPolicy(lattice, fallback, facts))
  }

  function EvalPolicies<O(==)>(lattice: Lattice<O>, policies: seq<Policy<O>>, facts: KnownFacts)
    : (arms: seq<Arm<O>>)
    ensures |arms| == |policies|
    ensures forall i | 0 <= i < |arms| :: arms[i] == EvalPolicy(lattice, policies[i], facts)
    decreases policies, 0
  {
    if policies == [] then []
    else [EvalPolicy(lattice, policies[0], facts)] + EvalPolicies(lattice, policies[1..], facts)
  }

  function EvalResidual<O(==)>(lattice: Lattice<O>, policy: ResidualPolicy<O>, facts: KnownFacts): Arm<O>
    decreases policy, 1
  {
    match policy
    case Permit(outcome) => Arm(ConstantPermit(outcome, [], [], None), [])
    case Deny => Arm(GenericDeny(), [])
    case PermitWithTrace(outcome, obligations, satisfied, clauseLabel) =>
      Arm(ConstantPermit(outcome, obligations, satisfied, clauseLabel), [])
    case DenyWithTrace(denied, unsatisfied, clauseLabel, reason, shape) =>
      Arm(EvalResult(
            Effect.Deny, [], DecisiveClause.Deny(denied, unsatisfied, clauseLabel, reason, shape)), [])
    case Grant(clause) => EvalGrant(clause, facts)
    case All(policies) => AllOfArms(lattice, EvalResiduals(lattice, policies, facts))
    case Any(policies) => AnyOfArms(lattice, EvalResiduals(lattice, policies, facts))
    case OrElse(primary, fallback) =>
      OrElseArms(EvalResidual(lattice, primary, facts), EvalResidual(lattice, fallback, facts))
  }

  function EvalResiduals<O(==)>(lattice: Lattice<O>, policies: seq<ResidualPolicy<O>>, facts: KnownFacts)
    : (arms: seq<Arm<O>>)
    ensures |arms| == |policies|
    ensures forall i | 0 <= i < |arms| :: arms[i] == EvalResidual(lattice, policies[i], facts)
    decreases policies, 0
  {
    if policies == [] then []
    else [EvalResidual(lattice, policies[0], facts)] + EvalResiduals(lattice, policies[1..], facts)
  }

  function DecisionFrom<O>(arm: Arm<O>): Decision<O> {
    Decision(arm.result.effect, arm.result.obligations, Extended([], arm.readLog), arm.result.decisive)
  }

  function Evaluate<O(==)>(lattice: Lattice<O>, policy: Policy<O>, facts: KnownFacts): Decision<O> {
    DecisionFrom(EvalPolicy(lattice, policy, facts))
  }

  function EvaluateResidual<O(==)>(lattice: Lattice<O>, policy: ResidualPolicy<O>, facts: KnownFacts): Decision<O> {
    DecisionFrom(EvalResidual(lattice, policy, facts))
  }
}
