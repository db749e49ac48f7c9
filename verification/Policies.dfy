/** Conditions, policies, residual policies, decisions and outcome lattices. */
module Policies {
  import opened Wrappers
  import opened Facts

  type Label = string
  type ReasonCode = string
  type ObligationId = string

  // ----- conditions -----

  datatype Condition =
    | Always
    | Never
    | Has(fact: FactId)
    | Not(inner: Condition)
    | AllOf(conditions: seq<Condition>)
    | AnyOf(conditions: seq<Condition>)

  function ConditionFacts(condition: Condition): set<FactId> {
    match condition
    case Always => {}
    case Never => {}
    case Has(fact) => {fact}
    case Not(inner) => ConditionFacts(inner)
    case AllOf(cs) => set i, f | 0 <= i < |cs| && f in ConditionFacts(cs[i]) :: f
    case AnyOf(cs) => set i, f | 0 <= i < |cs| && f in ConditionFacts(cs[i]) :: f
  }

  predicate NegationFree(condition: Condition) {
    match condition
    case Always => true
    case Never => true
    case Has(_) => true
    case Not(_) => false
    case AllOf(cs) => forall i | 0 <= i < |cs| :: NegationFree(cs[i])
    case AnyOf(cs) => forall i | 0 <= i < |cs| :: NegationFree(cs[i])
  }

  // What a condition means: an empty conjunction, like an empty disjunction, is false.
  predicate Holds(condition: Condition, facts: KnownFacts) {
    match condition
    case Always => true
    case Never => false
    case Has(fact) => IsPresent(facts, fact)
    case Not(inner) => !Holds(inner, facts)
    case AllOf(cs) => cs != [] && forall i | 0 <= i < |cs| :: Holds(cs[i], facts)
    case AnyOf(cs) => exists i | 0 <= i < |cs| :: Holds(cs[i], facts)
  }

  // ----- policies -----

  datatype DenyShape = Forbidden | Hidden

  // The fields of a grant, shared by policies and residual policies.
  datatype Clause<O> = Clause(
    outcome: O,
    condition: Condition,
    clauseLabel: Option<Label>,
    denyShape: DenyShape,
    obligations: seq<ObligationId>,
    reason: Option<ReasonCode>)

  datatype Policy<O> =
    | Permit(outcome: O)
    | Deny
    | Grant(clause: Clause<O>)
    | All(arms: seq<Policy<O>>)
    | Any(arms: seq<Policy<O>>)
    | OrElse(primary: Policy<O>, fallback: Policy<O>)

  datatype ResidualPolicy<O> =
    | Permit(outcome: O)
    | Deny
    | PermitWithTrace(
        outcome: O,
        obligations: seq<ObligationId>,
        satisfied: seq<FactId>,
        clauseLabel: Option<Label>)
    | DenyWithTrace(
        denied: Option<O>,
        unsatisfied: seq<FactId>,
        clauseLabel: Option<Label>,
        reason: Option<ReasonCode>,
        shape: DenyShape)
    | Grant(clause: Clause<O>)
    | All(arms: seq<ResidualPolicy<O>>)
    | Any(arms: seq<ResidualPolicy<O>>)
    | OrElse(primary: ResidualPolicy<O>, fallback: ResidualPolicy<O>)

  function PolicyFacts<O>(policy: Policy<O>): set<FactId> {
    match policy
    case Permit(_) => {}
    case Deny => {}
    case Grant(clause) => ConditionFacts(clause.condition)
    case All(arms) => set i, f | 0 <= i < |arms| && f in PolicyFacts(arms[i]) :: f
    case Any(arms) => set i, f | 0 <= i < |arms| && f in PolicyFacts(arms[i]) :: f
    case OrElse(primary, fallback) => PolicyFacts(primary) + PolicyFacts(fallback)
  }

  function ResidualFacts<O>(policy: ResidualPolicy<O>): set<FactId> {
    match policy
    case Grant(clause) => ConditionFacts(clause.condition)
    case All(arms) => set i, f | 0 <= i < |arms| && f in ResidualFacts(arms[i]) :: f
    case Any(arms) => set i, f | 0 <= i < |arms| && f in ResidualFacts(arms[i]) :: f
    case OrElse(primary, fallback) => ResidualFacts(primary) + ResidualFacts(fallback)
    case _ => {}
  }

  // Whether any possible permit carries an obligation.
  predicate CarriesObligation<O>(policy: ResidualPolicy<O>) {
    match policy
    case PermitWithTrace(_, obligations, _, _) => obligations != []
    case Grant(clause) => clause.obligations != []
    case All(arms) => exists i | 0 <= i < |arms| :: CarriesObligation(arms[i])
    case Any(arms) => exists i | 0 <= i < |arms| :: CarriesObligation(arms[i])
    case OrElse(primary, fallback) => CarriesObligation(primary) || CarriesObligation(fallback)
    case _ => false
  }

  // The same question asked of an unreduced policy.
  predicate PolicyCarriesObligation<O>(policy: Policy<O>) {
    match policy
    case Grant(clause) => clause.obligations != []
    case All(arms) => exists i | 0 <= i < |arms| :: PolicyCarriesObligation(arms[i])
    case Any(arms) => exists i | 0 <= i < |arms| :: PolicyCarriesObligation(arms[i])
    case OrElse(primary, fallback) =>
      PolicyCarriesObligation(primary) || PolicyCarriesObligation(fallback)
    case _ => false
  }

  // ----- decisions -----

  datatype Effect<+O> = Permit(outcome: O) | Deny

  datatype DecisiveClause<+O> =
    | Permit(granted: O, satisfied: seq<FactId>, clauseLabel: Option<Label>)
    | Deny(
        denied: Option<O>,
        unsatisfied: seq<FactId>,
        clauseLabel: Option<Label>,
        reason: Option<ReasonCode>,
        shape: DenyShape)

  datatype Decision<+O> = Decision(
    effect: Effect<O>,
    obligations: seq<ObligationId>,
    consulted: seq<(FactId, Presence)>,
    decisive: DecisiveClause<O>)

  // ----- outcome lattices -----

  datatype Lattice<!O> = Lattice(
    meet: (O, O) -> O,
    join: (O, O) -> O,
    top: O,
    bottom: O)

  predicate Commutes<O(==)>(op: (O, O) -> O, a: O, b: O) {
    op(a, b) == op(b, a)
  }

  predicate Associates<O(==)>(op: (O, O) -> O, a: O, b: O, c: O) {
    op(a, op(b, c)) == op(op(a, b), c)
  }

  predicate Idempotent<O(==)>(op: (O, O) -> O, a: O) {
    op(a, a) == a
  }

  predicate Bounded<O(==)>(lattice: Lattice<O>, a: O) {
    lattice.meet(a, lattice.top) == a && lattice.join(a, lattice.bottom) == a
  }

  predicate Absorbs<O(==)>(lattice: Lattice<O>, a: O, b: O) {
    lattice.meet(a, lattice.join(a, b)) == a && lattice.join(a, lattice.meet(a, b)) == a
  }

  ghost predicate Commutative<O(!new)>(op: (O, O) -> O) {
    forall a, b :: Commutes(op, a, b)
  }

  ghost predicate Associative<O(!new)>(op: (O, O) -> O) {
    forall a, b, c :: Associates(op, a, b, c)
  }

  // The laws that `check_lattice` tests over a listed finite set of outcomes.
  ghost predicate LatticeLaws<O(!new)>(lattice: Lattice<O>) {
    && Commutative(lattice.meet) && Commutative(lattice.join)
    && Associative(lattice.meet) && Associative(lattice.join)
    && (forall a :: Idempotent(lattice.meet, a) && Idempotent(lattice.join, a))
    && (forall a :: Bounded(lattice, a))
    && (forall a, b :: Absorbs(lattice, a, b))
  }

  ghost predicate Below<O>(lattice: Lattice<O>, low: O, high: O) {
    lattice.meet(low, high) == low
  }

  // Any two outcomes compare: one of them is both their meet and the other their join.
  ghost predicate Chain<O(!new)>(lattice: Lattice<O>) {
    forall a, b :: Comparable(lattice, a, b)
  }

  predicate Comparable<O(==)>(lattice: Lattice<O>, a: O, b: O) {
    || (lattice.meet(a, b) == a && lattice.join(a, b) == b)
    || (lattice.meet(a, b) == b && lattice.join(a, b) == a)
  }
}
