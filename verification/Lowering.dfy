/** Lowering residual policies to SQL fragments: a filter, and a grade for each row. */
module Lowering {
  import opened Wrappers
  import opened Facts
  import opened Policies
  import opened PartialEvaluation
  import opened SqlSyntax
  import opened SqlMeaning

  type Fragment = seq<SqlPart>

  datatype LowerError = Unlowerable(fact: FactId) | NonTotalGrade

  datatype Projection<!O> = Ordinals(ordinal: O -> int) | NoGrades

  datatype Lowerer<!O> = Lowerer(
    backend: Backend,
    predicates: FactId -> Option<Fragment>,
    projection: Projection<O>,
    tenantColumn: string)

  datatype Lowered = Lowered(filter: Fragment, grade: Fragment)

  // ----- the backends' grade functions -----

  function MinName(backend: Backend): string {
    match backend
    case Postgres => "LEAST"
    case Sqlite => "min"
    case MySql => "LEAST"
  }

  function MaxName(backend: Backend): string {
    match backend
    case Postgres => "GREATEST"
    case Sqlite => "max"
    case MySql => "GREATEST"
  }

  // Whether a set of grades must be combined pairwise, because one NULL would swallow a call.
  predicate PropagatesNull(backend: Backend) {
    match backend
    case Postgres => false
    case Sqlite => true
    case MySql => true
  }

  // ----- fragment builders -----

  function Wrapped(fragment: Fragment): Fragment {
    T(LParen) + fragment + T(RParen)
  }

  function Negated(fragment: Fragment): Fragment {
    T(NotWord) + Wrapped(fragment)
  }

  function BinaryTail(separator: Token, fragments: seq<Fragment>): Fragment {
    if fragments == [] then []
    else BinaryTail(separator, fragments[..|fragments| - 1]) + T(separator) + Wrapped(fragments[|fragments| - 1])
  }

  function Binary(separator: Token, fragments: seq<Fragment>): Fragment {
    if fragments == [] then T(FalseWord) else Wrapped(fragments[0]) + BinaryTail(separator, fragments[1..])
  }

  function ArgumentTail(fragments: seq<Fragment>): Fragment {
    if fragments == [] then []
    else ArgumentTail(fragments[..|fragments| - 1]) + T(Comma) + fragments[|fragments| - 1]
  }

  function Invocation(name: string, fragments: seq<Fragment>): Fragment {
    T(Name(name)) + T(LParen) +
    (if fragments == [] then [] else fragments[0] + ArgumentTail(fragments[1..])) + T(RParen)
  }

  function IsTrueTest(predicate_: Fragment): Fragment {
    T(LParen) + predicate_ + T(RParen) + T(IsWord) + T(TrueWord)
  }

  function CaseWhen(condition: Fragment, then_: Fragment, else_: Fragment): Fragment {
    T(CaseWord) + T(WhenWord) + condition + T(ThenWord) + then_ + T(ElseWord) + else_ + T(EndWord)
  }

  function NullBranch(tested: Fragment, value: Fragment): Fragment {
    T(WhenWord) + Wrapped(tested) + T(IsWord) + T(NullWord) + T(ThenWord) + value
  }

  function NullSafePair(name: string, left: Fragment, right: Fragment): Fragment {
    T(CaseWord) + (NullBranch(left, right) + NullBranch(right, left))
      + T(ElseWord) + Invocation(name, [left, right]) + T(EndWord)
  }

  function NullSafeChain(name: string, grades: seq<Fragment>): Fragment
    requires grades != []
  {
    if |grades| == 1 then grades[0]
    else NullSafePair(name, NullSafeChain(name, grades[..|grades| - 1]), grades[|grades| - 1])
  }

  function GradeSet(backend: Backend, grades: seq<Fragment>, name: string): Fragment {
    if grades == [] then T(NullWord)
    else if |grades| == 1 then grades[0]
    else if PropagatesNull(backend) then NullSafeChain(name, grades)
    else Invocation(name, grades)
  }

  // ----- conditions -----

  function LowerCondition<O>(lowerer: Lowerer<O>, condition: Condition): Result<Fragment, LowerError>
    decreases condition, 1
  {
    match condition
    case Always => Ok(T(TrueWord))
    case Never => Ok(T(FalseWord))
    case Has(fact) =>
      (match lowerer.predicates(fact)
       case None => Err(Unlowerable(fact))
       case Some(fragment) => Ok(IsTrueTest(fragment)))
    case Not(inner) =>
      (match LowerCondition(lowerer, inner)
       case Err(error) => Err(error)
       case Ok(fragment) => Ok(Negated(fragment)))
    case AllOf(conditions) => LowerSet(LowerConditions(lowerer, conditions), AndWord)
    case AnyOf(conditions) => LowerSet(LowerConditions(lowerer, conditions), OrWord)
  }

  // Stops at the first condition that cannot be lowered.
  function LowerConditions<O>(lowerer: Lowerer<O>, conditions: seq<Condition>): (r: Result<seq<Fragment>, LowerError>)
    ensures r.Ok? ==> |r.value| == |conditions|
    decreases conditions, 0
  {
    if conditions == [] then Ok([])
    else
      match LowerCondition(lowerer, conditions[0])
      case Err(error) => Err(error)
      case Ok(first) =>
        match LowerConditions(lowerer, conditions[1..])
        case Err(error) => Err(error)
        case Ok(rest) => Ok([first] + rest)
  }

  function LowerSet(fragments: Result<seq<Fragment>, LowerError>, separator: Token): Result<Fragment, LowerError> {
    match fragments
    case Err(error) => Err(error)
    case Ok(list) => Ok(Binary(separator, list))
  }

  function Constant<O>(lowerer: Lowerer<O>, outcome: O): Result<Fragment, LowerError> {
    match lowerer.projection
    case Ordinals(ordinal) => Ok([Bind(I64(ordinal(outcome)))])
    case NoGrades => Err(NonTotalGrade)
  }

  // ----- policies -----

  // Fallbacks that carry an obligation are not descended into.
  function LowerFilterNode<O>(lowerer: Lowerer<O>, policy: ResidualPolicy<O>): Result<Fragment, LowerError>
    decreases policy, 1
  {
    match policy
    case Permit(_) => Ok(T(TrueWord))
    case PermitWithTrace(_, _, _, _) => Ok(T(TrueWord))
    case Deny => Ok(T(FalseWord))
    case DenyWithTrace(_, _, _, _, _) => Ok(T(FalseWord))
    case Grant(clause) => LowerCondition(lowerer, clause.condition)
    case All(arms) => LowerSet(LowerFilterArms(lowerer, arms), AndWord)
    case Any(arms) => LowerSet(LowerFilterArms(lowerer, arms), OrWord)
    case OrElse(primary, fallback) =>
      match LowerFilterNode(lowerer, primary)
      case Err(error) => Err(error)
      case Ok(first) =>
        if CarriesObligation(fallback) then Ok(first)
        else
          match LowerFilterNode(lowerer, fallback)
          case Err(error) => Err(error)
          case Ok(second) => Ok(Binary(OrWord, [first, second]))
  }

  function LowerFilterArms<O>(lowerer: Lowerer<O>, arms: seq<ResidualPolicy<O>>): (r: Result<seq<Fragment>, LowerError>)
    ensures r.Ok? ==> |r.value| == |arms|
    decreases arms, 0
  {
    if arms == [] then Ok([])
    else
      match LowerFilterNode(lowerer, arms[0])
      case Err(error) => Err(error)
      case Ok(first) =>
        match LowerFilterArms(lowerer, arms[1..])
        case Err(error) => Err(error)
        case Ok(rest) => Ok([first] + rest)
  }

  function Filters(lowered: seq<Lowered>): (fragments: seq<Fragment>)
    ensures |fragments| == |lowered|
    ensures forall i | 0 <= i < |lowered| :: fragments[i] == lowered[i].filter
  {
    if lowered == [] then [] else [lowered[0].filter] + Filters(lowered[1..])
  }

  function Grades(lowered: seq<Lowered>): (fragments: seq<Fragment>)
    ensures |fragments| == |lowered|
    ensures forall i | 0 <= i < |lowered| :: fragments[i] == lowered[i].grade
  {
    if lowered == [] then [] else [lowered[0].grade] + Grades(lowered[1..])
  }

  function LowerNode<O>(lowerer: Lowerer<O>, policy: ResidualPolicy<O>): Result<Lowered, LowerError>
    decreases policy, 1
  {
    match policy
    case Permit(outcome) => LowerConstant(lowerer, outcome)
    case PermitWithTrace(outcome, _, _, _) => LowerConstant(lowerer, outcome)
    case Deny => Ok(Lowered(T(FalseWord), T(NullWord)))
    case DenyWithTrace(_, _, _, _, _) => Ok(Lowered(T(FalseWord), T(NullWord)))
    case Grant(clause) =>
      (match LowerCondition(lowerer, clause.condition)
       case Err(error) => Err(error)
       case Ok(filter) =>
         match Constant(lowerer, clause.outcome)
         case Err(error) => Err(error)
         case Ok(outcome) => Ok(Lowered(filter, CaseWhen(filter, outcome, T(NullWord)))))
    case All(arms) =>
      (match LowerArms(lowerer, arms)
       case Err(error) => Err(error)
       case Ok(lowered) => Ok(Lowered(
         Binary(AndWord, Filters(lowered)),
         GradeSet(lowerer.backend, Grades(lowered), MinName(lowerer.backend)))))
    case Any(arms) =>
      (match LowerArms(lowerer, arms)
       case Err(error) => Err(error)
       case Ok(lowered) => Ok(Lowered(
         Binary(OrWord, Filters(lowered)),
         GradeSet(lowerer.backend, Grades(lowered), MaxName(lowerer.backend)))))
    case OrElse(primary, fallback) =>
      match LowerNode(lowerer, primary)
      case Err(error) => Err(error)
      case Ok(first) =>
        if CarriesObligation(fallback) then Ok(first)
        else
          match LowerNode(lowerer, fallback)
          case Err(error) => Err(error)
          case Ok(second) => Ok(Lowered(
            Binary(OrWord, [first.filter, second.filter]),
            CaseWhen(first.filter, first.grade, second.grade)))
  }

  function LowerConstant<O>(lowerer: Lowerer<O>, outcome: O): Result<Lowered, LowerError> {
    match Constant(lowerer, outcome)
    case Err(error) => Err(error)
    case Ok(grade) => Ok(Lowered(T(TrueWord), grade))
  }

  function LowerArms<O>(lowerer: Lowerer<O>, arms: seq<ResidualPolicy<O>>): (r: Result<seq<Lowered>, LowerError>)
    ensures r.Ok? ==> |r.value| == |arms|
    decreases arms, 0
  {
    if arms == [] then Ok([])
    else
      match LowerNode(lowerer, arms[0])
      case Err(error) => Err(error)
      case Ok(first) =>
        match LowerArms(lowerer, arms[1..])
        case Err(error) => Err(error)
        case Ok(rest) => Ok([first] + rest)
  }

  // ----- tenant guards and entry points -----

  function TenantTest<O>(lowerer: Lowerer<O>, tenant: string): Fragment {
    T(Name(lowerer.tenantColumn)) + T(Equals) + [Bind(SqlValue.Text(tenant))]
  }

  function EnforceTenantFilter<O>(lowerer: Lowerer<O>, policy: Fragment, tenant: string): Fragment {
    Binary(AndWord, [TenantTest(lowerer, tenant), policy])
  }

  function EnforceTenantProjection<O>(lowerer: Lowerer<O>, grade: Fragment, tenant: string): Fragment {
    CaseWhen(EnforceTenantFilter(lowerer, T(TrueWord), tenant), grade, T(NullWord))
  }

  function Guard<O>(lowerer: Lowerer<O>, lowered: Lowered, tenant: string): Lowered {
    Lowered(
      EnforceTenantFilter(lowerer, lowered.filter, tenant),
      EnforceTenantProjection(lowerer, lowered.grade, tenant))
  }

  function LowerFilter<O>(lowerer: Lowerer<O>, policy: ResidualPolicy<O>, tenant: string)
    : Result<Fragment, LowerError>
  {
    match LowerFilterNode(lowerer, policy)
    case Err(error) => Err(error)
    case Ok(filter) => Ok(EnforceTenantFilter(lowerer, filter, tenant))
  }

  function Lower<O>(lowerer: Lowerer<O>, policy: ResidualPolicy<O>, tenant: string): Result<Lowered, LowerError> {
    match LowerNode(lowerer, policy)
    case Err(error) => Err(error)
    case Ok(lowered) => Ok(Guard(lowerer, lowered, tenant))
  }

  // Resolved and pending results take the same guarded path.
  function LowerResult<O>(lowerer: Lowerer<O>, result: Residual<O>, tenant: string): Result<Lowered, LowerError> {
    match result
    case Pending(residual, _) => Lower(lowerer, residual, tenant)
    case Resolved(decision) =>
      match decision.effect
      case Deny => Ok(Guard(lowerer, Lowered(T(FalseWord), T(NullWord)), tenant))
      case Permit(outcome) =>
        match LowerConstant(lowerer, outcome)
        case Err(error) => Err(error)
        case Ok(lowered) => Ok(Guard(lowerer, lowered, tenant))
  }

  // ----- pruning -----

  // The residual with every obligated fallback removed.
  function Prune<O>(policy: ResidualPolicy<O>): ResidualPolicy<O>
    decreases policy, 1
  {
    match policy
    case All(arms) => ResidualPolicy.All(PruneArms(arms))
    case Any(arms) => ResidualPolicy.Any(PruneArms(arms))
    case OrElse(primary, fallback) =>
      if CarriesObligation(fallback) then Prune(primary)
      else ResidualPolicy.OrElse(Prune(primary), Prune(fallback))
    case _ => policy
  }

  function PruneArms<O>(arms: seq<ResidualPolicy<O>>): (pruned: seq<ResidualPolicy<O>>)
    ensures |pruned| == |arms|
    ensures forall i | 0 <= i < |arms| :: pruned[i] == Prune(arms[i])
    decreases arms, 0
  {
    if arms == [] then [] else [Prune(arms[0])] + PruneArms(arms[1..])
  }
}
