/** The expression each lowered fragment spells, and the proof that SQL precedence reads it so. */
module LoweringSyntax {
  import opened Wrappers
  import opened Facts
  import opened Policies
  import opened SqlSyntax
  import opened SqlMeaning
  import opened Lowering

  // Application predicates are opaque runs led by their own fact.
  ghost predicate OpaquePredicates<O>(lowerer: Lowerer<O>) {
    forall f :: lowerer.predicates(f).Some? ==> OpaqueFor(lowerer.predicates(f).value, f)
  }

  predicate OpaqueFor(parts: seq<SqlPart>, fact: FactId) {
    OpaqueRun(parts) && parts[0].token.fact == fact
  }

  ghost predicate Spells(fragment: Fragment, e: SqlExpr) {
    Guarded(e) && fragment == Print(e)
  }

  // ----- expressions -----

  function Parens(items: seq<SqlExpr>): (wrapped: seq<SqlExpr>) {
    seq(|items|, i requires 0 <= i < |items| => Paren(items[i]))
  }

  function SetExpr(separator: Token, items: seq<SqlExpr>): SqlExpr {
    if items == [] then FalseLit
    else if |items| == 1 then Paren(items[0])
    else if separator == OrWord then Or(Parens(items))
    else And(Parens(items))
  }

  function PairExpr(name: string, left: SqlExpr, right: SqlExpr): SqlExpr {
    Case([Branch(IsNull(Paren(left)), right), Branch(IsNull(Paren(right)), left)], Call(name, [left, right]))
  }

  function ChainExpr(name: string, items: seq<SqlExpr>): SqlExpr
    requires items != []
  {
    if |items| == 1 then items[0]
    else PairExpr(name, ChainExpr(name, items[..|items| - 1]), items[|items| - 1])
  }

  function GradeSetExpr(backend: Backend, items: seq<SqlExpr>, name: string): SqlExpr {
    if items == [] then NullLit
    else if |items| == 1 then items[0]
    else if PropagatesNull(backend) then ChainExpr(name, items)
    else Call(name, items)
  }

  function WhenExpr(condition: SqlExpr, value: SqlExpr, otherwise: SqlExpr): SqlExpr {
    Case([Branch(condition, value)], otherwise)
  }

  function ConditionExpr<O>(lowerer: Lowerer<O>, condition: Condition): SqlExpr
    decreases condition, 1
  {
    match condition
    case Always => TrueLit
    case Never => FalseLit
    case Has(fact) =>
      (match lowerer.predicates(fact)
       case None => FalseLit
       case Some(parts) => IsTrue(Paren(Predicate(parts))))
    case Not(inner) => SqlExpr.Not(Paren(ConditionExpr(lowerer, inner)))
    case AllOf(conditions) => SetExpr(AndWord, ConditionExprs(lowerer, conditions))
    case AnyOf(conditions) => SetExpr(OrWord, ConditionExprs(lowerer, conditions))
  }

  function ConditionExprs<O>(lowerer: Lowerer<O>, conditions: seq<Condition>): (items: seq<SqlExpr>)
    ensures |items| == |conditions|
    ensures forall i | 0 <= i < |items| :: items[i] == ConditionExpr(lowerer, conditions[i])
    decreases conditions, 0
  {
    if conditions == [] then []
    else [ConditionExpr(lowerer, conditions[0])] + ConditionExprs(lowerer, conditions[1..])
  }

  function FilterExpr<O>(lowerer: Lowerer<O>, policy: ResidualPolicy<O>): SqlExpr
    decreases policy, 1
  {
    match policy
    case Permit(_) => TrueLit
    case PermitWithTrace(_, _, _, _) => TrueLit
    case Deny => FalseLit
    case DenyWithTrace(_, _, _, _, _) => FalseLit
    case Grant(clause) => ConditionExpr(lowerer, clause.condition)
    case All(arms) => SetExpr(AndWord, FilterExprs(lowerer, arms))
    case Any(arms) => SetExpr(OrWord, FilterExprs(lowerer, arms))
    case OrElse(primary, fallback) =>
      if CarriesObligation(fallback) then FilterExpr(lowerer, primary)
      else SetExpr(OrWord, [FilterExpr(lowerer, primary), FilterExpr(lowerer, fallback)])
  }

  function FilterExprs<O>(lowerer: Lowerer<O>, arms: seq<ResidualPolicy<O>>): (items: seq<SqlExpr>)
    ensures |items| == |arms|
    ensures forall i | 0 <= i < |items| :: items[i] == FilterExpr(lowerer, arms[i])
    decreases arms, 0
  {
    if arms == [] then [] else [FilterExpr(lowerer, arms[0])] + FilterExprs(lowerer, arms[1..])
  }

  function ConstantExpr<O>(lowerer: Lowerer<O>, outcome: O): SqlExpr {
    match lowerer.projection
    case Ordinals(ordinal) => BindRef(I64(ordinal(outcome)))
    case NoGrades => NullLit
  }

  function GradeExpr<O>(lowerer: Lowerer<O>, policy: ResidualPolicy<O>): SqlExpr
    decreases policy, 1
  {
    match policy
    case Permit(outcome) => ConstantExpr(lowerer, outcome)
    case PermitWithTrace(outcome, _, _, _) => ConstantExpr(lowerer, outcome)
    case Deny => NullLit
    case DenyWithTrace(_, _, _, _, _) => NullLit
    case Grant(clause) =>
      WhenExpr(ConditionExpr(lowerer, clause.condition), ConstantExpr(lowerer, clause.outcome), NullLit)
    case All(arms) => GradeSetExpr(lowerer.backend, GradeExprs(lowerer, arms), MinName(lowerer.backend))
    case Any(arms) => GradeSetExpr(lowerer.backend, GradeExprs(lowerer, arms), MaxName(lowerer.backend))
    case OrElse(primary, fallback) =>
      if CarriesObligation(fallback) then GradeExpr(lowerer, primary)
      else WhenExpr(FilterExpr(lowerer, primary), GradeExpr(lowerer, primary), GradeExpr(lowerer, fallback))
  }

  function GradeExprs<O>(lowerer: Lowerer<O>, arms: seq<ResidualPolicy<O>>): (items: seq<SqlExpr>)
    ensures |items| == |arms|
    ensures forall i | 0 <= i < |items| :: items[i] == GradeExpr(lowerer, arms[i])
    decreases arms, 0
  {
    if arms == [] then [] else [GradeExpr(lowerer, arms[0])] + GradeExprs(lowerer, arms[1..])
  }

  function TenantFilterExpr<O>(lowerer: Lowerer<O>, policy: SqlExpr, tenant: string): SqlExpr {
    SetExpr(AndWord, [Equal(Column(lowerer.tenantColumn), BindRef(SqlValue.Text(tenant))), policy])
  }

  function TenantGradeExpr<O>(lowerer: Lowerer<O>, grade: SqlExpr, tenant: string): SqlExpr {
    WhenExpr(TenantFilterExpr(lowerer, TrueLit, tenant), grade, NullLit)
  }

  // ----- each builder spells its expression -----

  ghost predicate AllSpell(fragments: seq<Fragment>, items: seq<SqlExpr>) {
    |fragments| == |items| && forall i | 0 <= i < |items| :: Spells(fragments[i], items[i])
  }

  lemma {:induction false} PrintTailSnoc(items: seq<SqlExpr>, last: SqlExpr, separator: Token)
    ensures PrintTail(items + [last], separator) == PrintTail(items, separator) + T(separator) + Print(last)
  {
    if items != [] {
      PrintTailSnoc(items[1..], last, separator);
      assert (items + [last])[1..] == items[1..] + [last];
    }
  }

  lemma {:induction false} BinaryTailPrints(separator: Token, fragments: seq<Fragment>, items: seq<SqlExpr>)
    requires AllSpell(fragments, items)
    ensures BinaryTail(separator, fragments) == PrintTail(Parens(items), separator)
  {
    if items != [] {
      var n := |items| - 1;
      assert AllSpell(fragments[..n], items[..n]);
      BinaryTailPrints(separator, fragments[..n], items[..n]);
      assert Parens(items) == Parens(items[..n]) + [Paren(items[n])];
      PrintTailSnoc(Parens(items[..n]), Paren(items[n]), separator);
    }
  }

  lemma BinarySpells(separator: Token, fragments: seq<Fragment>, items: seq<SqlExpr>)
    requires separator == AndWord || separator == OrWord
    requires AllSpell(fragments, items)
    ensures Spells(Binary(separator, fragments), SetExpr(separator, items))
  {
    if items != [] {
      BinaryPrints(separator, fragments, items);
      ParensGuarded(items, separator);
      if |items| == 1 {
        assert fragments[1..] == [];
        assert Wrapped(fragments[0]) == Print(Paren(items[0]));
      }
    }
  }

  lemma BinaryPrints(separator: Token, fragments: seq<Fragment>, items: seq<SqlExpr>)
    requires AllSpell(fragments, items) && items != []
    ensures Binary(separator, fragments) == PrintList(Parens(items), separator)
  {
    assert AllSpell(fragments[1..], items[1..]);
    BinaryTailPrints(separator, fragments[1..], items[1..]);
    assert Parens(items)[1..] == Parens(items[1..]);
    assert Parens(items)[0] == Paren(items[0]);
    assert Wrapped(fragments[0]) == Print(Paren(items[0]));
  }

  lemma ParensGuarded(items: seq<SqlExpr>, separator: Token)
    requires separator == AndWord || separator == OrWord
    requires forall i | 0 <= i < |items| :: Guarded(items[i])
    ensures Guarded(SetExpr(separator, items))
  {
    var wrapped := Parens(items);
    forall i | 0 <= i < |items| ensures wrapped[i].Paren? && Guarded(wrapped[i]) {
      assert wrapped[i] == Paren(items[i]);
    }
  }

  lemma {:induction false} ArgumentTailPrints(fragments: seq<Fragment>, items: seq<SqlExpr>)
    requires AllSpell(fragments, items)
    ensures ArgumentTail(fragments) == PrintTail(items, Comma)
  {
    if items != [] {
      var n := |items| - 1;
      assert AllSpell(fragments[..n], items[..n]);
      ArgumentTailPrints(fragments[..n], items[..n]);
      assert items == items[..n] + [items[n]];
      PrintTailSnoc(items[..n], items[n], Comma);
    }
  }

  lemma InvocationSpells(name: string, fragments: seq<Fragment>, items: seq<SqlExpr>)
    requires AllSpell(fragments, items) && items != []
    ensures Spells(Invocation(name, fragments), Call(name, items))
  {
    assert AllSpell(fragments[1..], items[1..]);
    ArgumentTailPrints(fragments[1..], items[1..]);
    assert Spells(fragments[0], items[0]);
  }

  lemma CaseWhenSpells(
      c: Fragment, t: Fragment, e: Fragment, condition: SqlExpr, value: SqlExpr, otherwise: SqlExpr)
    requires Spells(c, condition) && Spells(t, value) && Spells(e, otherwise)
    ensures Spells(CaseWhen(c, t, e), WhenExpr(condition, value, otherwise))
  {
    var branch := Branch(condition, value);
    assert PrintBranches([branch]) == PrintBranch(branch);
  }

  lemma PairSpells(name: string, l: Fragment, r: Fragment, left: SqlExpr, right: SqlExpr)
    requires Spells(l, left) && Spells(r, right)
    ensures Spells(NullSafePair(name, l, r), PairExpr(name, left, right))
  {
    var first, second := Branch(IsNull(Paren(left)), right), Branch(IsNull(Paren(right)), left);
    assert AllSpell([l, r], [left, right]);
    InvocationSpells(name, [l, r], [left, right]);
    PrintTwoBranches(first, second);
    NullBranchPrints(left, right);
    NullBranchPrints(right, left);
  }

  lemma {:induction false} NullBranchPrints(tested: SqlExpr, value: SqlExpr)
    ensures PrintBranch(Branch(IsNull(Paren(tested)), value)) == NullBranch(Print(tested), Print(value))
    ensures Guarded(tested) ==> Guarded(IsNull(Paren(tested)))
  {
    assert Print(Paren(tested)) == Wrapped(Print(tested));
    assert Guarded(tested) ==> Guarded(Paren(tested));
  }

  lemma PrintTwoBranches(first: Branch, second: Branch)
    ensures PrintBranches([first, second]) == PrintBranch(first) + PrintBranch(second)
  {
    assert [first, second][1..] == [second];
    assert PrintBranches([second]) == PrintBranch(second);
  }

  lemma {:induction false} ChainSpells(name: string, fragments: seq<Fragment>, items: seq<SqlExpr>)
    requires AllSpell(fragments, items) && items != []
    ensures Spells(NullSafeChain(name, fragments), ChainExpr(name, items))
  {
    if |items| > 1 {
      var n := |items| - 1;
      assert AllSpell(fragments[..n], items[..n]);
      ChainSpells(name, fragments[..n], items[..n]);
      PairSpells(name, NullSafeChain(name, fragments[..n]), fragments[n], ChainExpr(name, items[..n]), items[n]);
    }
  }

  lemma GradeSetSpells(
      backend: Backend, fragments: seq<Fragment>, items: seq<SqlExpr>, name: string)
    requires AllSpell(fragments, items)
    ensures Spells(GradeSet(backend, fragments, name), GradeSetExpr(backend, items, name))
  {
    if items != [] {
      ChainSpells(name, fragments, items);
      InvocationSpells(name, fragments, items);
    }
  }

  // ----- each lowering spells its expression -----

  lemma {:induction false} ConditionSpells<O>(lowerer: Lowerer<O>, condition: Condition)
    requires OpaquePredicates(lowerer)
    ensures var r := LowerCondition(lowerer, condition);
      r.Ok? ==> Spells(r.value, ConditionExpr(lowerer, condition))
    decreases condition, 1
  {
    match condition
    case Has(fact) =>
      if lowerer.predicates(fact).Some? {
        assert OpaqueFor(lowerer.predicates(fact).value, fact);
        TestSpells(lowerer.predicates(fact).value);
      }
    case Not(inner) => ConditionSpells(lowerer, inner);
    case AllOf(cs) => ConditionSetSpells(lowerer, cs, AndWord);
    case AnyOf(cs) => ConditionSetSpells(lowerer, cs, OrWord);
    case _ =>
  }

  lemma TestSpells(parts: Fragment)
    requires OpaqueRun(parts)
    ensures Spells(IsTrueTest(parts), IsTrue(Paren(Predicate(parts))))
  {
    assert Guarded(Predicate(parts)) && Guarded(Paren(Predicate(parts)));
    assert Print(Paren(Predicate(parts))) == T(LParen) + Print(Predicate(parts)) + T(RParen);
  }

  lemma {:induction false} ConditionSetSpells<O>(lowerer: Lowerer<O>, cs: seq<Condition>, separator: Token)
    requires OpaquePredicates(lowerer) && (separator == AndWord || separator == OrWord)
    ensures var r := LowerSet(LowerConditions(lowerer, cs), separator);
      r.Ok? ==> Spells(r.value, SetExpr(separator, ConditionExprs(lowerer, cs)))
    decreases cs, 1
  {
    ConditionsSpell(lowerer, cs);
    var fragments := LowerConditions(lowerer, cs);
    if fragments.Ok? {
      BinarySpells(separator, fragments.value, ConditionExprs(lowerer, cs));
    }
  }

  lemma {:induction false} ConditionsSpell<O>(lowerer: Lowerer<O>, cs: seq<Condition>)
    requires OpaquePredicates(lowerer)
    ensures var r := LowerConditions(lowerer, cs);
      r.Ok? ==> AllSpell(r.value, ConditionExprs(lowerer, cs))
    decreases cs, 0
  {
    if cs != [] {
      ConditionSpells(lowerer, cs[0]);
      ConditionsSpell(lowerer, cs[1..]);
    }
  }

  lemma {:induction false} FilterSpells<O>(lowerer: Lowerer<O>, policy: ResidualPolicy<O>)
    requires OpaquePredicates(lowerer)
    ensures var r := LowerFilterNode(lowerer, policy);
      r.Ok? ==> Spells(r.value, FilterExpr(lowerer, policy))
    decreases policy, 1
  {
    match policy
    case Grant(clause) => ConditionSpells(lowerer, clause.condition);
    case All(arms) => FilterSetSpells(lowerer, arms, AndWord);
    case Any(arms) => FilterSetSpells(lowerer, arms, OrWord);
    case OrElse(primary, fallback) =>
      FilterSpells(lowerer, primary);
      FilterSpells(lowerer, fallback);
      var first, second := LowerFilterNode(lowerer, primary), LowerFilterNode(lowerer, fallback);
      if first.Ok? && second.Ok? {
        BinarySpells(
          OrWord, [first.value, second.value], [FilterExpr(lowerer, primary), FilterExpr(lowerer, fallback)]);
      }
    case _ =>
  }

  lemma {:induction false} FilterSetSpells<O>(lowerer: Lowerer<O>, arms: seq<ResidualPolicy<O>>, separator: Token)
    requires OpaquePredicates(lowerer) && (separator == AndWord || separator == OrWord)
    ensures var r := LowerSet(LowerFilterArms(lowerer, arms), separator);
      r.Ok? ==> Spells(r.value, SetExpr(separator, FilterExprs(lowerer, arms)))
    decreases arms, 1
  {
    FilterArmsSpell(lowerer, arms);
    var fragments := LowerFilterArms(lowerer, arms);
    if fragments.Ok? {
      BinarySpells(separator, fragments.value, FilterExprs(lowerer, arms));
    }
  }

  lemma {:induction false} FilterArmsSpell<O>(lowerer: Lowerer<O>, arms: seq<ResidualPolicy<O>>)
    requires OpaquePredicates(lowerer)
    ensures var r := LowerFilterArms(lowerer, arms);
      r.Ok? ==> AllSpell(r.value, FilterExprs(lowerer, arms))
    decreases arms, 0
  {
    if arms != [] {
      FilterSpells(lowerer, arms[0]);
      FilterArmsSpell(lowerer, arms[1..]);
    }
  }

  ghost predicate SpellsBoth<O>(lowerer: Lowerer<O>, lowered: Lowered, policy: ResidualPolicy<O>) {
    Spells(lowered.filter, FilterExpr(lowerer, policy)) && Spells(lowered.grade, GradeExpr(lowerer, policy))
  }

  lemma {:induction false} NodeSpells<O>(lowerer: Lowerer<O>, policy: ResidualPolicy<O>)
    requires OpaquePredicates(lowerer)
    ensures var r := LowerNode(lowerer, policy);
      r.Ok? ==> SpellsBoth(lowerer, r.value, policy)
    decreases policy, 1
  {
    match policy
    case Grant(clause) => GrantSpells(lowerer, clause);
    case All(arms) => ArmSetSpells(lowerer, policy, arms);
    case Any(arms) => ArmSetSpells(lowerer, policy, arms);
    case OrElse(primary, fallback) =>
      NodeSpells(lowerer, primary);
      NodeSpells(lowerer, fallback);
      var first, second := LowerNode(lowerer, primary), LowerNode(lowerer, fallback);
      if first.Ok? && second.Ok? {
        OrElseSpells(lowerer, primary, fallback, first.value, second.value);
      }
    case _ =>
  }

  lemma GrantSpells<O>(lowerer: Lowerer<O>, clause: Clause<O>)
    requires OpaquePredicates(lowerer)
    ensures var r := LowerNode(lowerer, ResidualPolicy.Grant(clause));
      r.Ok? ==> SpellsBoth(lowerer, r.value, ResidualPolicy.Grant(clause))
  {
    ConditionSpells(lowerer, clause.condition);
    var filter, outcome := LowerCondition(lowerer, clause.condition), Constant(lowerer, clause.outcome);
    if filter.Ok? && outcome.Ok? {
      CaseWhenSpells(
        filter.value, outcome.value, T(NullWord),
        ConditionExpr(lowerer, clause.condition), ConstantExpr(lowerer, clause.outcome), NullLit);
    }
  }

  lemma {:induction false} OrElseSpells<O>(
      lowerer: Lowerer<O>, primary: ResidualPolicy<O>, fallback: ResidualPolicy<O>, first: Lowered, second: Lowered)
    requires LowerNode(lowerer, primary) == Ok(first) && LowerNode(lowerer, fallback) == Ok(second)
    requires SpellsBoth(lowerer, first, primary) && SpellsBoth(lowerer, second, fallback)
    ensures var policy := ResidualPolicy.OrElse(primary, fallback);
      LowerNode(lowerer, policy).Ok? && SpellsBoth(lowerer, LowerNode(lowerer, policy).value, policy)
  {
    if !CarriesObligation(fallback) {
      BinarySpells(
        OrWord, [first.filter, second.filter], [FilterExpr(lowerer, primary), FilterExpr(lowerer, fallback)]);
      CaseWhenSpells(
        first.filter, first.grade, second.grade,
        FilterExpr(lowerer, primary), GradeExpr(lowerer, primary), GradeExpr(lowerer, fallback));
    }
  }

  lemma {:induction false} ArmSetSpells<O>(
      lowerer: Lowerer<O>, policy: ResidualPolicy<O>, arms: seq<ResidualPolicy<O>>)
    requires OpaquePredicates(lowerer)
    requires policy == ResidualPolicy.All(arms) || policy == ResidualPolicy.Any(arms)
    ensures var r := LowerNode(lowerer, policy);
      r.Ok? ==> SpellsBoth(lowerer, r.value, policy)
    decreases arms, 1
  {
    ArmsSpell(lowerer, arms);
    var lowered := LowerArms(lowerer, arms);
    if lowered.Ok? {
      var separator := if policy.All? then AndWord else OrWord;
      var name := if policy.All? then MinName(lowerer.backend) else MaxName(lowerer.backend);
      BinarySpells(separator, Filters(lowered.value), FilterExprs(lowerer, arms));
      GradeSetSpells(lowerer.backend, Grades(lowered.value), GradeExprs(lowerer, arms), name);
    }
  }

  lemma {:induction false} ArmsSpell<O>(lowerer: Lowerer<O>, arms: seq<ResidualPolicy<O>>)
    requires OpaquePredicates(lowerer)
    ensures var r := LowerArms(lowerer, arms);
      r.Ok? ==>
        && AllSpell(Filters(r.value), FilterExprs(lowerer, arms))
        && AllSpell(Grades(r.value), GradeExprs(lowerer, arms))
    decreases arms, 0
  {
    if arms != [] {
      NodeSpells(lowerer, arms[0]);
      ArmsSpell(lowerer, arms[1..]);
    }
  }

  lemma GuardSpells<O>(
      lowerer: Lowerer<O>, lowered: Lowered, filter: SqlExpr, grade: SqlExpr, tenant: string)
    requires Spells(lowered.filter, filter) && Spells(lowered.grade, grade)
    ensures Spells(Guard(lowerer, lowered, tenant).filter, TenantFilterExpr(lowerer, filter, tenant))
    ensures Spells(Guard(lowerer, lowered, tenant).grade, TenantGradeExpr(lowerer, grade, tenant))
  {
    var test := Equal(Column(lowerer.tenantColumn), BindRef(SqlValue.Text(tenant)));
    assert Spells(TenantTest(lowerer, tenant), test);
    BinarySpells(AndWord, [TenantTest(lowerer, tenant), lowered.filter], [test, filter]);
    BinarySpells(AndWord, [TenantTest(lowerer, tenant), T(TrueWord)], [test, TrueLit]);
    CaseWhenSpells(
      EnforceTenantFilter(lowerer, T(TrueWord), tenant), lowered.grade, T(NullWord),
      TenantFilterExpr(lowerer, TrueLit, tenant), grade, NullLit);
  }
}
