/** What lowered filters mean on a row, and when lowering succeeds. */
module LoweringMeaning {
  import opened Wrappers
  import opened Facts
  import opened Policies
  import opened Semantics
  import opened PartialEvaluation
  import opened SqlSyntax
  import opened SqlMeaning
  import opened Lowering
  import opened LoweringSyntax

  // ----- when lowering succeeds -----

  ghost predicate Mapped<O>(lowerer: Lowerer<O>, facts: set<FactId>) {
    forall f | f in facts :: lowerer.predicates(f).Some?
  }

  ghost predicate NamesUnmapped<O>(lowerer: Lowerer<O>, error: LowerError, facts: set<FactId>) {
    error.Unlowerable? && error.fact in facts && lowerer.predicates(error.fact).None?
  }

  // Success exactly when every fact is mapped; otherwise the error names a required unmapped fact.
  lemma {:induction false} ConditionLowersIffMapped<O>(lowerer: Lowerer<O>, condition: Condition)
    ensures var r, facts := LowerCondition(lowerer, condition), ConditionFacts(condition);
      (r.Ok? <==> Mapped(lowerer, facts)) && (r.Err? ==> NamesUnmapped(lowerer, r.error, facts))
    decreases condition, 1
  {
    match condition
    case Not(inner) => ConditionLowersIffMapped(lowerer, inner);
    case AllOf(cs) =>
      ConditionsLowerIffMapped(lowerer, cs);
      ListFactsAre(condition, cs);
    case AnyOf(cs) =>
      ConditionsLowerIffMapped(lowerer, cs);
      ListFactsAre(condition, cs);
    case _ =>
  }

  ghost function ListFacts(cs: seq<Condition>): set<FactId> {
    if cs == [] then {} else ConditionFacts(cs[0]) + ListFacts(cs[1..])
  }

  lemma {:induction false} ListFactsMember(cs: seq<Condition>, fact: FactId)
    ensures fact in ListFacts(cs) <==> exists i | 0 <= i < |cs| :: fact in ConditionFacts(cs[i])
  {
    if cs != [] {
      ListFactsMember(cs[1..], fact);
      if i :| 0 <= i < |cs[1..]| && fact in ConditionFacts(cs[1..][i]) {
        assert fact in ConditionFacts(cs[i + 1]);
      }
      if i :| 0 <= i < |cs| && fact in ConditionFacts(cs[i]) {
        assert i == 0 || fact in ConditionFacts(cs[1..][i - 1]);
      }
    }
  }

  lemma ListFactsAre(parent: Condition, cs: seq<Condition>)
    requires parent == AllOf(cs) || parent == AnyOf(cs)
    ensures ConditionFacts(parent) == ListFacts(cs)
  {
    forall f ensures f in ConditionFacts(parent) <==> f in ListFacts(cs) {
      ListFactsMember(cs, f);
    }
  }

  lemma {:induction false} ConditionsLowerIffMapped<O>(lowerer: Lowerer<O>, cs: seq<Condition>)
    ensures var r, facts := LowerConditions(lowerer, cs), ListFacts(cs);
      (r.Ok? <==> Mapped(lowerer, facts)) && (r.Err? ==> NamesUnmapped(lowerer, r.error, facts))
    decreases cs, 0
  {
    if cs != [] {
      ConditionLowersIffMapped(lowerer, cs[0]);
      ConditionsLowerIffMapped(lowerer, cs[1..]);
    }
  }

  lemma {:induction false} FilterLowersIffMapped<O>(lowerer: Lowerer<O>, policy: ResidualPolicy<O>)
    ensures var r, facts := LowerFilterNode(lowerer, policy), ResidualFacts(Prune(policy));
      (r.Ok? <==> Mapped(lowerer, facts)) && (r.Err? ==> NamesUnmapped(lowerer, r.error, facts))
    decreases policy, 1
  {
    match policy
    case Grant(clause) => ConditionLowersIffMapped(lowerer, clause.condition);
    case All(arms) =>
      FilterArmsLowerIffMapped(lowerer, arms);
      PrunedSetFacts(policy, arms);
    case Any(arms) =>
      FilterArmsLowerIffMapped(lowerer, arms);
      PrunedSetFacts(policy, arms);
    case OrElse(primary, fallback) =>
      FilterLowersIffMapped(lowerer, primary);
      FilterLowersIffMapped(lowerer, fallback);
    case _ =>
  }

  ghost function ArmFacts<O>(arms: seq<ResidualPolicy<O>>): set<FactId> {
    if arms == [] then {} else ResidualFacts(Prune(arms[0])) + ArmFacts(arms[1..])
  }

  lemma {:induction false} ArmFactsMember<O>(arms: seq<ResidualPolicy<O>>, fact: FactId)
    ensures fact in ArmFacts(arms) <==> exists i | 0 <= i < |arms| :: fact in ResidualFacts(Prune(arms[i]))
  {
    if arms != [] {
      ArmFactsMember(arms[1..], fact);
      if i :| 0 <= i < |arms[1..]| && fact in ResidualFacts(Prune(arms[1..][i])) {
        assert fact in ResidualFacts(Prune(arms[i + 1]));
      }
      if i :| 0 <= i < |arms| && fact in ResidualFacts(Prune(arms[i])) {
        assert i == 0 || fact in ResidualFacts(Prune(arms[1..][i - 1]));
      }
    }
  }

  lemma PrunedSetFacts<O>(policy: ResidualPolicy<O>, arms: seq<ResidualPolicy<O>>)
    requires policy == ResidualPolicy.All(arms) || policy == ResidualPolicy.Any(arms)
    ensures ResidualFacts(Prune(policy)) == ArmFacts(arms)
  {
    var pruned := PruneArms(arms);
    forall f ensures f in ResidualFacts(Prune(policy)) <==> f in ArmFacts(arms) {
      ArmFactsMember(arms, f);
      if f in ResidualFacts(Prune(policy)) {
        var i :| 0 <= i < |pruned| && f in ResidualFacts(pruned[i]);
        assert f in ResidualFacts(Prune(arms[i]));
      }
      if i :| 0 <= i < |arms| && f in ResidualFacts(Prune(arms[i])) {
        assert f in ResidualFacts(pruned[i]);
      }
    }
  }

  lemma {:induction false} FilterArmsLowerIffMapped<O>(lowerer: Lowerer<O>, arms: seq<ResidualPolicy<O>>)
    ensures var r, facts := LowerFilterArms(lowerer, arms), ArmFacts(arms);
      (r.Ok? <==> Mapped(lowerer, facts)) && (r.Err? ==> NamesUnmapped(lowerer, r.error, facts))
    decreases arms, 0
  {
    if arms != [] {
      FilterLowersIffMapped(lowerer, arms[0]);
      FilterArmsLowerIffMapped(lowerer, arms[1..]);
    }
  }

  // With ordinals, lowering the grade too fails exactly when lowering the filter fails, with the
  // same error; whenever both succeed they produce the same filter.
  lemma {:induction false} SameFilterOnBothPaths<O>(lowerer: Lowerer<O>, policy: ResidualPolicy<O>)
    requires lowerer.projection.Ordinals?
    ensures SameOutcome(LowerNode(lowerer, policy), LowerFilterNode(lowerer, policy))
    decreases policy, 1
  {
    match policy
    case All(arms) => SameFiltersOnBothPaths(lowerer, arms);
    case Any(arms) => SameFiltersOnBothPaths(lowerer, arms);
    case OrElse(primary, fallback) =>
      SameFilterOnBothPaths(lowerer, primary);
      SameFilterOnBothPaths(lowerer, fallback);
    case _ =>
  }

  predicate SameOutcome(lowered: Result<Lowered, LowerError>, filter: Result<Fragment, LowerError>) {
    match lowered
    case Ok(both) => filter == Ok(both.filter)
    case Err(error) => filter == Err(error)
  }

  lemma {:induction false} SameFiltersOnBothPaths<O>(lowerer: Lowerer<O>, arms: seq<ResidualPolicy<O>>)
    requires lowerer.projection.Ordinals?
    ensures var both, filters := LowerArms(lowerer, arms), LowerFilterArms(lowerer, arms);
      match both
      case Ok(list) => filters == Ok(Filters(list))
      case Err(error) => filters == Err(error)
    decreases arms, 0
  {
    if arms != [] {
      SameFilterOnBothPaths(lowerer, arms[0]);
      SameFiltersOnBothPaths(lowerer, arms[1..]);
      var rest := LowerArms(lowerer, arms[1..]);
      if LowerNode(lowerer, arms[0]).Ok? && rest.Ok? {
        var first := LowerNode(lowerer, arms[0]).value;
        assert Filters([first] + rest.value) == [first.filter] + Filters(rest.value);
      }
    }
  }

  // Without ordinals a grade can be given to nothing but denials.
  predicate GrantsNothing<O>(policy: ResidualPolicy<O>) {
    match policy
    case Deny => true
    case DenyWithTrace(_, _, _, _, _) => true
    case All(arms) => forall i | 0 <= i < |arms| :: GrantsNothing(arms[i])
    case Any(arms) => forall i | 0 <= i < |arms| :: GrantsNothing(arms[i])
    case OrElse(primary, fallback) => GrantsNothing(primary) && (CarriesObligation(fallback) || GrantsNothing(fallback))
    case _ => false
  }

  lemma {:induction false} UngradedLowersIff<O>(lowerer: Lowerer<O>, policy: ResidualPolicy<O>)
    requires lowerer.projection.NoGrades?
    ensures LowerNode(lowerer, policy).Ok? <==> GrantsNothing(policy)
    decreases policy, 1
  {
    match policy
    case All(arms) => UngradedArmsLowerIff(lowerer, arms);
    case Any(arms) => UngradedArmsLowerIff(lowerer, arms);
    case OrElse(primary, fallback) =>
      UngradedLowersIff(lowerer, primary);
      UngradedLowersIff(lowerer, fallback);
    case _ =>
  }

  lemma {:induction false} UngradedArmsLowerIff<O>(lowerer: Lowerer<O>, arms: seq<ResidualPolicy<O>>)
    requires lowerer.projection.NoGrades?
    ensures LowerArms(lowerer, arms).Ok? <==> forall i | 0 <= i < |arms| :: GrantsNothing(arms[i])
    decreases arms, 0
  {
    if arms != [] {
      UngradedLowersIff(lowerer, arms[0]);
      UngradedArmsLowerIff(lowerer, arms[1..]);
      assert forall i | 0 < i < |arms| :: arms[i] == arms[1..][i - 1];
    }
  }

  // A resolved permit cannot be graded without ordinals either; a resolved denial can.
  lemma UngradedResultLowersIff<O>(lowerer: Lowerer<O>, result: Residual<O>, tenant: string)
    requires lowerer.projection.NoGrades?
    ensures LowerResult(lowerer, result, tenant).Ok? <==>
      if result.Resolved? then result.decision.effect.Deny? else GrantsNothing(result.residual)
  {
    if result.Pending? {
      UngradedLowersIff(lowerer, result.residual);
    }
  }

  // ----- what a filter selects -----

  // The known facts say "present" exactly where the predicate IS TRUE on the row.
  ghost predicate RowDecides(known: KnownFacts, row: Row, facts: set<FactId>) {
    forall f | f in facts :: IsPresent(known, f) <==> row.truth(f) == Some(true)
  }

  predicate AllBools(data: seq<Datum>) {
    forall d | d in data :: d.Bool?
  }

  lemma ConnectiveMeaning(data: seq<Datum>, absorbing: bool)
    requires AllBools(data)
    ensures Connective(data, absorbing) == Bool(if Bool(absorbing) in data then absorbing else !absorbing)
  {
  }

  lemma WrappedValues(backend: Backend, items: seq<SqlExpr>, row: Row)
    ensures EvalItems(backend, Parens(items), row) == EvalItems(backend, items, row)
  {
    var wrapped := Parens(items);
    forall i | 0 <= i < |items| ensures Eval(backend, wrapped[i], row) == Eval(backend, items[i], row) {
      assert wrapped[i] == Paren(items[i]);
    }
  }

  lemma SetValue(backend: Backend, separator: Token, items: seq<SqlExpr>, row: Row)
    requires separator == AndWord || separator == OrWord
    requires |items| >= 2
    ensures Eval(backend, SetExpr(separator, items), row) ==
      Connective(EvalItems(backend, Parens(items), row), separator == OrWord)
  {
    var wrapped := Parens(items);
    if separator == AndWord {
      assert SetExpr(separator, items) == And(wrapped);
      assert Eval(backend, And(wrapped), row) == Connective(EvalItems(backend, wrapped, row), false);
    } else {
      assert SetExpr(separator, items) == Or(wrapped);
      assert Eval(backend, Or(wrapped), row) == Connective(EvalItems(backend, wrapped, row), true);
    }
  }

  lemma {:induction false} SetMeaning(backend: Backend, separator: Token, items: seq<SqlExpr>, row: Row)
    requires separator == AndWord || separator == OrWord
    requires forall i | 0 <= i < |items| :: Eval(backend, items[i], row).Bool?
    ensures Eval(backend, SetExpr(separator, items), row) ==
      if separator == AndWord then
        Bool(items != [] && forall i | 0 <= i < |items| :: Eval(backend, items[i], row) == Bool(true))
      else
        Bool(exists i | 0 <= i < |items| :: Eval(backend, items[i], row) == Bool(true))
  {
    if |items| == 1 {
      assert Eval(backend, Paren(items[0]), row) == Eval(backend, items[0], row);
    } else if items != [] {
      SetValue(backend, separator, items, row);
      WrappedValues(backend, items, row);
      ConnectiveOfBools(EvalItems(backend, items, row), separator == OrWord);
    }
  }

  lemma {:induction false} ConnectiveOfBools(data: seq<Datum>, absorbing: bool)
    requires data != [] && AllBools(data)
    ensures Connective(data, absorbing) ==
      if absorbing then Bool(exists i | 0 <= i < |data| :: data[i] == Bool(true))
      else Bool(forall i | 0 <= i < |data| :: data[i] == Bool(true))
  {
    ConnectiveMeaning(data, absorbing);
    if Bool(absorbing) in data {
      var i :| 0 <= i < |data| && data[i] == Bool(absorbing);
    } else {
      forall i | 0 <= i < |data| ensures data[i] == Bool(!absorbing) {
        assert data[i] in data;
      }
    }
  }

  // A lowered condition is never NULL: it is the condition's truth on the row.
  lemma {:induction false} ConditionMeaning<O>(
      lowerer: Lowerer<O>, condition: Condition, known: KnownFacts, row: Row)
    requires OpaquePredicates(lowerer) && Mapped(lowerer, ConditionFacts(condition))
    requires RowDecides(known, row, ConditionFacts(condition))
    ensures Eval(lowerer.backend, ConditionExpr(lowerer, condition), row) == Bool(Holds(condition, known))
    decreases condition, 1
  {
    match condition
    case Has(fact) => TestMeaning(lowerer, fact, row);
    case Not(inner) =>
      ConditionMeaning(lowerer, inner, known, row);
      NotMeaning(lowerer.backend, ConditionExpr(lowerer, inner), row);
    case AllOf(cs) =>
      ConditionsMean(lowerer, condition, cs, known, row);
      SetMeaning(lowerer.backend, AndWord, ConditionExprs(lowerer, cs), row);
    case AnyOf(cs) =>
      ConditionsMean(lowerer, condition, cs, known, row);
      SetMeaning(lowerer.backend, OrWord, ConditionExprs(lowerer, cs), row);
    case _ =>
  }

  lemma TestMeaning<O>(lowerer: Lowerer<O>, fact: FactId, row: Row)
    requires OpaquePredicates(lowerer) && lowerer.predicates(fact).Some?
    ensures Eval(lowerer.backend, ConditionExpr(lowerer, Has(fact)), row) == Bool(row.truth(fact) == Some(true))
  {
    var parts := lowerer.predicates(fact).value;
    assert OpaqueFor(parts, fact);
    var test := Paren(Predicate(parts));
    assert Eval(lowerer.backend, Predicate(parts), row) == Ternary(row.truth(fact));
    assert Eval(lowerer.backend, test, row) == Ternary(row.truth(fact));
  }

  lemma NotMeaning(backend: Backend, inner: SqlExpr, row: Row)
    requires Eval(backend, inner, row).Bool?
    ensures Eval(backend, SqlExpr.Not(Paren(inner)), row) == Bool(!Eval(backend, inner, row).truth)
  {
    assert Eval(backend, Paren(inner), row) == Eval(backend, inner, row);
  }

  lemma {:induction false} ConditionsMean<O>(
      lowerer: Lowerer<O>, parent: Condition, cs: seq<Condition>, known: KnownFacts, row: Row)
    requires OpaquePredicates(lowerer) && Mapped(lowerer, ConditionFacts(parent))
    requires parent == AllOf(cs) || parent == AnyOf(cs)
    requires RowDecides(known, row, ConditionFacts(parent))
    ensures forall i | 0 <= i < |cs| ::
      Eval(lowerer.backend, ConditionExprs(lowerer, cs)[i], row) == Bool(Holds(cs[i], known))
    decreases cs, 0
  {
    forall i | 0 <= i < |cs|
      ensures Eval(lowerer.backend, ConditionExprs(lowerer, cs)[i], row) == Bool(Holds(cs[i], known))
    {
      assert ConditionFacts(cs[i]) <= ConditionFacts(parent);
      ConditionMeaning(lowerer, cs[i], known, row);
    }
  }

  // A lowered filter is never NULL: it selects exactly the rows the pruned residual permits.
  lemma {:induction false} FilterMeaning<O>(
      lowerer: Lowerer<O>, policy: ResidualPolicy<O>, known: KnownFacts, row: Row)
    requires OpaquePredicates(lowerer) && Mapped(lowerer, ResidualFacts(Prune(policy)))
    requires RowDecides(known, row, ResidualFacts(Prune(policy)))
    ensures Eval(lowerer.backend, FilterExpr(lowerer, policy), row) == Bool(ResidualPermits(Prune(policy), known))
    decreases policy, 1
  {
    match policy
    case Grant(clause) => ConditionMeaning(lowerer, clause.condition, known, row);
    case All(arms) =>
      FiltersMean(lowerer, policy, arms, known, row);
      FilterSetMeaning(lowerer, AndWord, policy, arms, known, row);
    case Any(arms) =>
      FiltersMean(lowerer, policy, arms, known, row);
      FilterSetMeaning(lowerer, OrWord, policy, arms, known, row);
    case OrElse(primary, fallback) =>
      FilterMeaning(lowerer, primary, known, row);
      if !CarriesObligation(fallback) {
        FilterMeaning(lowerer, fallback, known, row);
        EitherMeaning(lowerer.backend, FilterExpr(lowerer, primary), FilterExpr(lowerer, fallback), row);
      }
    case _ =>
  }

  lemma {:induction false} EitherMeaning(backend: Backend, first: SqlExpr, second: SqlExpr, row: Row)
    requires Eval(backend, first, row).Bool? && Eval(backend, second, row).Bool?
    ensures Eval(backend, SetExpr(OrWord, [first, second]), row) ==
      Bool(Eval(backend, first, row).truth || Eval(backend, second, row).truth)
  {
    var items := [first, second];
    SetMeaning(backend, OrWord, items, row);
    assert items[0] == first && items[1] == second;
  }

  lemma {:induction false} FilterSetMeaning<O>(
      lowerer: Lowerer<O>, separator: Token, policy: ResidualPolicy<O>, arms: seq<ResidualPolicy<O>>,
      known: KnownFacts, row: Row)
    requires separator == AndWord || separator == OrWord
    requires policy == if separator == AndWord then ResidualPolicy.All(arms) else ResidualPolicy.Any(arms)
    requires forall i | 0 <= i < |arms| ::
      Eval(lowerer.backend, FilterExprs(lowerer, arms)[i], row) == Bool(ResidualPermits(PruneArms(arms)[i], known))
    ensures Eval(lowerer.backend, FilterExpr(lowerer, policy), row) == Bool(ResidualPermits(Prune(policy), known))
  {
    var items, pruned := FilterExprs(lowerer, arms), PruneArms(arms);
    assert FilterExpr(lowerer, policy) == SetExpr(separator, items);
    SetMeaning(lowerer.backend, separator, items, row);
    if separator == AndWord {
      assert Prune(policy) == ResidualPolicy.All(pruned);
    } else {
      assert Prune(policy) == ResidualPolicy.Any(pruned);
    }
  }

  lemma {:induction false} FiltersMean<O>(
      lowerer: Lowerer<O>, parent: ResidualPolicy<O>, arms: seq<ResidualPolicy<O>>, known: KnownFacts, row: Row)
    requires OpaquePredicates(lowerer) && Mapped(lowerer, ResidualFacts(Prune(parent)))
    requires parent == ResidualPolicy.All(arms) || parent == ResidualPolicy.Any(arms)
    requires RowDecides(known, row, ResidualFacts(Prune(parent)))
    ensures forall i | 0 <= i < |arms| ::
      Eval(lowerer.backend, FilterExprs(lowerer, arms)[i], row) == Bool(ResidualPermits(PruneArms(arms)[i], known))
    decreases arms, 0
  {
    forall i | 0 <= i < |arms| ensures
      Eval(lowerer.backend, FilterExprs(lowerer, arms)[i], row) == Bool(ResidualPermits(PruneArms(arms)[i], known))
    {
      PrunedArmFacts(parent, arms, i);
      FilterMeaning(lowerer, arms[i], known, row);
    }
  }

  lemma PrunedArmFacts<O>(parent: ResidualPolicy<O>, arms: seq<ResidualPolicy<O>>, i: nat)
    requires i < |arms|
    requires parent == ResidualPolicy.All(arms) || parent == ResidualPolicy.Any(arms)
    ensures ResidualFacts(Prune(arms[i])) <= ResidualFacts(Prune(parent))
  {
    var pruned := PruneArms(arms);
    forall f | f in ResidualFacts(Prune(arms[i])) ensures f in ResidualFacts(Prune(parent)) {
      assert f in ResidualFacts(pruned[i]);
    }
  }

  // ----- pruning only restricts -----

  lemma {:induction false} PruningRestricts<O>(policy: ResidualPolicy<O>, known: KnownFacts)
    requires ResidualPermits(Prune(policy), known)
    ensures ResidualPermits(policy, known)
    decreases policy
  {
    match policy
    case All(arms) =>
      var pruned := PruneArms(arms);
      forall i | 0 <= i < |arms| ensures ResidualPermits(arms[i], known) {
        assert ResidualPermits(pruned[i], known);
        PruningRestricts(arms[i], known);
      }
    case Any(arms) =>
      var pruned := PruneArms(arms);
      var i :| 0 <= i < |pruned| && ResidualPermits(pruned[i], known);
      PruningRestricts(arms[i], known);
    case OrElse(primary, fallback) =>
      if ResidualPermits(Prune(primary), known) {
        PruningRestricts(primary, known);
      } else {
        PruningRestricts(fallback, known);
      }
    case _ =>
  }

  predicate NoObligatedFallback<O>(policy: ResidualPolicy<O>) {
    match policy
    case All(arms) => forall i | 0 <= i < |arms| :: NoObligatedFallback(arms[i])
    case Any(arms) => forall i | 0 <= i < |arms| :: NoObligatedFallback(arms[i])
    case OrElse(primary, fallback) =>
      !CarriesObligation(fallback) && NoObligatedFallback(primary) && NoObligatedFallback(fallback)
    case _ => true
  }

  // Pruning changes a residual exactly when some fallback carries an obligation.
  lemma {:induction false} PruningIsIdentityIff<O>(policy: ResidualPolicy<O>)
    ensures Prune(policy) == policy <==> NoObligatedFallback(policy)
    decreases policy
  {
    match policy
    case All(arms) => forall i | 0 <= i < |arms| { PruningIsIdentityIff(arms[i]); }
      assert (forall i | 0 <= i < |arms| :: PruneArms(arms)[i] == arms[i]) <==> PruneArms(arms) == arms;
    case Any(arms) => forall i | 0 <= i < |arms| { PruningIsIdentityIff(arms[i]); }
      assert (forall i | 0 <= i < |arms| :: PruneArms(arms)[i] == arms[i]) <==> PruneArms(arms) == arms;
    case OrElse(primary, fallback) =>
      PruningIsIdentityIff(primary);
      PruningIsIdentityIff(fallback);
      if CarriesObligation(fallback) {
        PruningShrinks(primary);
        SizeOfPrimary(primary, fallback);
      }
    case _ =>
  }

  ghost function Size<O>(policy: ResidualPolicy<O>): nat
    decreases policy, 1
  {
    match policy
    case All(arms) => 1 + SizeOfArms(arms)
    case Any(arms) => 1 + SizeOfArms(arms)
    case OrElse(primary, fallback) => 1 + Size(primary) + Size(fallback)
    case _ => 1
  }

  ghost function SizeOfArms<O>(arms: seq<ResidualPolicy<O>>): nat
    decreases arms, 0
  {
    if arms == [] then 0 else Size(arms[0]) + SizeOfArms(arms[1..])
  }

  lemma {:induction false} PruningShrinks<O>(policy: ResidualPolicy<O>)
    ensures Size(Prune(policy)) <= Size(policy)
    decreases policy, 1
  {
    match policy
    case All(arms) => PruningArmsShrinks(arms);
    case Any(arms) => PruningArmsShrinks(arms);
    case OrElse(primary, fallback) =>
      PruningShrinks(primary);
      PruningShrinks(fallback);
    case _ =>
  }

  lemma {:induction false} PruningArmsShrinks<O>(arms: seq<ResidualPolicy<O>>)
    ensures SizeOfArms(PruneArms(arms)) <= SizeOfArms(arms)
    decreases arms, 0
  {
    if arms != [] {
      PruningShrinks(arms[0]);
      PruningArmsShrinks(arms[1..]);
      assert PruneArms(arms)[1..] == PruneArms(arms[1..]);
    }
  }

  lemma SizeOfPrimary<O>(primary: ResidualPolicy<O>, fallback: ResidualPolicy<O>)
    ensures Size(primary) < Size(ResidualPolicy.OrElse(primary, fallback))
  {
  }

  // ----- the tenant guard -----

  // The guarded filter is TRUE exactly on the tenant's own rows that the policy filter selects, and
  // the guarded grade is NULL on every other row.
  lemma TenantGuardMeaning<O>(
      lowerer: Lowerer<O>, filter: SqlExpr, grade: SqlExpr, tenant: string, row: Row)
    requires Eval(lowerer.backend, filter, row).Bool?
    ensures Eval(lowerer.backend, TenantFilterExpr(lowerer, filter, tenant), row) == Bool(true) <==>
      row.tenant == Some(tenant) && Eval(lowerer.backend, filter, row) == Bool(true)
    ensures Eval(lowerer.backend, TenantGradeExpr(lowerer, grade, tenant), row) ==
      if row.tenant == Some(tenant) then Eval(lowerer.backend, grade, row) else Null
  {
    var backend := lowerer.backend;
    TenantConjunction(lowerer, filter, tenant, row);
    TenantConjunction(lowerer, TrueLit, tenant, row);
    WhenMeaning(backend, TenantFilterExpr(lowerer, TrueLit, tenant), grade, NullLit, row);
  }

  lemma TenantConjunction<O>(lowerer: Lowerer<O>, filter: SqlExpr, tenant: string, row: Row)
    ensures Eval(lowerer.backend, TenantFilterExpr(lowerer, filter, tenant), row) == Bool(true) <==>
      row.tenant == Some(tenant) && Eval(lowerer.backend, filter, row) == Bool(true)
  {
    var backend := lowerer.backend;
    var test := Equal(Column(lowerer.tenantColumn), BindRef(SqlValue.Text(tenant)));
    TenantTestMeaning(lowerer, tenant, row);
    var items := Parens([test, filter]);
    var data := EvalItems(backend, items, row);
    assert items[0] == Paren(test) && items[1] == Paren(filter);
    assert data == [Eval(backend, test, row), Eval(backend, filter, row)];
    assert data[0] in data && data[1] in data;
    assert Eval(backend, And(items), row) == Connective(data, false);
    assert TenantFilterExpr(lowerer, filter, tenant) == And(items);
  }

  lemma TenantTestMeaning<O>(lowerer: Lowerer<O>, tenant: string, row: Row)
    ensures Eval(lowerer.backend, Equal(Column(lowerer.tenantColumn), BindRef(SqlValue.Text(tenant))), row) ==
      if row.tenant.None? then Null else Bool(row.tenant.value == tenant)
  {
    assert Eval(lowerer.backend, BindRef(SqlValue.Text(tenant)), row) == Str(tenant);
  }

  lemma {:induction false} WhenMeaning(
      backend: Backend, condition: SqlExpr, value: SqlExpr, otherwise: SqlExpr, row: Row)
    ensures Eval(backend, WhenExpr(condition, value, otherwise), row) ==
      if Eval(backend, condition, row) == Bool(true) then Eval(backend, value, row)
      else Eval(backend, otherwise, row)
  {
    var branch, d := Branch(condition, value), Eval(backend, otherwise, row);
    OneBranch(backend, branch, d, row);
    assert WhenExpr(condition, value, otherwise) == Case([branch], otherwise);
    assert Eval(backend, Case([branch], otherwise), row) == EvalBranches(backend, [branch], d, row);
  }

  lemma {:induction false} OneBranch(backend: Backend, branch: Branch, otherwise: Datum, row: Row)
    ensures EvalBranches(backend, [branch], otherwise, row) ==
      if Eval(backend, branch.condition, row) == Bool(true) then Eval(backend, branch.value, row) else otherwise
  {
    assert [branch][1..] == [];
    assert EvalBranches(backend, [], otherwise, row) == otherwise;
    assert EvalBranch(backend, branch, row) ==
      (Eval(backend, branch.condition, row), Eval(backend, branch.value, row));
  }
}
