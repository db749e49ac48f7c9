/** What a lowered grade is worth on the rows its filter selects. */
module LoweringGrades {
  import opened Wrappers
  import opened Facts
  import opened Policies
  import opened Evaluation
  import opened Semantics
  import opened Outcomes
  import opened SqlSyntax
  import opened SqlMeaning
  import opened Lowering
  import opened LoweringSyntax
  import opened LoweringMeaning

  // ----- the null-safe chain -----

  predicate IsGrade(d: Datum) {
    d.Int? || d.Null?
  }

  predicate AllGrades(data: seq<Datum>) {
    forall i | 0 <= i < |data| :: IsGrade(data[i])
  }

  function FunctionName(backend: Backend, low: bool): string {
    if low then MinName(backend) else MaxName(backend)
  }

  // Every database reads the emitted names as the functions meant.
  lemma NamesAreRead(backend: Backend)
    ensures Picks(backend, MinName(backend)) == Some(Lowest)
    ensures Picks(backend, MaxName(backend)) == Some(Highest)
  {
    assert "min"[1] != "max"[1];
    assert |"LEAST"| != |"GREATEST"|;
  }

  lemma CallMeaning(backend: Backend, low: bool, args: seq<SqlExpr>, row: Row)
    ensures Eval(backend, Call(FunctionName(backend, low), args), row) ==
      GradeFunction(backend, low, EvalItems(backend, args, row))
  {
    NamesAreRead(backend);
    NamedCall(backend, FunctionName(backend, low), args, row);
  }

  lemma NamedCall(backend: Backend, name: string, args: seq<SqlExpr>, row: Row)
    ensures Eval(backend, Call(name, args), row) ==
      match Picks(backend, name)
      case None => Null
      case Some(extreme) => GradeFunction(backend, extreme == Lowest, EvalItems(backend, args, row))
  {
  }

  // The pairwise form is chosen exactly on the databases where a NULL argument swallows the call.
  lemma PropagatesNullIff(backend: Backend, low: bool, row: Row)
    ensures PropagatesNull(backend) <==>
      Eval(backend, Call(FunctionName(backend, low), [NullLit, BindRef(I64(0))]), row) == Null
  {
    var args := [NullLit, BindRef(I64(0))];
    CallMeaning(backend, low, args, row);
    var data := EvalItems(backend, args, row);
    assert data == [Null, Int(0)] && data[0] in data;
    PairExtremum(low, Null, Int(0));
  }

  lemma {:induction false} ExtremumGrade(low: bool, data: seq<Datum>)
    requires AllGrades(data)
    ensures IsGrade(ExtremumOf(low, data))
  {
    if data != [] {
      ExtremumGrade(low, data[..|data| - 1]);
    }
  }

  lemma {:induction false} PairMeaning(backend: Backend, low: bool, left: SqlExpr, right: SqlExpr, row: Row)
    requires IsGrade(Eval(backend, left, row)) && IsGrade(Eval(backend, right, row))
    ensures Eval(backend, PairExpr(FunctionName(backend, low), left, right), row) ==
      Extremum(low, Eval(backend, left, row), Eval(backend, right, row))
  {
    var l, r := Eval(backend, left, row), Eval(backend, right, row);
    var call := Call(FunctionName(backend, low), [left, right]);
    var first, second := Branch(IsNull(Paren(left)), right), Branch(IsNull(Paren(right)), left);
    CallMeaning(backend, low, [left, right], row);
    assert EvalItems(backend, [left, right], row) == [l, r];
    PairExtremum(low, l, r);
    NullTest(backend, left, right, row);
    NullTest(backend, right, left, row);
    TwoBranches(backend, first, second, Eval(backend, call, row), row);
    assert PairExpr(FunctionName(backend, low), left, right) == Case([first, second], call);
    assert Eval(backend, Case([first, second], call), row) ==
      EvalBranches(backend, [first, second], Eval(backend, call, row), row);
  }

  lemma {:induction false} NullTest(backend: Backend, tested: SqlExpr, value: SqlExpr, row: Row)
    ensures EvalBranch(backend, Branch(IsNull(Paren(tested)), value), row) ==
      (Bool(Eval(backend, tested, row) == Null), Eval(backend, value, row))
  {
    assert Eval(backend, Paren(tested), row) == Eval(backend, tested, row);
  }

  lemma {:induction false} PairExtremum(low: bool, l: Datum, r: Datum)
    ensures ExtremumOf(low, [l, r]) == Extremum(low, Extremum(low, Null, l), r)
  {
    assert [l, r][..1] == [l] && [l][..0] == [];
    assert ExtremumOf(low, [l]) == Extremum(low, Null, l);
  }

  lemma {:induction false} TwoBranches(backend: Backend, first: Branch, second: Branch, otherwise: Datum, row: Row)
    ensures EvalBranches(backend, [first, second], otherwise, row) ==
      var a, b := EvalBranch(backend, first, row), EvalBranch(backend, second, row);
      if a.0 == Bool(true) then a.1 else if b.0 == Bool(true) then b.1 else otherwise
  {
    assert [first, second][1..] == [second] && [second][1..] == [];
    assert EvalBranches(backend, [second], otherwise, row) ==
      var b := EvalBranch(backend, second, row);
      if b.0 == Bool(true) then b.1 else otherwise;
  }

  lemma ItemsBefore(backend: Backend, items: seq<SqlExpr>, n: nat, row: Row)
    requires n <= |items|
    ensures EvalItems(backend, items[..n], row) == EvalItems(backend, items, row)[..n]
  {
  }

  // On every backend the chain of CASE expressions is the NULL-ignoring extremum.
  lemma {:induction false} ChainIsNullIgnoring(backend: Backend, low: bool, items: seq<SqlExpr>, row: Row)
    requires items != [] && AllGrades(EvalItems(backend, items, row))
    ensures Eval(backend, ChainExpr(FunctionName(backend, low), items), row) ==
      ExtremumOf(low, EvalItems(backend, items, row))
  {
    var n, data := |items| - 1, EvalItems(backend, items, row);
    assert IsGrade(data[n]) && data == data[..n] + [data[n]];
    if n == 0 {
      LoneGrade(low, data[n]);
    } else {
      ItemsBefore(backend, items, n, row);
      ChainIsNullIgnoring(backend, low, items[..n], row);
      var earlier := ChainExpr(FunctionName(backend, low), items[..n]);
      ChainStep(backend, low, earlier, items[n], data[..n], row);
      ChainExtends(FunctionName(backend, low), items, n);
    }
  }

  lemma {:induction false} ChainExtends(name: string, items: seq<SqlExpr>, n: nat)
    requires 0 < n == |items| - 1
    ensures ChainExpr(name, items) == PairExpr(name, ChainExpr(name, items[..n]), items[n])
  {
  }

  lemma LoneGrade(low: bool, grade: Datum)
    requires IsGrade(grade)
    ensures ExtremumOf(low, [grade]) == grade
  {
    assert [grade][..0] == [];
    assert ExtremumOf(low, []) == Null;
  }

  lemma {:induction false} ChainStep(
      backend: Backend, low: bool, earlier: SqlExpr, last: SqlExpr, data: seq<Datum>, row: Row)
    requires AllGrades(data) && IsGrade(Eval(backend, last, row))
    requires Eval(backend, earlier, row) == ExtremumOf(low, data)
    ensures Eval(backend, PairExpr(FunctionName(backend, low), earlier, last), row) ==
      ExtremumOf(low, data + [Eval(backend, last, row)])
  {
    ExtremumGrade(low, data);
    PairMeaning(backend, low, earlier, last, row);
    assert (data + [Eval(backend, last, row)])[..|data|] == data;
  }

  // All three backends compute the same grade of a set, ignoring NULL arms.
  lemma GradeSetMeaning(backend: Backend, low: bool, items: seq<SqlExpr>, row: Row)
    requires AllGrades(EvalItems(backend, items, row))
    ensures Eval(backend, GradeSetExpr(backend, items, FunctionName(backend, low)), row) ==
      ExtremumOf(low, EvalItems(backend, items, row))
  {
    if items != [] {
      ChainIsNullIgnoring(backend, low, items, row);
      CallMeaning(backend, low, items, row);
    }
  }

  // ----- ordinals -----

  // The ordinal maps meet and join to minimum and maximum.
  ghost predicate Ranks<O(!new)>(lattice: Lattice<O>, ordinal: O -> int) {
    forall a, b :: RanksPair(lattice, ordinal, a, b)
  }

  predicate RanksPair<O>(lattice: Lattice<O>, ordinal: O -> int, a: O, b: O) {
    && ordinal(lattice.meet(a, b)) == (if ordinal(a) <= ordinal(b) then ordinal(a) else ordinal(b))
    && ordinal(lattice.join(a, b)) == (if ordinal(a) <= ordinal(b) then ordinal(b) else ordinal(a))
  }

  function GradeOf<O>(effect: Effect<O>, ordinal: O -> int): Datum {
    if effect.Deny? then Null else Int(ordinal(effect.outcome))
  }

  ghost predicate Graded<O>(effects: seq<Effect<O>>, data: seq<Datum>, ordinal: O -> int) {
    |data| == |effects| && forall i | 0 <= i < |data| :: data[i] == GradeOf(effects[i], ordinal)
  }

  lemma {:induction false} GradedJoin<O(!new)>(
      lattice: Lattice<O>, ordinal: O -> int, effects: seq<Effect<O>>, data: seq<Datum>)
    requires Ranks(lattice, ordinal) && Graded(effects, data, ordinal)
    ensures ExtremumOf(false, data) == GradeOf(JoinAll(lattice, effects), ordinal)
  {
    if effects != [] {
      var n := |effects| - 1;
      assert Graded(effects[..n], data[..n], ordinal);
      GradedJoin(lattice, ordinal, effects[..n], data[..n]);
      var before := JoinAll(lattice, effects[..n]);
      if before.Permit? && effects[n].Permit? {
        assert RanksPair(lattice, ordinal, before.outcome, effects[n].outcome);
      }
    }
  }

  lemma {:induction false} GradedMeet<O(!new)>(
      lattice: Lattice<O>, ordinal: O -> int, effects: seq<Effect<O>>, data: seq<Datum>)
    requires Ranks(lattice, ordinal) && Graded(effects, data, ordinal)
    requires forall i | 0 <= i < |effects| :: effects[i].Permit?
    ensures ExtremumOf(true, data) == GradeOf(Settled(MeetAll(lattice, effects)), ordinal)
    ensures effects != [] ==> MeetAll(lattice, effects).Some? && MeetAll(lattice, effects).value.Permit?
  {
    if effects != [] {
      var n := |effects| - 1;
      assert Graded(effects[..n], data[..n], ordinal);
      GradedMeet(lattice, ordinal, effects[..n], data[..n]);
      if n > 0 {
        var before := MeetAll(lattice, effects[..n]).value;
        assert RanksPair(lattice, ordinal, before.outcome, effects[n].outcome);
      }
    }
  }

  // ----- tightness -----

  // Off its filter, a tight residual's grade is NULL.
  predicate Tight<O>(policy: ResidualPolicy<O>) {
    match policy
    case All(arms) => |arms| == 0 || (|arms| == 1 && Tight(arms[0]))
    case Any(arms) => forall i | 0 <= i < |arms| :: Tight(arms[i])
    case OrElse(primary, fallback) => if CarriesObligation(fallback) then Tight(primary) else Tight(fallback)
    case _ => true
  }

  // Every arm of every `any` that gets lowered is tight.
  predicate TightAlternatives<O>(policy: ResidualPolicy<O>) {
    match policy
    case All(arms) => forall i | 0 <= i < |arms| :: TightAlternatives(arms[i])
    case Any(arms) => forall i | 0 <= i < |arms| :: Tight(arms[i]) && TightAlternatives(arms[i])
    case OrElse(primary, fallback) =>
      TightAlternatives(primary) && (CarriesObligation(fallback) || TightAlternatives(fallback))
    case _ => true
  }

  ghost predicate Lowerable<O>(lowerer: Lowerer<O>, policy: ResidualPolicy<O>, known: KnownFacts, row: Row) {
    && lowerer.projection.Ordinals?
    && OpaquePredicates(lowerer)
    && Mapped(lowerer, ResidualFacts(Prune(policy)))
    && RowDecides(known, row, ResidualFacts(Prune(policy)))
  }

  lemma LowerableParts<O>(
      lowerer: Lowerer<O>, policy: ResidualPolicy<O>, known: KnownFacts, row: Row)
    requires Lowerable(lowerer, policy, known, row)
    ensures (policy.All? || policy.Any?) ==>
      forall i | 0 <= i < |policy.arms| :: Lowerable(lowerer, policy.arms[i], known, row)
    ensures policy.OrElse? ==> Lowerable(lowerer, policy.primary, known, row)
    ensures policy.OrElse? && !CarriesObligation(policy.fallback) ==> Lowerable(lowerer, policy.fallback, known, row)
  {
    if policy.All? || policy.Any? {
      forall i | 0 <= i < |policy.arms| ensures Lowerable(lowerer, policy.arms[i], known, row) {
        PrunedArmFacts(policy, policy.arms, i);
      }
    }
  }

  lemma GrantGrade<O>(lowerer: Lowerer<O>, clause: Clause<O>, known: KnownFacts, row: Row)
    requires Lowerable(lowerer, ResidualPolicy.Grant(clause), known, row)
    ensures Eval(lowerer.backend, GradeExpr(lowerer, ResidualPolicy.Grant(clause)), row) ==
      if Holds(clause.condition, known) then Int(lowerer.projection.ordinal(clause.outcome)) else Null
  {
    ConditionMeaning(lowerer, clause.condition, known, row);
    WhenMeaning(
      lowerer.backend, ConditionExpr(lowerer, clause.condition), ConstantExpr(lowerer, clause.outcome), NullLit, row);
    assert Eval(lowerer.backend, NullLit, row) == Null;
    assert Eval(lowerer.backend, ConstantExpr(lowerer, clause.outcome), row) ==
      Int(lowerer.projection.ordinal(clause.outcome));
  }

  // Every lowered grade is an integer or NULL.
  lemma {:induction false} GradesAreGrades<O>(lowerer: Lowerer<O>, policy: ResidualPolicy<O>, row: Row)
    ensures IsGrade(Eval(lowerer.backend, GradeExpr(lowerer, policy), row))
    decreases policy
  {
    match policy
    case Grant(clause) =>
      WhenMeaning(
        lowerer.backend, ConditionExpr(lowerer, clause.condition), ConstantExpr(lowerer, clause.outcome), NullLit, row);
      ConstantIsGrade(lowerer, clause.outcome, row);
    case Permit(outcome) => ConstantIsGrade(lowerer, outcome, row);
    case PermitWithTrace(outcome, _, _, _) => ConstantIsGrade(lowerer, outcome, row);
    case All(arms) =>
      forall i | 0 <= i < |arms| { GradesAreGrades(lowerer, arms[i], row); }
      SetGrade(lowerer, arms, true, row);
    case Any(arms) =>
      forall i | 0 <= i < |arms| { GradesAreGrades(lowerer, arms[i], row); }
      SetGrade(lowerer, arms, false, row);
    case OrElse(primary, fallback) =>
      GradesAreGrades(lowerer, primary, row);
      GradesAreGrades(lowerer, fallback, row);
      WhenMeaning(
        lowerer.backend, FilterExpr(lowerer, primary), GradeExpr(lowerer, primary), GradeExpr(lowerer, fallback), row);
    case _ =>
  }

  lemma ConstantIsGrade<O>(lowerer: Lowerer<O>, outcome: O, row: Row)
    ensures IsGrade(Eval(lowerer.backend, ConstantExpr(lowerer, outcome), row))
    ensures lowerer.projection.Ordinals? ==>
      Eval(lowerer.backend, ConstantExpr(lowerer, outcome), row) == Int(lowerer.projection.ordinal(outcome))
    ensures Eval(lowerer.backend, NullLit, row) == Null
  {
  }

  function ArmGrades<O>(lowerer: Lowerer<O>, arms: seq<ResidualPolicy<O>>, row: Row): (data: seq<Datum>)
    ensures |data| == |arms|
    ensures forall i | 0 <= i < |arms| :: data[i] == Eval(lowerer.backend, GradeExpr(lowerer, arms[i]), row)
  {
    EvalItems(lowerer.backend, GradeExprs(lowerer, arms), row)
  }

  lemma SetGrade<O>(lowerer: Lowerer<O>, arms: seq<ResidualPolicy<O>>, low: bool, row: Row)
    requires forall i | 0 <= i < |arms| :: IsGrade(Eval(lowerer.backend, GradeExpr(lowerer, arms[i]), row))
    ensures var name := FunctionName(lowerer.backend, low);
      var grade := Eval(lowerer.backend, GradeSetExpr(lowerer.backend, GradeExprs(lowerer, arms), name), row);
      grade == ExtremumOf(low, ArmGrades(lowerer, arms, row)) && IsGrade(grade)
  {
    var data := ArmGrades(lowerer, arms, row);
    assert AllGrades(data);
    GradeSetMeaning(lowerer.backend, low, GradeExprs(lowerer, arms), row);
    ExtremumGrade(low, data);
  }

  lemma {:induction false} NullsGiveNull(low: bool, data: seq<Datum>)
    requires forall i | 0 <= i < |data| :: data[i] == Null
    ensures ExtremumOf(low, data) == Null
  {
    if data != [] {
      NullsGiveNull(low, data[..|data| - 1]);
    }
  }

  lemma {:induction false} TightOffFilter<O>(
      lowerer: Lowerer<O>, policy: ResidualPolicy<O>, known: KnownFacts, row: Row)
    requires Lowerable(lowerer, policy, known, row) && Tight(policy)
    requires !ResidualPermits(Prune(policy), known)
    ensures Eval(lowerer.backend, GradeExpr(lowerer, policy), row) == Null
    decreases policy
  {
    LowerableParts(lowerer, policy, known, row);
    match policy
    case Grant(clause) => GrantGrade(lowerer, clause, known, row);
    case All(arms) =>
      if |arms| == 1 {
        LoneArm(arms, known);
        TightOffFilter(lowerer, arms[0], known, row);
        OneArmSet(lowerer, arms, true, row);
      } else {
        SetGrade(lowerer, arms, true, row);
      }
    case Any(arms) =>
      DeniedArms(arms, known);
      forall i | 0 <= i < |arms| ensures Eval(lowerer.backend, GradeExpr(lowerer, arms[i]), row) == Null {
        TightOffFilter(lowerer, arms[i], known, row);
      }
      SetGrade(lowerer, arms, false, row);
      NullsGiveNull(false, ArmGrades(lowerer, arms, row));
    case OrElse(primary, fallback) =>
      if CarriesObligation(fallback) {
        TightOffFilter(lowerer, primary, known, row);
      } else {
        FilterMeaning(lowerer, primary, known, row);
        TightOffFilter(lowerer, fallback, known, row);
        WhenMeaning(
          lowerer.backend, FilterExpr(lowerer, primary), GradeExpr(lowerer, primary),
          GradeExpr(lowerer, fallback), row);
      }
    case _ =>
  }

  lemma LoneArm<O>(arms: seq<ResidualPolicy<O>>, known: KnownFacts)
    requires |arms| == 1
    ensures ResidualPermits(Prune(ResidualPolicy.All(arms)), known) <==> ResidualPermits(Prune(arms[0]), known)
  {
    var pruned := PruneArms(arms);
    assert Prune(ResidualPolicy.All(arms)) == ResidualPolicy.All(pruned);
    assert pruned[0] == Prune(arms[0]);
  }

  lemma DeniedArms<O>(arms: seq<ResidualPolicy<O>>, known: KnownFacts)
    requires !ResidualPermits(Prune(ResidualPolicy.Any(arms)), known)
    ensures forall i | 0 <= i < |arms| :: !ResidualPermits(Prune(arms[i]), known)
  {
    var pruned := PruneArms(arms);
    assert Prune(ResidualPolicy.Any(arms)) == ResidualPolicy.Any(pruned);
    forall i | 0 <= i < |arms| ensures !ResidualPermits(Prune(arms[i]), known) {
      assert !ResidualPermits(pruned[i], known);
    }
  }

  lemma OneArmSet<O>(lowerer: Lowerer<O>, arms: seq<ResidualPolicy<O>>, low: bool, row: Row)
    requires |arms| == 1
    ensures Eval(
      lowerer.backend,
      GradeSetExpr(lowerer.backend, GradeExprs(lowerer, arms), FunctionName(lowerer.backend, low)), row) ==
      Eval(lowerer.backend, GradeExpr(lowerer, arms[0]), row)
  {
  }

  // ----- grades on selected rows -----

  ghost function OutcomeOnRow<O>(lattice: Lattice<O>, policy: ResidualPolicy<O>, known: KnownFacts): Effect<O> {
    EvalResidual(lattice, Prune(policy), known).result.effect
  }

  ghost predicate GradeIsOutcome<O>(
      lattice: Lattice<O>, lowerer: Lowerer<O>, policy: ResidualPolicy<O>, known: KnownFacts, row: Row)
    requires lowerer.projection.Ordinals?
  {
    var effect := OutcomeOnRow(lattice, policy, known);
    effect.Permit? ==>
      Eval(lowerer.backend, GradeExpr(lowerer, policy), row) == Int(lowerer.projection.ordinal(effect.outcome))
  }

  // Wherever the filter selects the row, the grade is the ordinal of the pruned residual's outcome.
  lemma {:induction false} GradeMeaning<O(!new)>(
      lattice: Lattice<O>, lowerer: Lowerer<O>, policy: ResidualPolicy<O>, known: KnownFacts, row: Row)
    requires Lowerable(lowerer, policy, known, row) && Ranks(lattice, lowerer.projection.ordinal)
    requires TightAlternatives(policy)
    ensures GradeIsOutcome(lattice, lowerer, policy, known, row)
    decreases policy
  {
    LowerableParts(lowerer, policy, known, row);
    match policy
    case Permit(outcome) => ConstantIsGrade(lowerer, outcome, row);
    case PermitWithTrace(outcome, _, _, _) => ConstantIsGrade(lowerer, outcome, row);
    case Grant(clause) => GrantGradeMeaning(lattice, lowerer, clause, known, row);
    case All(arms) =>
      forall i | 0 <= i < |arms| { GradeMeaning(lattice, lowerer, arms[i], known, row); }
      AllGradeMeaning(lattice, lowerer, arms, known, row);
    case Any(arms) =>
      forall i | 0 <= i < |arms| ensures GradeMatches(lattice, lowerer, arms[i], known, row) {
        GradeMeaning(lattice, lowerer, arms[i], known, row);
        ResidualPermissionMeaning(lattice, Prune(arms[i]), known);
        if !ResidualPermits(Prune(arms[i]), known) {
          TightOffFilter(lowerer, arms[i], known, row);
        }
      }
      AnyGradeMeaning(lattice, lowerer, arms, known, row);
    case OrElse(primary, fallback) =>
      GradeMeaning(lattice, lowerer, primary, known, row);
      if !CarriesObligation(fallback) {
        GradeMeaning(lattice, lowerer, fallback, known, row);
        OrElseGradeMeaning(lattice, lowerer, primary, fallback, known, row);
      }
    case _ =>
  }

  lemma GrantGradeMeaning<O>(
      lattice: Lattice<O>, lowerer: Lowerer<O>, clause: Clause<O>, known: KnownFacts, row: Row)
    requires Lowerable(lowerer, ResidualPolicy.Grant(clause), known, row)
    ensures GradeIsOutcome(lattice, lowerer, ResidualPolicy.Grant(clause), known, row)
  {
    GrantGrade(lowerer, clause, known, row);
    ResidualPermissionMeaning(lattice, ResidualPolicy.Grant(clause), known);
  }

  // Also on denied rows: the grade is NULL there.
  ghost predicate GradeMatches<O>(
      lattice: Lattice<O>, lowerer: Lowerer<O>, policy: ResidualPolicy<O>, known: KnownFacts, row: Row)
    requires lowerer.projection.Ordinals?
  {
    Eval(lowerer.backend, GradeExpr(lowerer, policy), row) ==
      GradeOf(OutcomeOnRow(lattice, policy, known), lowerer.projection.ordinal)
  }

  // The outcomes of the arms on the row.
  ghost function ArmOutcomes<O>(lattice: Lattice<O>, arms: seq<ResidualPolicy<O>>, known: KnownFacts)
    : (effects: seq<Effect<O>>)
    ensures |effects| == |arms|
    ensures forall i | 0 <= i < |arms| :: effects[i] == OutcomeOnRow(lattice, arms[i], known)
  {
    seq(|arms|, i requires 0 <= i < |arms| => OutcomeOnRow(lattice, arms[i], known))
  }

  lemma ArmOutcomesAre<O>(
      lattice: Lattice<O>, arms: seq<ResidualPolicy<O>>, known: KnownFacts)
    ensures Effects(EvalResiduals(lattice, PruneArms(arms), known)) == ArmOutcomes(lattice, arms, known)
  {
    var pruned := PruneArms(arms);
    var evaluated := EvalResiduals(lattice, pruned, known);
    forall i | 0 <= i < |arms| ensures Effects(evaluated)[i] == ArmOutcomes(lattice, arms, known)[i] {
      assert evaluated[i] == EvalResidual(lattice, pruned[i], known);
    }
  }

  lemma AllOutcome<O>(lattice: Lattice<O>, arms: seq<ResidualPolicy<O>>, known: KnownFacts)
    ensures OutcomeOnRow(lattice, ResidualPolicy.All(arms), known) ==
      Settled(MeetAll(lattice, ArmOutcomes(lattice, arms, known)))
    ensures OutcomeOnRow(lattice, ResidualPolicy.All(arms), known).Permit? ==>
      forall i | 0 <= i < |arms| :: ArmOutcomes(lattice, arms, known)[i].Permit?
  {
    var pruned := PruneArms(arms);
    var evaluated := EvalResiduals(lattice, pruned, known);
    assert Prune(ResidualPolicy.All(arms)) == ResidualPolicy.All(pruned);
    assert EvalResidual(lattice, ResidualPolicy.All(pruned), known) == AllOfArms(lattice, evaluated);
    AllFolds(lattice, evaluated);
    ArmOutcomesAre(lattice, arms, known);
    AllPermitsIff(lattice, evaluated);
    forall i | 0 <= i < |arms| && Permits(evaluated[i]) ensures ArmOutcomes(lattice, arms, known)[i].Permit? {
      assert Effects(evaluated)[i] == evaluated[i].result.effect;
    }
  }

  lemma AnyOutcome<O>(lattice: Lattice<O>, arms: seq<ResidualPolicy<O>>, known: KnownFacts)
    ensures OutcomeOnRow(lattice, ResidualPolicy.Any(arms), known) ==
      JoinAll(lattice, ArmOutcomes(lattice, arms, known))
  {
    var pruned := PruneArms(arms);
    var evaluated := EvalResiduals(lattice, pruned, known);
    assert Prune(ResidualPolicy.Any(arms)) == ResidualPolicy.Any(pruned);
    assert EvalResidual(lattice, ResidualPolicy.Any(pruned), known) == AnyOfArms(lattice, evaluated);
    AnyFolds(lattice, evaluated);
    ArmOutcomesAre(lattice, arms, known);
  }

  lemma AllGradeMeaning<O(!new)>(
      lattice: Lattice<O>, lowerer: Lowerer<O>, arms: seq<ResidualPolicy<O>>, known: KnownFacts, row: Row)
    requires lowerer.projection.Ordinals? && Ranks(lattice, lowerer.projection.ordinal)
    requires forall i | 0 <= i < |arms| :: GradeIsOutcome(lattice, lowerer, arms[i], known, row)
    ensures GradeIsOutcome(lattice, lowerer, ResidualPolicy.All(arms), known, row)
  {
    AllOutcome(lattice, arms, known);
    if OutcomeOnRow(lattice, ResidualPolicy.All(arms), known).Permit? {
      var effects, data := ArmOutcomes(lattice, arms, known), ArmGrades(lowerer, arms, row);
      forall i | 0 <= i < |arms| ensures data[i] == GradeOf(effects[i], lowerer.projection.ordinal) {
        assert GradeIsOutcome(lattice, lowerer, arms[i], known, row);
      }
      GradedMeet(lattice, lowerer.projection.ordinal, effects, data);
      SetGrade(lowerer, arms, true, row);
    }
  }

  lemma AnyGradeMeaning<O(!new)>(
      lattice: Lattice<O>, lowerer: Lowerer<O>, arms: seq<ResidualPolicy<O>>, known: KnownFacts, row: Row)
    requires lowerer.projection.Ordinals? && Ranks(lattice, lowerer.projection.ordinal)
    requires forall i | 0 <= i < |arms| :: GradeMatches(lattice, lowerer, arms[i], known, row)
    ensures GradeIsOutcome(lattice, lowerer, ResidualPolicy.Any(arms), known, row)
  {
    var effects, data := ArmOutcomes(lattice, arms, known), ArmGrades(lowerer, arms, row);
    forall i | 0 <= i < |arms| ensures data[i] == GradeOf(effects[i], lowerer.projection.ordinal) {
      assert GradeMatches(lattice, lowerer, arms[i], known, row);
    }
    GradedJoin(lattice, lowerer.projection.ordinal, effects, data);
    AnyGradeIsHighest(lattice, lowerer, arms, known, row);
  }

  // The grade of an `any` is right exactly when the highest arm grade is the winning ordinal.
  lemma AnyGradeIsHighest<O(!new)>(
      lattice: Lattice<O>, lowerer: Lowerer<O>, arms: seq<ResidualPolicy<O>>, known: KnownFacts, row: Row)
    requires lowerer.projection.Ordinals?
    ensures var effects, highest := ArmOutcomes(lattice, arms, known), ExtremumOf(false, ArmGrades(lowerer, arms, row));
      var joined := JoinAll(lattice, effects);
      && joined == OutcomeOnRow(lattice, ResidualPolicy.Any(arms), known)
      && (GradeIsOutcome(lattice, lowerer, ResidualPolicy.Any(arms), known, row) <==>
          joined.Deny? || highest == Int(lowerer.projection.ordinal(joined.outcome)))
  {
    AnyOutcome(lattice, arms, known);
    AnyGradeValue(lowerer, arms, row);
  }

  lemma AnyGradeValue<O>(lowerer: Lowerer<O>, arms: seq<ResidualPolicy<O>>, row: Row)
    ensures Eval(lowerer.backend, GradeExpr(lowerer, ResidualPolicy.Any(arms)), row) ==
      ExtremumOf(false, ArmGrades(lowerer, arms, row))
  {
    forall i | 0 <= i < |arms| ensures IsGrade(Eval(lowerer.backend, GradeExpr(lowerer, arms[i]), row)) {
      GradesAreGrades(lowerer, arms[i], row);
    }
    SetGrade(lowerer, arms, false, row);
  }

  lemma OrElseGradeMeaning<O>(
      lattice: Lattice<O>, lowerer: Lowerer<O>, primary: ResidualPolicy<O>, fallback: ResidualPolicy<O>,
      known: KnownFacts, row: Row)
    requires !CarriesObligation(fallback)
    requires Lowerable(lowerer, primary, known, row)
    requires GradeIsOutcome(lattice, lowerer, primary, known, row)
    requires GradeIsOutcome(lattice, lowerer, fallback, known, row)
    ensures GradeIsOutcome(lattice, lowerer, ResidualPolicy.OrElse(primary, fallback), known, row)
  {
    FilterMeaning(lowerer, primary, known, row);
    ResidualPermissionMeaning(lattice, Prune(primary), known);
    WhenMeaning(
      lowerer.backend, FilterExpr(lowerer, primary), GradeExpr(lowerer, primary), GradeExpr(lowerer, fallback), row);
  }

  // ----- alternatives that are not tight -----

  // On a selected row, an `any` whose arms are each graded right when they permit has the right
  // grade if and only if no denied arm's grade exceeds the winning ordinal.
  lemma AnyGradeIsRightIff<O(!new)>(
      lattice: Lattice<O>, lowerer: Lowerer<O>, arms: seq<ResidualPolicy<O>>, known: KnownFacts, row: Row)
    requires lowerer.projection.Ordinals? && Ranks(lattice, lowerer.projection.ordinal)
    requires forall i | 0 <= i < |arms| :: GradeIsOutcome(lattice, lowerer, arms[i], known, row)
    requires OutcomeOnRow(lattice, ResidualPolicy.Any(arms), known).Permit?
    ensures GradeIsOutcome(lattice, lowerer, ResidualPolicy.Any(arms), known, row) <==>
      var winning := lowerer.projection.ordinal(OutcomeOnRow(lattice, ResidualPolicy.Any(arms), known).outcome);
      forall i | 0 <= i < |arms| && OutcomeOnRow(lattice, arms[i], known).Deny? ::
        NotAbove(Eval(lowerer.backend, GradeExpr(lowerer, arms[i]), row), winning)
  {
    var ordinal := lowerer.projection.ordinal;
    var effects, data := ArmOutcomes(lattice, arms, known), ArmGrades(lowerer, arms, row);
    forall i | 0 <= i < |arms| ensures IsGrade(data[i]) {
      GradesAreGrades(lowerer, arms[i], row);
    }
    forall i | 0 <= i < |arms| && effects[i].Permit? ensures data[i] == Int(ordinal(effects[i].outcome)) {
      assert GradeIsOutcome(lattice, lowerer, arms[i], known, row);
    }
    AnyGradeIsHighest(lattice, lowerer, arms, known, row);
    HighestGrade(lattice, ordinal, effects, data);
    var winning := ordinal(JoinAll(lattice, effects).outcome);
    forall i | 0 <= i < |arms|
      ensures (effects[i].Deny? ==> NotAbove(data[i], winning)) <==>
        (OutcomeOnRow(lattice, arms[i], known).Deny? ==>
           NotAbove(Eval(lowerer.backend, GradeExpr(lowerer, arms[i]), row), winning))
    {
    }
  }

  predicate NotAbove(grade: Datum, bound: int) {
    grade.Int? ==> grade.number <= bound
  }

  lemma {:induction false} HighestGrade<O(!new)>(
      lattice: Lattice<O>, ordinal: O -> int, effects: seq<Effect<O>>, data: seq<Datum>)
    requires Ranks(lattice, ordinal) && |effects| == |data| && AllGrades(data)
    requires forall i | 0 <= i < |data| && effects[i].Permit? :: data[i] == Int(ordinal(effects[i].outcome))
    ensures var joined := JoinAll(lattice, effects);
      joined.Permit? ==>
        && ExtremumOf(false, data).Int?
        && ordinal(joined.outcome) <= ExtremumOf(false, data).number
        && (ExtremumOf(false, data) == Int(ordinal(joined.outcome)) <==>
            forall i | 0 <= i < |data| && effects[i].Deny? :: NotAbove(data[i], ordinal(joined.outcome)))
  {
    if effects != [] {
      var n := |effects| - 1;
      HighestGrade(lattice, ordinal, effects[..n], data[..n]);
      var before, joined := JoinAll(lattice, effects[..n]), JoinAll(lattice, effects);
      if before.Permit? && effects[n].Permit? {
        assert RanksPair(lattice, ordinal, before.outcome, effects[n].outcome);
      }
      HighestIsBound(data, if joined.Permit? then ordinal(joined.outcome) else 0);
      JoinBounds(lattice, ordinal, effects);
    }
  }

  // The highest grade is at most a bound exactly when every grade is.
  lemma {:induction false} HighestIsBound(data: seq<Datum>, bound: int)
    requires AllGrades(data)
    ensures NotAbove(ExtremumOf(false, data), bound) <==> forall i | 0 <= i < |data| :: NotAbove(data[i], bound)
    ensures IsGrade(ExtremumOf(false, data))
  {
    if data != [] {
      HighestIsBound(data[..|data| - 1], bound);
      assert data == data[..|data| - 1] + [data[|data| - 1]];
    }
  }

  lemma {:induction false} JoinBounds<O(!new)>(lattice: Lattice<O>, ordinal: O -> int, effects: seq<Effect<O>>)
    requires Ranks(lattice, ordinal)
    ensures var joined := JoinAll(lattice, effects);
      forall i | 0 <= i < |effects| && effects[i].Permit? ::
        joined.Permit? && ordinal(effects[i].outcome) <= ordinal(joined.outcome)
  {
    if effects != [] {
      var n := |effects| - 1;
      JoinBounds(lattice, ordinal, effects[..n]);
      var before := JoinAll(lattice, effects[..n]);
      if before.Permit? && effects[n].Permit? {
        assert RanksPair(lattice, ordinal, before.outcome, effects[n].outcome);
      }
      assert effects == effects[..n] + [effects[n]];
    }
  }
}
