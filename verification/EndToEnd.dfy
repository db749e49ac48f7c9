/** Policy to SQL text: what the emitted fragments, read by SQL precedence, select and grade. */
module EndToEnd {
  import opened Wrappers
  import opened Facts
  import opened Policies
  import opened Conditions
  import opened Evaluation
  import opened Semantics
  import opened PartialEvaluation
  import opened PartialProofs
  import opened PartialPermission
  import opened PartialObligations
  import opened SqlSyntax
  import opened SqlMeaning
  import opened Lowering
  import opened LoweringSyntax
  import opened LoweringMeaning
  import opened LoweringGrades

  // ----- facts on a row -----

  // Deferred facts are decided by the row: present exactly where their predicate IS TRUE.
  function FactsOnRow(partial: PartialFacts, row: Row): KnownFacts {
    map f | f in partial ::
      if partial[f] != Unknown then partial[f] else if row.truth(f) == Some(true) then Present else Absent
  }

  lemma RowCompletes(partial: PartialFacts, row: Row, asked: set<FactId>)
    requires forall f | f in asked :: PresenceOf(partial, f) == Unknown
    ensures Completes(FactsOnRow(partial, row), partial)
    ensures RowDecides(FactsOnRow(partial, row), row, asked)
  {
  }

  // ----- fallbacks and tightness, asked of the policy -----

  predicate FallbacksUnobliged<O>(policy: Policy<O>) {
    match policy
    case All(arms) => forall i | 0 <= i < |arms| :: FallbacksUnobliged(arms[i])
    case Any(arms) => forall i | 0 <= i < |arms| :: FallbacksUnobliged(arms[i])
    case OrElse(primary, fallback) =>
      !PolicyCarriesObligation(fallback) && FallbacksUnobliged(primary) && FallbacksUnobliged(fallback)
    case _ => true
  }

  predicate TightPolicy<O>(policy: Policy<O>) {
    match policy
    case All(arms) => |arms| == 0 || (|arms| == 1 && TightPolicy(arms[0]))
    case Any(arms) => forall i | 0 <= i < |arms| :: TightPolicy(arms[i])
    case OrElse(_, fallback) => TightPolicy(fallback)
    case _ => true
  }

  predicate TightPolicyAlternatives<O>(policy: Policy<O>) {
    match policy
    case All(arms) => forall i | 0 <= i < |arms| :: TightPolicyAlternatives(arms[i])
    case Any(arms) => forall i | 0 <= i < |arms| :: TightPolicy(arms[i]) && TightPolicyAlternatives(arms[i])
    case OrElse(primary, fallback) => TightPolicyAlternatives(primary) && TightPolicyAlternatives(fallback)
    case _ => true
  }

  lemma {:induction false} PendingUnobliged<O>(lattice: Lattice<O>, policy: Policy<O>, partial: PartialFacts)
    requires FallbacksUnobliged(policy)
    ensures var reduced := PartialEvaluate(lattice, policy, partial);
      reduced.Pending? ==> NoObligatedFallback(reduced.residual)
    decreases policy
  {
    match policy
    case All(ps) =>
      forall i | 0 <= i < |ps| { PendingUnobliged(lattice, ps[i], partial); }
      SetsUnobliged(lattice, PartialEvaluateArms(lattice, ps, partial), partial);
    case Any(ps) =>
      forall i | 0 <= i < |ps| { PendingUnobliged(lattice, ps[i], partial); }
      SetsUnobliged(lattice, PartialEvaluateArms(lattice, ps, partial), partial);
    case OrElse(primary, fallback) =>
      PendingUnobliged(lattice, primary, partial);
      PendingUnobliged(lattice, fallback, partial);
      ReductionAddsNone(lattice, fallback, partial);
    case _ =>
  }

  lemma SetsUnobliged<O>(lattice: Lattice<O>, arms: seq<Residual<O>>, partial: PartialFacts)
    requires forall i | 0 <= i < |arms| && arms[i].Pending? :: NoObligatedFallback(arms[i].residual)
    ensures var reduced := ReduceAll(lattice, arms, partial);
      reduced.Pending? ==> NoObligatedFallback(reduced.residual)
    ensures var reduced := ReduceAny(lattice, arms, partial);
      reduced.Pending? ==> NoObligatedFallback(reduced.residual)
  {
    MembersUnobliged(arms);
    ReducedAnyMembers(lattice, arms, partial);
  }

  lemma MembersUnobliged<O>(arms: seq<Residual<O>>)
    requires forall i | 0 <= i < |arms| && arms[i].Pending? :: NoObligatedFallback(arms[i].residual)
    ensures forall p | p in ResolvedPermits(arms) + PendingResiduals(arms) :: NoObligatedFallback(p)
    ensures forall k: nat | k < |arms| && arms[k].Resolved? :: NoObligatedFallback(PolicyFromDecision(arms[k].decision))
  {
    PermitMembers(arms);
    forall p | p in PendingResiduals(arms) ensures NoObligatedFallback(p) {
      var i := PendingArmOf(arms, p);
    }
  }

  lemma {:induction false} PendingTight<O>(lattice: Lattice<O>, policy: Policy<O>, partial: PartialFacts)
    requires FallbacksUnobliged(policy) && TightPolicy(policy)
    ensures var reduced := PartialEvaluate(lattice, policy, partial);
      reduced.Pending? ==> Tight(reduced.residual)
    decreases policy
  {
    match policy
    case All(ps) =>
      if |ps| == 1 {
        PendingTight(lattice, ps[0], partial);
        OneArmReduction(lattice, PartialEvaluateArms(lattice, ps, partial), partial);
      }
    case Any(ps) =>
      var arms := PartialEvaluateArms(lattice, ps, partial);
      forall i | 0 <= i < |ps| ensures arms[i].Pending? ==> Tight(arms[i].residual) {
        PendingTight(lattice, ps[i], partial);
      }
      ReducedAnyTight(lattice, arms, partial);
    case OrElse(primary, fallback) =>
      PendingTight(lattice, fallback, partial);
      ReductionAddsNone(lattice, fallback, partial);
    case _ =>
  }

  lemma OneArmReduction<O>(lattice: Lattice<O>, arms: seq<Residual<O>>, partial: PartialFacts)
    requires |arms| == 1
    ensures var reduced := ReduceAll(lattice, arms, partial);
      reduced.Pending? ==> arms[0].Pending? && reduced.residual == ResidualPolicy.All([arms[0].residual])
  {
    assert arms[..0] == [];
    assert ResolvedPermits(arms[..0]) == [] && PendingResiduals(arms[..0]) == [];
    if arms[0].Pending? {
      assert [] + [arms[0].residual] == [arms[0].residual];
    }
  }

  // What the arms of a pending `any` are made of.
  lemma ReducedAnyMembers<O>(lattice: Lattice<O>, arms: seq<Residual<O>>, partial: PartialFacts)
    ensures var reduced := ReduceAny(lattice, arms, partial);
      reduced.Pending? ==>
        (reduced.residual.Any? &&
         forall p | p in reduced.residual.arms ::
           || p in ResolvedPermits(arms) + PendingResiduals(arms)
           || exists k: nat :: k < |arms| && arms[k].Resolved? && p == PolicyFromDecision(arms[k].decision))
  {
  }

  lemma ReducedAnyTight<O>(lattice: Lattice<O>, arms: seq<Residual<O>>, partial: PartialFacts)
    requires forall i | 0 <= i < |arms| && arms[i].Pending? :: Tight(arms[i].residual)
    ensures var reduced := ReduceAny(lattice, arms, partial);
      reduced.Pending? ==> Tight(reduced.residual)
  {
    MembersTight(arms);
    ReducedAnyMembers(lattice, arms, partial);
    var reduced := ReduceAny(lattice, arms, partial);
    if reduced.Pending? {
      forall i | 0 <= i < |reduced.residual.arms| ensures Tight(reduced.residual.arms[i]) {
        assert reduced.residual.arms[i] in reduced.residual.arms;
      }
    }
  }

  lemma MembersTight<O>(arms: seq<Residual<O>>)
    requires forall i | 0 <= i < |arms| && arms[i].Pending? :: Tight(arms[i].residual)
    ensures forall p | p in ResolvedPermits(arms) + PendingResiduals(arms) :: Tight(p)
    ensures forall k: nat | k < |arms| && arms[k].Resolved? :: Tight(PolicyFromDecision(arms[k].decision))
  {
    PermitMembers(arms);
    forall p | p in PendingResiduals(arms) ensures Tight(p) {
      var i := PendingArmOf(arms, p);
    }
  }

  lemma {:induction false} PendingTightAlternatives<O>(lattice: Lattice<O>, policy: Policy<O>, partial: PartialFacts)
    requires FallbacksUnobliged(policy) && TightPolicyAlternatives(policy)
    ensures var reduced := PartialEvaluate(lattice, policy, partial);
      reduced.Pending? ==> TightAlternatives(reduced.residual)
    decreases policy
  {
    match policy
    case All(ps) =>
      var arms := PartialEvaluateArms(lattice, ps, partial);
      forall i | 0 <= i < |ps| ensures arms[i].Pending? ==> TightAlternatives(arms[i].residual) {
        PendingTightAlternatives(lattice, ps[i], partial);
      }
      ReducedAllTightAlternatives(lattice, arms, partial);
    case Any(ps) =>
      var arms := PartialEvaluateArms(lattice, ps, partial);
      forall i | 0 <= i < |ps|
        ensures arms[i].Pending? ==> Tight(arms[i].residual) && TightAlternatives(arms[i].residual)
      {
        PendingTightAlternatives(lattice, ps[i], partial);
        PendingTight(lattice, ps[i], partial);
      }
      ReducedAnyTightAlternatives(lattice, arms, partial);
    case OrElse(primary, fallback) =>
      PendingTightAlternatives(lattice, primary, partial);
      PendingTightAlternatives(lattice, fallback, partial);
    case _ =>
  }

  lemma ReducedAllTightAlternatives<O>(
      lattice: Lattice<O>, arms: seq<Residual<O>>, partial: PartialFacts)
    requires forall i | 0 <= i < |arms| && arms[i].Pending? :: TightAlternatives(arms[i].residual)
    ensures var reduced := ReduceAll(lattice, arms, partial);
      reduced.Pending? ==> TightAlternatives(reduced.residual)
  {
    MembersTightAlternatives(arms);
    var reduced := ReduceAll(lattice, arms, partial);
    if reduced.Pending? {
      forall i | 0 <= i < |reduced.residual.arms| ensures TightAlternatives(reduced.residual.arms[i]) {
        assert reduced.residual.arms[i] in ResolvedPermits(arms) + PendingResiduals(arms);
      }
    }
  }

  lemma ReducedAnyTightAlternatives<O>(
      lattice: Lattice<O>, arms: seq<Residual<O>>, partial: PartialFacts)
    requires forall i | 0 <= i < |arms| && arms[i].Pending? ::
      Tight(arms[i].residual) && TightAlternatives(arms[i].residual)
    ensures var reduced := ReduceAny(lattice, arms, partial);
      reduced.Pending? ==> TightAlternatives(reduced.residual)
  {
    MembersTight(arms);
    MembersTightAlternatives(arms);
    ReducedAnyMembers(lattice, arms, partial);
    var reduced := ReduceAny(lattice, arms, partial);
    if reduced.Pending? {
      forall i | 0 <= i < |reduced.residual.arms|
        ensures Tight(reduced.residual.arms[i]) && TightAlternatives(reduced.residual.arms[i])
      {
        assert reduced.residual.arms[i] in reduced.residual.arms;
      }
    }
  }

  lemma MembersTightAlternatives<O>(arms: seq<Residual<O>>)
    requires forall i | 0 <= i < |arms| && arms[i].Pending? :: TightAlternatives(arms[i].residual)
    ensures forall p | p in ResolvedPermits(arms) + PendingResiduals(arms) :: TightAlternatives(p)
    ensures forall k: nat | k < |arms| && arms[k].Resolved? :: TightAlternatives(PolicyFromDecision(arms[k].decision))
  {
    PermitMembers(arms);
    forall p | p in PendingResiduals(arms) ensures TightAlternatives(p) {
      var i := PendingArmOf(arms, p);
    }
  }

  // ----- reading the emitted text -----

  // The fragment, read back by SQL precedence, evaluates to `datum` on the row.
  ghost predicate Yields<O>(lowerer: Lowerer<O>, fragment: Fragment, row: Row, datum: Datum) {
    var e := Parsed(fragment);
    e.Some? && Eval(lowerer.backend, e.value, row) == datum
  }

  ghost predicate Selects<O>(lowerer: Lowerer<O>, fragment: Fragment, row: Row) {
    Yields(lowerer, fragment, row, Bool(true))
  }

  lemma SpelledYields<O>(lowerer: Lowerer<O>, fragment: Fragment, e: SqlExpr, row: Row)
    requires Spells(fragment, e)
    ensures Yields(lowerer, fragment, row, Eval(lowerer.backend, e, row))
    ensures forall datum :: Yields(lowerer, fragment, row, datum) <==> datum == Eval(lowerer.backend, e, row)
  {
    PrintedIsParsed(e);
  }

  lemma GuardYields<O>(
      lowerer: Lowerer<O>, lowered: Lowered, filter: SqlExpr, grade: SqlExpr, tenant: string, row: Row)
    requires Spells(lowered.filter, filter) && Spells(lowered.grade, grade)
    requires Eval(lowerer.backend, filter, row).Bool?
    ensures var guarded := Guard(lowerer, lowered, tenant);
      && (Selects(lowerer, guarded.filter, row) <==>
          row.tenant == Some(tenant) && Eval(lowerer.backend, filter, row) == Bool(true))
      && Yields(
        lowerer, guarded.grade, row,
        if row.tenant == Some(tenant) then Eval(lowerer.backend, grade, row) else Null)
  {
    GuardSpells(lowerer, lowered, filter, grade, tenant);
    TenantGuardMeaning(lowerer, filter, grade, tenant, row);
    SpelledYields(lowerer, Guard(lowerer, lowered, tenant).filter, TenantFilterExpr(lowerer, filter, tenant), row);
    SpelledYields(lowerer, Guard(lowerer, lowered, tenant).grade, TenantGradeExpr(lowerer, grade, tenant), row);
  }

  // A resolved result lowers to a constant guarded by the tenant.
  lemma ResolvedYields<O>(
      lowerer: Lowerer<O>, decision: Decision<O>, tenant: string, row: Row)
    requires LowerResult(lowerer, Resolved(decision), tenant).Ok?
    ensures var lowered := LowerResult(lowerer, Resolved(decision), tenant).value;
      && (Selects(lowerer, lowered.filter, row) <==> row.tenant == Some(tenant) && decision.effect.Permit?)
      && (lowerer.projection.Ordinals? ==> Yields(
        lowerer, lowered.grade, row,
        if row.tenant == Some(tenant) then GradeOf(decision.effect, lowerer.projection.ordinal) else Null))
  {
    match decision.effect
    case Deny =>
      GuardYields(lowerer, Lowered(T(FalseWord), T(NullWord)), FalseLit, NullLit, tenant, row);
      assert Eval(lowerer.backend, NullLit, row) == Null;
    case Permit(outcome) =>
      ConstantIsGrade(lowerer, outcome, row);
      GuardYields(
        lowerer, LowerConstant(lowerer, outcome).value, TrueLit, ConstantExpr(lowerer, outcome), tenant, row);
  }

  lemma PendingYields<O>(
      lowerer: Lowerer<O>, residual: ResidualPolicy<O>, known: KnownFacts, tenant: string, row: Row)
    requires OpaquePredicates(lowerer) && Lower(lowerer, residual, tenant).Ok?
    requires Mapped(lowerer, ResidualFacts(Prune(residual)))
    requires RowDecides(known, row, ResidualFacts(Prune(residual)))
    ensures var lowered := Lower(lowerer, residual, tenant).value;
      && (Selects(lowerer, lowered.filter, row) <==>
          row.tenant == Some(tenant) && ResidualPermits(Prune(residual), known))
      && Yields(
        lowerer, lowered.grade, row,
        if row.tenant == Some(tenant) then Eval(lowerer.backend, GradeExpr(lowerer, residual), row) else Null)
  {
    NodeSpells(lowerer, residual);
    FilterMeaning(lowerer, residual, known, row);
    GuardYields(
      lowerer, LowerNode(lowerer, residual).value, FilterExpr(lowerer, residual), GradeExpr(lowerer, residual),
      tenant, row);
  }

  lemma LoweredIsMapped<O>(lowerer: Lowerer<O>, residual: ResidualPolicy<O>)
    requires LowerNode(lowerer, residual).Ok?
    ensures Mapped(lowerer, ResidualFacts(Prune(residual)))
  {
    NodeImpliesFilter(lowerer, residual);
    FilterLowersIffMapped(lowerer, residual);
  }

  lemma {:induction false} NodeImpliesFilter<O>(lowerer: Lowerer<O>, policy: ResidualPolicy<O>)
    requires LowerNode(lowerer, policy).Ok?
    ensures LowerFilterNode(lowerer, policy) == Ok(LowerNode(lowerer, policy).value.filter)
    decreases policy, 1
  {
    match policy
    case All(arms) => ArmsImplyFilters(lowerer, arms);
    case Any(arms) => ArmsImplyFilters(lowerer, arms);
    case OrElse(primary, fallback) =>
      NodeImpliesFilter(lowerer, primary);
      if !CarriesObligation(fallback) {
        NodeImpliesFilter(lowerer, fallback);
      }
    case _ =>
  }

  lemma {:induction false} ArmsImplyFilters<O>(lowerer: Lowerer<O>, arms: seq<ResidualPolicy<O>>)
    requires LowerArms(lowerer, arms).Ok?
    ensures LowerFilterArms(lowerer, arms) == Ok(Filters(LowerArms(lowerer, arms).value))
    decreases arms, 0
  {
    if arms != [] {
      NodeImpliesFilter(lowerer, arms[0]);
      ArmsImplyFilters(lowerer, arms[1..]);
    }
  }

  // ----- end to end -----

  lemma {:induction false} PrunedFactsAreFacts<O>(policy: ResidualPolicy<O>)
    ensures ResidualFacts(Prune(policy)) <= ResidualFacts(policy)
    decreases policy
  {
    match policy
    case All(arms) => PrunedSetIsWithin(policy, arms);
    case Any(arms) => PrunedSetIsWithin(policy, arms);
    case OrElse(primary, fallback) =>
      PrunedFactsAreFacts(primary);
      PrunedFactsAreFacts(fallback);
    case _ =>
  }

  lemma {:induction false} PrunedSetIsWithin<O>(policy: ResidualPolicy<O>, arms: seq<ResidualPolicy<O>>)
    requires policy == ResidualPolicy.All(arms) || policy == ResidualPolicy.Any(arms)
    ensures ResidualFacts(Prune(policy)) <= ResidualFacts(policy)
    decreases arms
  {
    var pruned := PruneArms(arms);
    forall f | f in ResidualFacts(Prune(policy)) ensures f in ResidualFacts(policy) {
      var i :| 0 <= i < |pruned| && f in ResidualFacts(pruned[i]);
      PrunedFactsAreFacts(arms[i]);
      assert f in ResidualFacts(arms[i]);
    }
  }

  // What the lowering leaves out of a pending result: the rows only an obligated fallback permits.
  ghost predicate KeptByPruning<O>(reduced: Residual<O>, known: KnownFacts) {
    reduced.Pending? ==> ResidualPermits(Prune(reduced.residual), known)
  }

  predicate NothingPruned<O>(reduced: Residual<O>) {
    reduced.Pending? ==> NoObligatedFallback(reduced.residual)
  }

  // The filter selects exactly the rows of the caller's tenant on which direct evaluation of the
  // original policy permits and pruning keeps the permit. Where the residual has no obligated
  // fallback - whatever the policy held before reduction - pruning keeps every one.
  lemma FilterIsSound<O>(
      lattice: Lattice<O>, lowerer: Lowerer<O>, policy: Policy<O>, partial: PartialFacts, tenant: string, row: Row)
    requires OpaquePredicates(lowerer)
    requires LowerResult(lowerer, PartialEvaluate(lattice, policy, partial), tenant).Ok?
    ensures
      var filter := LowerResult(lowerer, PartialEvaluate(lattice, policy, partial), tenant).value.filter;
      var permitted := row.tenant == Some(tenant) &&
        Evaluate(lattice, policy, FactsOnRow(partial, row)).effect.Permit?;
      var reduced := PartialEvaluate(lattice, policy, partial);
      && (Selects(lowerer, filter, row) <==> permitted && KeptByPruning(reduced, FactsOnRow(partial, row)))
      && (NothingPruned(reduced) ==> (Selects(lowerer, filter, row) <==> permitted))
      && (FallbacksUnobliged(policy) ==> (Selects(lowerer, filter, row) <==> permitted))
  {
    var reduced, known := PartialEvaluate(lattice, policy, partial), FactsOnRow(partial, row);
    RowCompletes(partial, row, {});
    PermissionPreserved(lattice, policy, partial, known);
    PermissionMeaning(lattice, policy, known);
    match reduced
    case Resolved(decision) => ResolvedYields(lowerer, decision, tenant, row);
    case Pending(residual, _) =>
      RowDecidesPending(lattice, policy, partial, row);
      LoweredIsMapped(lowerer, residual);
      PendingYields(lowerer, residual, known, tenant, row);
      PruningKeeps(lattice, policy, partial, known);
  }

  lemma RowDecidesPending<O>(lattice: Lattice<O>, policy: Policy<O>, partial: PartialFacts, row: Row)
    requires PartialEvaluate(lattice, policy, partial).Pending?
    ensures var residual := PartialEvaluate(lattice, policy, partial).residual;
      && RowDecides(FactsOnRow(partial, row), row, ResidualFacts(residual))
      && RowDecides(FactsOnRow(partial, row), row, ResidualFacts(Prune(residual)))
  {
    var residual := PartialEvaluate(lattice, policy, partial).residual;
    PendingAsksOnlyUnknown(lattice, policy, partial);
    PrunedFactsAreFacts(residual);
    RowCompletes(partial, row, ResidualFacts(residual));
  }

  // Pruning a pending result only takes permits away, and takes none where no fallback is obligated.
  lemma PruningKeeps<O>(lattice: Lattice<O>, policy: Policy<O>, partial: PartialFacts, known: KnownFacts)
    requires PartialEvaluate(lattice, policy, partial).Pending?
    ensures var residual := PartialEvaluate(lattice, policy, partial).residual;
      && (FallbacksUnobliged(policy) ==> NoObligatedFallback(residual))
      && (NoObligatedFallback(residual) ==> Prune(residual) == residual)
      && (ResidualPermits(Prune(residual), known) ==> ResidualPermits(residual, known))
  {
    var residual := PartialEvaluate(lattice, policy, partial).residual;
    PruningIsIdentityIff(residual);
    if ResidualPermits(Prune(residual), known) {
      PruningRestricts(residual, known);
    }
    if FallbacksUnobliged(policy) {
      PendingUnobliged(lattice, policy, partial);
    }
  }

  // The filter alone, whatever the projection: lowering succeeds exactly when the predicates it needs
  // are mapped, and then selects what the two-part lowering selects.
  lemma FilterAloneIsSound<O>(
      lattice: Lattice<O>, lowerer: Lowerer<O>, policy: Policy<O>, partial: PartialFacts, tenant: string, row: Row)
    requires OpaquePredicates(lowerer) && PartialEvaluate(lattice, policy, partial).Pending?
    ensures
      var residual := PartialEvaluate(lattice, policy, partial).residual;
      var known := FactsOnRow(partial, row);
      var lowered := LowerFilter(lowerer, residual, tenant);
      var permitted := row.tenant == Some(tenant) && Evaluate(lattice, policy, known).effect.Permit?;
      && (lowered.Ok? <==> Mapped(lowerer, ResidualFacts(Prune(residual))))
      && (lowered.Ok? ==>
            && (Selects(lowerer, lowered.value, row) <==> permitted && ResidualPermits(Prune(residual), known))
            && (NoObligatedFallback(residual) ==> (Selects(lowerer, lowered.value, row) <==> permitted)))
  {
    var residual, known := PartialEvaluate(lattice, policy, partial).residual, FactsOnRow(partial, row);
    FilterLowersIffMapped(lowerer, residual);
    if LowerFilter(lowerer, residual, tenant).Ok? {
      RowDecidesPending(lattice, policy, partial, row);
      FilterYields(lowerer, residual, known, tenant, row);
      PruningKeeps(lattice, policy, partial, known);
      RowCompletes(partial, row, {});
      PermissionPreserved(lattice, policy, partial, known);
      PermissionMeaning(lattice, policy, known);
    }
  }

  lemma FilterYields<O>(
      lowerer: Lowerer<O>, residual: ResidualPolicy<O>, known: KnownFacts, tenant: string, row: Row)
    requires OpaquePredicates(lowerer) && LowerFilter(lowerer, residual, tenant).Ok?
    requires Mapped(lowerer, ResidualFacts(Prune(residual)))
    requires RowDecides(known, row, ResidualFacts(Prune(residual)))
    ensures Selects(lowerer, LowerFilter(lowerer, residual, tenant).value, row) <==>
      row.tenant == Some(tenant) && ResidualPermits(Prune(residual), known)
  {
    var filter, e := LowerFilterNode(lowerer, residual).value, FilterExpr(lowerer, residual);
    FilterSpells(lowerer, residual);
    FilterMeaning(lowerer, residual, known, row);
    GuardYields(lowerer, Lowered(filter, T(NullWord)), e, NullLit, tenant, row);
  }

  // The obligated fallback the lowering skips: where the primary's predicate is not TRUE, direct
  // evaluation still permits through the fallback, and the filter drops the row.
  lemma ObligatedFallbackLosesRows<O>(
      lattice: Lattice<O>, lowerer: Lowerer<O>, outcome: O, fact: FactId, obligation: ObligationId,
      tenant: string, row: Row)
    requires OpaquePredicates(lowerer) && lowerer.projection.Ordinals? && lowerer.predicates(fact).Some?
    requires row.tenant == Some(tenant) && row.truth(fact) != Some(true)
    ensures
      var primary := Clause(outcome, Has(fact), None, Forbidden, [], None);
      var fallback := Clause(outcome, Always, None, Forbidden, [obligation], None);
      var policy := Policy.OrElse(Policy.Grant(primary), Policy.Grant(fallback));
      var partial := map[fact := Unknown];
      var lowered := LowerResult(lowerer, PartialEvaluate(lattice, policy, partial), tenant);
      && Evaluate(lattice, policy, FactsOnRow(partial, row)).effect == Effect.Permit(outcome)
      && lowered.Ok? && !Selects(lowerer, lowered.value.filter, row)
  {
    var primary := Clause(outcome, Has(fact), None, Forbidden, [], None);
    var fallback := Clause(outcome, Always, None, Forbidden, [obligation], None);
    var policy := Policy.OrElse(Policy.Grant(primary), Policy.Grant(fallback));
    var partial: PartialFacts := map[fact := Unknown];
    var known := FactsOnRow(partial, row);
    var constant := ResidualPolicy.PermitWithTrace(outcome, [obligation], [], None);
    var residual := ResidualPolicy.OrElse(ResidualPolicy.Grant(primary), constant);
    FallbackIsDeferred(lattice, primary, fallback, partial);
    RowCompletes(partial, row, {fact});
    assert !Holds(Has(fact), known);
    PermitsByFallback(lattice, policy, known);
    assert LowerNode(lowerer, ResidualPolicy.Grant(primary)).Ok? by {
      assert LowerCondition(lowerer, Has(fact)).Ok?;
    }
    assert CarriesObligation(constant);
    assert Prune(residual) == ResidualPolicy.Grant(primary);
    PendingYields(lowerer, residual, known, tenant, row);
  }

  lemma FallbackIsDeferred<O>(lattice: Lattice<O>, primary: Clause<O>, fallback: Clause<O>, partial: PartialFacts)
    requires primary.condition.Has? && PresenceOf(partial, primary.condition.fact) == Unknown
    requires fallback.condition == Always && fallback.clauseLabel.None?
    ensures
      var reduced := PartialEvaluate(lattice, Policy.OrElse(Policy.Grant(primary), Policy.Grant(fallback)), partial);
      reduced.Pending? && reduced.residual == ResidualPolicy.OrElse(
        ResidualPolicy.Grant(primary),
        ResidualPolicy.PermitWithTrace(fallback.outcome, fallback.obligations, [], None))
  {
    var first := PartialEvaluate(lattice, Policy.Grant(primary), partial);
    var second := PartialEvaluate(lattice, Policy.Grant(fallback), partial);
    assert first == Pending(ResidualPolicy.Grant(primary), []);
    assert ResolvedPermit(second);
  }

  lemma PermitsByFallback<O>(lattice: Lattice<O>, policy: Policy<O>, known: KnownFacts)
    requires policy.OrElse? && policy.primary.Grant? && policy.fallback.Grant?
    requires !Holds(policy.primary.clause.condition, known) && policy.fallback.clause.condition == Always
    ensures Evaluate(lattice, policy, known).effect == Effect.Permit(policy.fallback.clause.outcome)
  {
    ReadingHolds(policy.primary.clause.condition, known);
    assert EvalPolicy(lattice, policy.primary, known).result.effect.Deny?;
    assert EvalPolicy(lattice, policy.fallback, known).result.effect == Effect.Permit(policy.fallback.clause.outcome);
  }

  // A resolved result needs nothing; a pending one must lose neither a fallback nor a denial.
  predicate GradeKept<O>(reduced: Residual<O>) {
    reduced.Pending? ==> NoObligatedFallback(reduced.residual) && TightAlternatives(reduced.residual)
  }

  // On selected rows the grade is the ordinal of the outcome direct evaluation grants; on another
  // tenant's rows it is NULL.
  lemma GradeIsSound<O(!new)>(
      lattice: Lattice<O>, lowerer: Lowerer<O>, policy: Policy<O>, partial: PartialFacts, tenant: string, row: Row)
    requires OpaquePredicates(lowerer) && lowerer.projection.Ordinals?
    requires Regular(lattice) && Ranks(lattice, lowerer.projection.ordinal)
    requires GradeKept(PartialEvaluate(lattice, policy, partial))
    requires LowerResult(lowerer, PartialEvaluate(lattice, policy, partial), tenant).Ok?
    ensures
      var lowered := LowerResult(lowerer, PartialEvaluate(lattice, policy, partial), tenant).value;
      var effect := Evaluate(lattice, policy, FactsOnRow(partial, row)).effect;
      && (Selects(lowerer, lowered.filter, row) ==>
          Yields(lowerer, lowered.grade, row, GradeOf(effect, lowerer.projection.ordinal)))
      && (row.tenant != Some(tenant) ==> Yields(lowerer, lowered.grade, row, Null))
  {
    var reduced, known := PartialEvaluate(lattice, policy, partial), FactsOnRow(partial, row);
    FilterIsSound(lattice, lowerer, policy, partial, tenant, row);
    RowCompletes(partial, row, {});
    CompletionPreservesEffect(lattice, policy, partial, known);
    match reduced
    case Resolved(decision) => ResolvedYields(lowerer, decision, tenant, row);
    case Pending(residual, _) =>
      PruningKeeps(lattice, policy, partial, known);
      RowDecidesPending(lattice, policy, partial, row);
      LoweredIsMapped(lowerer, residual);
      PendingYields(lowerer, residual, known, tenant, row);
      GradeMeaning(lattice, lowerer, residual, known, row);
  }

  // The same two conditions can be asked of the policy before anything is known.
  lemma PolicyKeepsGrade<O>(lattice: Lattice<O>, policy: Policy<O>, partial: PartialFacts)
    requires FallbacksUnobliged(policy) && TightPolicyAlternatives(policy)
    ensures GradeKept(PartialEvaluate(lattice, policy, partial))
  {
    if PartialEvaluate(lattice, policy, partial).Pending? {
      PendingUnobliged(lattice, policy, partial);
      PendingTightAlternatives(lattice, policy, partial);
    }
  }

  // ----- an `all` below an `any` -----

  // A denied multi-arm `all` keeps the grade of its permitting arm; under an `any` that grade wins
  // although the row was granted less.
  lemma DeniedArmCanWin<O(!new)>(
      lattice: Lattice<O>, lowerer: Lowerer<O>, high: Clause<O>, blocked: Clause<O>, low: Clause<O>,
      known: KnownFacts, row: Row)
    requires lowerer.projection.Ordinals? && Ranks(lattice, lowerer.projection.ordinal)
    requires lowerer.projection.ordinal(low.outcome) < lowerer.projection.ordinal(high.outcome)
    requires Holds(high.condition, known) && !Holds(blocked.condition, known) && Holds(low.condition, known)
    requires Lowerable(lowerer, ResidualPolicy.Grant(high), known, row)
    requires Lowerable(lowerer, ResidualPolicy.Grant(blocked), known, row)
    requires Lowerable(lowerer, ResidualPolicy.Grant(low), known, row)
    ensures
      var both := ResidualPolicy.All([ResidualPolicy.Grant(high), ResidualPolicy.Grant(blocked)]);
      var policy := ResidualPolicy.Any([both, ResidualPolicy.Grant(low)]);
      && !Tight(both)
      && OutcomeOnRow(lattice, policy, known) == Effect.Permit(low.outcome)
      && Eval(lowerer.backend, GradeExpr(lowerer, policy), row) == Int(lowerer.projection.ordinal(high.outcome))
      && !GradeIsOutcome(lattice, lowerer, policy, known, row)
  {
    var grants := [ResidualPolicy.Grant(high), ResidualPolicy.Grant(blocked)];
    var arms := [ResidualPolicy.All(grants), ResidualPolicy.Grant(low)];
    GrantGrade(lowerer, high, known, row);
    GrantGrade(lowerer, blocked, known, row);
    GrantGrade(lowerer, low, known, row);
    var ordinal := lowerer.projection.ordinal;
    SetGrade(lowerer, grants, true, row);
    assert ArmGrades(lowerer, grants, row) == [Int(ordinal(high.outcome)), Null];
    PairExtremum(true, Int(ordinal(high.outcome)), Null);
    SetGrade(lowerer, arms, false, row);
    assert ArmGrades(lowerer, arms, row) == [Int(ordinal(high.outcome)), Int(ordinal(low.outcome))];
    PairExtremum(false, Int(ordinal(high.outcome)), Int(ordinal(low.outcome)));
    LeastArmOutcome(lattice, high, blocked, low, known);
  }

  lemma LeastArmOutcome<O>(
      lattice: Lattice<O>, high: Clause<O>, blocked: Clause<O>, low: Clause<O>, known: KnownFacts)
    requires !Holds(blocked.condition, known) && Holds(low.condition, known)
    ensures
      var both := ResidualPolicy.All([ResidualPolicy.Grant(high), ResidualPolicy.Grant(blocked)]);
      OutcomeOnRow(lattice, ResidualPolicy.Any([both, ResidualPolicy.Grant(low)]), known) == Effect.Permit(low.outcome)
  {
    var grants := [ResidualPolicy.Grant(high), ResidualPolicy.Grant(blocked)];
    var arms := [ResidualPolicy.All(grants), ResidualPolicy.Grant(low)];
    assert NoObligatedFallback(arms[0]) && NoObligatedFallback(arms[1]);
    PruningIsIdentityIff(ResidualPolicy.Any(arms));
    assert Prune(ResidualPolicy.Any(arms)) == ResidualPolicy.Any(arms);
    assert !ResidualPermits(grants[1], known);
    ResidualPermissionMeaning(lattice, arms[0], known);
    ResidualPermissionMeaning(lattice, arms[1], known);
    var evaluated := EvalResiduals(lattice, arms, known);
    assert evaluated == [evaluated[0], evaluated[1]];
    ReadingHolds(low.condition, known);
    OnlySecondPermits(lattice, evaluated[0], evaluated[1]);
  }

  lemma OnlySecondPermits<O>(lattice: Lattice<O>, first: Arm<O>, second: Arm<O>)
    requires first.result.effect.Deny? && second.result.effect.Permit?
    ensures AnyOfArms(lattice, [first, second]).result.effect == second.result.effect
  {
    var arms := [first, second];
    assert arms[..1] == [first] && arms[..1][..0] == [];
    assert FoldPermits(lattice, ByJoin, arms[..1][..0]) == None;
    assert FoldPermits(lattice, ByJoin, arms[..1]) == None;
    assert FoldPermits(lattice, ByJoin, arms) == Some(PermitOf(second.result));
  }

  lemma PendingLists<O>(first: Residual<O>, second: Residual<O>)
    requires first.Pending? && second.Pending?
    ensures PendingResiduals([first, second]) == [first.residual, second.residual]
    ensures ResolvedPermits([first, second]) == []
  {
    var arms := [first, second];
    assert arms[..1] == [first] && arms[..1][..0] == [];
    assert PendingResiduals(arms[..1][..0]) == [] && ResolvedPermits(arms[..1][..0]) == [];
    assert PendingResiduals(arms[..1]) == [first.residual];
    assert ResolvedPermits(arms[..1]) == [];
  }

  lemma PendingPair<O>(lattice: Lattice<O>, left: Policy<O>, right: Policy<O>, partial: PartialFacts)
    requires PartialEvaluate(lattice, left, partial).Pending? && PartialEvaluate(lattice, right, partial).Pending?
    ensures
      var first, second := PartialEvaluate(lattice, left, partial), PartialEvaluate(lattice, right, partial);
      var both := PartialEvaluate(lattice, Policy.All([left, right]), partial);
      var either := PartialEvaluate(lattice, Policy.Any([left, right]), partial);
      && both.Pending? && both.residual == ResidualPolicy.All([first.residual, second.residual])
      && either.Pending? && either.residual == ResidualPolicy.Any([first.residual, second.residual])
  {
    var first, second := PartialEvaluate(lattice, left, partial), PartialEvaluate(lattice, right, partial);
    var arms := PartialEvaluateArms(lattice, [left, right], partial);
    assert arms == [first, second];
    PendingLists(first, second);
    assert arms[0].Pending? && arms[1].Pending?;
    assert [] + PendingResiduals(arms) == PendingResiduals(arms);
  }

  function Needing<O>(outcome: O, fact: FactId): Clause<O> {
    Clause(outcome, Has(fact), None, Forbidden, [], None)
  }

  // `any [all [high on the first, high on the second], low on the third]`, and its residual when all
  // three facts are deferred.
  function Trio<O>(high: O, low: O, first: FactId, second: FactId, third: FactId): Policy<O> {
    var both := Policy.All([Policy.Grant(Needing(high, first)), Policy.Grant(Needing(high, second))]);
    Policy.Any([both, Policy.Grant(Needing(low, third))])
  }

  function TrioResidual<O>(high: O, low: O, first: FactId, second: FactId, third: FactId): ResidualPolicy<O> {
    var both := ResidualPolicy.All([
      ResidualPolicy.Grant(Needing(high, first)), ResidualPolicy.Grant(Needing(high, second))]);
    ResidualPolicy.Any([both, ResidualPolicy.Grant(Needing(low, third))])
  }

  lemma TrioIsDeferred<O>(lattice: Lattice<O>, high: O, low: O, first: FactId, second: FactId, third: FactId)
    ensures
      var partial := map[first := Unknown, second := Unknown, third := Unknown];
      var reduced := PartialEvaluate(lattice, Trio(high, low, first, second, third), partial);
      reduced.Pending? && reduced.residual == TrioResidual(high, low, first, second, third)
  {
    var partial: PartialFacts := map[first := Unknown, second := Unknown, third := Unknown];
    var arms := Trio(high, low, first, second, third).arms;
    PendingPair(lattice, arms[0].arms[0], arms[0].arms[1], partial);
    PendingPair(lattice, arms[0], arms[1], partial);
  }

  lemma TrioIsUnpruned<O>(high: O, low: O, first: FactId, second: FactId, third: FactId)
    ensures var residual := TrioResidual(high, low, first, second, third);
      && Prune(residual) == residual
      && ResidualFacts(residual) == {first, second, third}
  {
    var arms := TrioResidual(high, low, first, second, third).arms;
    var both := arms[0].arms;
    assert NoObligatedFallback(arms[0]) && NoObligatedFallback(arms[1]);
    PruningIsIdentityIff(ResidualPolicy.Any(arms));
    forall f ensures f in ResidualFacts(ResidualPolicy.Any(arms)) <==> f in {first, second, third} {
      assert f in ResidualFacts(arms[0]) <==> f == first || f == second by {
        assert f in ResidualFacts(both[0]) <==> f == first;
        assert f in ResidualFacts(both[1]) <==> f == second;
      }
      assert f in ResidualFacts(arms[1]) <==> f == third;
    }
  }

  lemma TrioYields<O(!new)>(
      lattice: Lattice<O>, lowerer: Lowerer<O>, high: O, low: O, first: FactId, second: FactId, third: FactId,
      known: KnownFacts, tenant: string, row: Row)
    requires OpaquePredicates(lowerer) && lowerer.projection.Ordinals?
    requires Ranks(lattice, lowerer.projection.ordinal)
    requires lowerer.projection.ordinal(low) < lowerer.projection.ordinal(high)
    requires Mapped(lowerer, {first, second, third}) && RowDecides(known, row, {first, second, third})
    requires row.tenant == Some(tenant)
    requires row.truth(first) == Some(true) && row.truth(second) != Some(true) && row.truth(third) == Some(true)
    ensures
      var lowered := Lower(lowerer, TrioResidual(high, low, first, second, third), tenant);
      && lowered.Ok? && Selects(lowerer, lowered.value.filter, row)
      && Yields(lowerer, lowered.value.grade, row, Int(lowerer.projection.ordinal(high)))
  {
    var residual := TrioResidual(high, low, first, second, third);
    TrioIsUnpruned(high, low, first, second, third);
    MappedLowers(lowerer, residual);
    assert ResidualPermits(residual.arms[1], known);
    DeniedArmCanWin(
      lattice, lowerer, Needing(high, first), Needing(high, second), Needing(low, third), known, row);
    PendingYields(lowerer, residual, known, tenant, row);
  }

  lemma MappedLowers<O>(lowerer: Lowerer<O>, residual: ResidualPolicy<O>)
    requires lowerer.projection.Ordinals? && Mapped(lowerer, ResidualFacts(Prune(residual)))
    ensures LowerNode(lowerer, residual).Ok?
  {
    FilterLowersIffMapped(lowerer, residual);
    SameFilterOnBothPaths(lowerer, residual);
  }

  lemma LeastArmEvaluates<O>(
      lattice: Lattice<O>, high: Clause<O>, blocked: Clause<O>, low: Clause<O>, known: KnownFacts)
    requires !Holds(blocked.condition, known) && Holds(low.condition, known)
    ensures
      var policy := Policy.Any([Policy.All([Policy.Grant(high), Policy.Grant(blocked)]), Policy.Grant(low)]);
      Evaluate(lattice, policy, known).effect == Effect.Permit(low.outcome)
  {
    var grants := [Policy.Grant(high), Policy.Grant(blocked)];
    var arms := [Policy.All(grants), Policy.Grant(low)];
    assert !PolicyPermits(grants[1], known);
    PermissionMeaning(lattice, arms[0], known);
    var evaluated := EvalPolicies(lattice, arms, known);
    assert evaluated == [evaluated[0], evaluated[1]];
    ReadingHolds(low.condition, known);
    OnlySecondPermits(lattice, evaluated[0], evaluated[1]);
  }

  // So the emitted text selects a row and grades it above what direct evaluation grants.
  lemma DeniedArmWinsInTheText<O(!new)>(
      lattice: Lattice<O>, lowerer: Lowerer<O>, high: O, low: O, first: FactId, second: FactId, third: FactId,
      tenant: string, row: Row)
    requires OpaquePredicates(lowerer) && lowerer.projection.Ordinals?
    requires Ranks(lattice, lowerer.projection.ordinal)
    requires lowerer.projection.ordinal(low) < lowerer.projection.ordinal(high)
    requires Mapped(lowerer, {first, second, third}) && row.tenant == Some(tenant)
    requires row.truth(first) == Some(true) && row.truth(second) != Some(true) && row.truth(third) == Some(true)
    ensures
      var policy := Trio(high, low, first, second, third);
      var partial := map[first := Unknown, second := Unknown, third := Unknown];
      var lowered := LowerResult(lowerer, PartialEvaluate(lattice, policy, partial), tenant);
      && Evaluate(lattice, policy, FactsOnRow(partial, row)).effect == Effect.Permit(low)
      && lowered.Ok? && Selects(lowerer, lowered.value.filter, row)
      && Yields(lowerer, lowered.value.grade, row, Int(lowerer.projection.ordinal(high)))
  {
    var partial: PartialFacts := map[first := Unknown, second := Unknown, third := Unknown];
    var known := FactsOnRow(partial, row);
    RowCompletes(partial, row, {first, second, third});
    TrioIsDeferred(lattice, high, low, first, second, third);
    LeastArmEvaluates(
      lattice, Needing(high, first), Needing(high, second), Needing(low, third), known);
    TrioYields(lattice, lowerer, high, low, first, second, third, known, tenant, row);
  }
}
