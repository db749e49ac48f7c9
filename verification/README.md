# Gatekeep policy pipeline: a verified model

Gatekeep decides whether a request may proceed. A policy is a tree of grants over an outcome lattice;
it is evaluated against facts to a decision, evaluated partially when some facts are only known to the
database, completed later, or lowered to a SQL filter and a SQL grade. Every decision is frozen into an
audit entry before anything may act on it, and an entry can be replayed. This project models that
pipeline in Dafny and proves that its readings of one policy agree, and that the evidence chain around
them cannot be broken by any answer of the clock, the resolvers or the sink.

`dafny verify dfyconfig.toml` checks everything.

## How the model is organised

| files | what they hold |
|---|---|
| `Facts`, `Policies`, `Wrappers` | presences and fact bundles, conditions, policies, residual policies, decisions, lattice laws |
| `Consulting`, `Conditions`, `Evaluation`, `EvaluationLoops` | the evaluator: its loops over a shared mutable consulted list, against pure functions |
| `Semantics`, `Outcomes`, `DecisiveClauses` | what evaluation means: permission, bounds, locality, evidence, monotonicity, and which grant a decision reports |
| `ConditionReduction`, `PartialEvaluation` | the partial evaluator and its loops |
| `PartialProofs`, `PartialPermission`, `PartialExactness`, `PartialObligations`, `ObligationTies` | what partial evaluation preserves |
| `Openness`, `DecisiveEvidence`, `CompletionEvidence`, `CompletedClauses` | when a pending result is genuinely undecided, what it consulted, and the evidence and clause of completed decisions |
| `SqlSyntax`, `SqlMeaning` | SQL tokens, a printer, a parser with SQL precedence, three-valued evaluation on a row |
| `Fragments`, `Lowering` | the mutable fragment builder, placeholder rendering, and the lowering |
| `LoweringSyntax`, `LoweringMeaning`, `LoweringGrades`, `EndToEnd` | the lowered text read back, what it selects, how it grades, and policy to rows |
| `FactSets`, `Denials`, `Observations`, `Contexts`, `Audit` | required facts, denial reasons, resolver evidence, tenant bindings, audit entries |
| `Authorization`, `AuthorizationRuns`, `AuthorizationOutcomes`, `Replay` | the authorizer object, all its runs, exactly when it succeeds, and replay of frozen entries |
| `Identities`, `Arithmetic`, `Decimals`, `Subjects`, `Inspection` | byte-level static identifiers, subject encoding, the explicit-stack inspector |

Outcomes are an abstract type; lattice laws are predicates assumed exactly where they are needed.
Effects need only commutative, associative meet and join (`Regular`). Loops of the program are methods
proved equal to functions, and the lemmas are about those functions. Objects the program changes in
place (the consulted list, the fragment, the fact set, the inspection, the authorizer) are classes.
SQL is modelled on tokens: an application predicate is an opaque run of tokens led by its own fact,
whose value on a row is one of TRUE, FALSE and NULL (section 8.12 of SQL-92, ISO/IEC 9075:1992).

Calls out of the program are parameters: clock readings, fresh identities, resolver and bulk-resolver
answers and sink failures are arbitrary functions of how often each was asked; policy hashes, fact
digests and outcome serialization are arbitrary partial functions.

## Where the code stops short of what one might expect

These are properties of the code, each with a concrete input and the condition under which it holds.

- `reduce_all` moves resolved permits in front of pending arms. The effect cannot change
  (`EffectPreserved`), but obligations can: `ObligationsCanChangeUnderAll`. For two grants they do
  exactly when the tied outcomes carry different sets (`TwoGrantsKeepObligationsIff`). Over a chain, any
  one `all` keeps its set exactly when the arm it speaks for, resolved arms first, carries the set of
  the first lowest arm in source order (`AllPolicyKeepsObligationsIff`), and a whole policy does when
  no resolved permit can tie with an earlier pending arm of other obligations (`ObligationsPreserved`).
- Partial evaluation of conditions is strong Kleene logic (`ReductionIsKleene`), so a condition that
  every completion satisfies can stay pending: `ReductionIsNotSupervaluation`. It takes an unknown fact
  asked twice: otherwise pending is exactly "two completions differ" (`PendingIffCompletionsDiffer`), and
  for the permission of a policy likewise (`PolicyOpenIffCompletionsDiffer`).
- The filter skips a fallback that carries an obligation, so it can drop rows that direct evaluation
  permits: `ObligatedFallbackLosesRows`. Lowering changes a residual exactly when some fallback does
  (`PruningIsIdentityIff`). A row is selected exactly when direct evaluation permits and the pruned
  residual still does, so nothing is lost once reduction has left no obligated fallback (`FilterIsSound`).
- A denied multi-arm `all` keeps a non-NULL grade, which an enclosing `any` can pick up:
  `DeniedArmCanWin`, and `DeniedArmWinsInTheText` from policy to emitted text. `AnyGradeIsRightIff` is the exact condition for one `any`; `Tight` is a condition
  on the policy that always ensures it.
- A fallback's outcome can be higher than the primary's, so more facts can lower an outcome:
  `FallbackCanLower`. A grant with a constant fallback never drops exactly when the constant is below it
  (`FallbackNeverLowersIff`); one fallback drops exactly when the primary starts to permit, no higher
  (`OrElseDropsIff`); a policy never drops if all a fallback can grant is below all its primary can
  (`MoreFactsNeverLower`).
- A grant resolved by an absent fact can be blamed on an unknown one that nothing consulted:
  `UnknownFactTakesTheBlame`. A resolved result cites only consulted facts exactly when it cites nothing
  unknown (`DecisiveFactsConsultedIffKnown`); direct evaluation always does (`DecisiveFactsWereConsulted`).
- A denial already certain goes in front of pending arms, so a completed denial can be blamed on another
  grant than direct evaluation blames: `CompletionCanBlameAnother`. Which one is exact on both sides:
  `DecisionReportsItsGrant` and `CompletionReports`.

## Model

| member | source | states |
|---|---|---|
| Consulting.ConsultedList.Record | crates/gatekeep/src/evaluate.rs:83-88 | a presence is appended only on the first read of its fact |
| Consulting.ConsultedList.Extend | crates/gatekeep/src/partial.rs:70-74 | merging another list records its entries one by one, in order |
| Consulting.ExtendedMerged | crates/gatekeep/src/partial.rs:60-79 | merging lists that were already merged is the same as threading one list through all reads |
| Consulting.ExtendedNoDuplicates | crates/gatekeep/src/evaluate.rs:80-93 | no fact is ever listed twice |
| Conditions.EvaluateCondition | crates/gatekeep/src/evaluate.rs:398-430 | the recursion over the shared list computes truth, decisive facts and reads |
| Conditions.EvaluateConditionArms | crates/gatekeep/src/evaluate.rs:432-488 | both condition loops stop at the first settling arm, keeping only its decisive facts |
| Conditions.ReadingHolds | crates/gatekeep/src/evaluate.rs:398-488 | the computed truth is the condition's meaning; an empty `all` is false like an empty `any` |
| Conditions.ReadingLocal | crates/gatekeep/src/evaluate.rs:398-488 | a reading depends on nothing but the condition's own facts |
| Conditions.ReadingFaithful | crates/gatekeep/src/evaluate.rs:398-488 | every read is of a fact of the condition at its true presence, and the decisive facts are among the reads |
| Conditions.DecisiveFactsCertify | crates/gatekeep/src/evaluate.rs:398-488 | any facts agreeing on the decisive ones give the condition the same truth |
| Conditions.MoreFactsHold | crates/gatekeep/src/evaluate.rs:398-488 | without negation, more present facts never falsify a condition |
| EvaluationLoops.EvaluateToDecision | crates/gatekeep/src/evaluate.rs:12-25 | evaluation with a fresh consulted list gives the specified decision |
| EvaluationLoops.EvaluateResidualToDecision | crates/gatekeep/src/evaluate.rs:27-41 | the same for residual policies |
| EvaluationLoops.RunPolicy | crates/gatekeep/src/evaluate.rs:108-154 | result and appended reads of one policy, whatever was consulted before |
| EvaluationLoops.RunResidual | crates/gatekeep/src/evaluate.rs:156-237 | result and appended reads of one residual policy, constants reading nothing |
| EvaluationLoops.RunGrant | crates/gatekeep/src/evaluate.rs:239-268 | a grant permits with its obligations or denies with its reason, citing the decisive facts |
| EvaluationLoops.RunAll | crates/gatekeep/src/evaluate.rs:337-361 | the `all` loop stops at the first denial, otherwise folds permits by meet from the left |
| EvaluationLoops.RunAny | crates/gatekeep/src/evaluate.rs:363-396 | the `any` loop reads every arm, folds permits by join, else keeps the first denial |
| EvaluationLoops.RunResidualAll | crates/gatekeep/src/evaluate.rs:337-361 | the same `all` loop over residual arms |
| EvaluationLoops.RunResidualAny | crates/gatekeep/src/evaluate.rs:363-396 | the same `any` loop over residual arms |
| EvaluationLoops.UnionInto | crates/gatekeep/src/evaluate.rs:504-510 | appends exactly the obligations not yet present |
| Semantics.PermissionMeaning | crates/gatekeep/src/evaluate.rs:108-154 | whether evaluation permits depends on the conditions alone: all arms, some arm, or primary or fallback |
| Semantics.ResidualPermissionMeaning | crates/gatekeep/src/evaluate.rs:156-237 | the same for residual policies |
| Semantics.EvaluationCoherent | crates/gatekeep/src/evaluate.rs:239-335 | the decisive clause states the effect and its outcome, and denials carry no obligations |
| Semantics.DecisionDependsOnRequiredFacts | crates/gatekeep/src/evaluate.rs:43-49 | facts agreeing on the required ones give the same decision in every field |
| Semantics.ConsultedEvidence | crates/gatekeep/src/evaluate.rs:80-93 | consulted facts are required ones, each once, at the presence the facts give them |
| Semantics.MoreFactsPermit | crates/gatekeep/src/evaluate.rs:108-154 | without negation, more present facts never turn a permit into a denial |
| DecisiveClauses.DecisionReportsItsGrant | crates/gatekeep/src/evaluate.rs:239-396 | a denial reports outcome, label, reason and shape of the policy's own grant it is blamed on, or the generic denial; a permit reports a grant that holds, a constant or a merger |
| Outcomes.AllIsGreatestLowerBound | crates/gatekeep/src/evaluate.rs:286-361 | an `all` permit carries the greatest outcome below every arm's |
| Outcomes.AnyIsLeastUpperBound | crates/gatekeep/src/evaluate.rs:298-396 | an `any` permit carries the least outcome above every permitting arm's |
| Outcomes.AllFolds | crates/gatekeep/src/evaluate.rs:337-361 | stopping early gives the same effect as meeting all arms, denial absorbing |
| Outcomes.AnyFolds | crates/gatekeep/src/evaluate.rs:363-396 | the effect of an `any` is the join of its arms, denial as identity |
| Outcomes.GrantsUnderCeiling | crates/gatekeep/src/evaluate.rs:286-396 | whatever the facts, a policy grants nothing above the bound its own outcomes give |
| Outcomes.GrantsOverFloor | crates/gatekeep/src/evaluate.rs:286-396 | whatever the facts, a policy grants nothing below the bound its own outcomes give |
| Outcomes.OrElseDropsIff | crates/gatekeep/src/evaluate.rs:108-154 | one fallback lowers the outcome exactly when the primary starts to permit at an outcome not above the fallback's |
| Outcomes.MoreFactsNeverLower | crates/gatekeep/src/evaluate.rs:286-396 | without negation, and with each fallback below its primary, more present facts never lower the outcome |
| Outcomes.FallbackCanLower | crates/gatekeep/src/evaluate.rs:108-154 | with a higher fallback they can: a policy and two fact bundles |
| Outcomes.FallbackNeverLowersIff | crates/gatekeep/src/evaluate.rs:108-154 | a grant on one fact with a constant fallback never drops exactly when the constant is below the grant |
| ConditionReduction.Reduce | crates/gatekeep/src/partial.rs:319-370 | the condition reducer computes truth or residual, with its consulted list |
| ConditionReduction.ReduceArms | crates/gatekeep/src/partial.rs:372-492 | both reducer loops: a settling known arm wins even after pending ones, whose residuals keep their order |
| ConditionReduction.ReductionIsKleene | crates/gatekeep/src/partial.rs:319-492 | the result is exactly strong Kleene logic with empty sets false |
| ConditionReduction.ReductionAgrees | crates/gatekeep/src/partial.rs:319-492 | under every completion the residual has the truth of the original |
| ConditionReduction.ResidualAsksOnlyUnknown | crates/gatekeep/src/partial.rs:319-492 | a residual names at least one fact, and only unknown facts of the original |
| ConditionReduction.ReductionExact | crates/gatekeep/src/partial.rs:319-492 | with nothing unknown, truth and consulted list are those of evaluation |
| ConditionReduction.ReductionIsNotSupervaluation | crates/gatekeep/src/partial.rs:433-492 | a disjunction every completion satisfies can stay pending |
| Openness.PendingIffCompletionsDiffer | crates/gatekeep/src/partial.rs:319-492 | if two completions differ the condition stays pending; and only then, where it or its residual asks no unknown fact twice |
| Openness.ReductionReports | crates/gatekeep/src/partial.rs:93-317 | a resolved policy has the Kleene truth of its permission; a pending one is never certain to deny |
| Openness.PolicyOpenIffCompletionsDiffer | crates/gatekeep/src/partial.rs:93-317 | a read-once policy is pending and uncertain exactly when two completions differ on permission |
| PartialEvaluation.Reduce | crates/gatekeep/src/partial.rs:93-150 | the reducer equals its functional specification, skipping the fallback of a resolved permit |
| PartialEvaluation.ReduceAllLoop | crates/gatekeep/src/partial.rs:152-201 | a resolved denial pre-empts pending arms; resolved permits go first |
| PartialEvaluation.ReduceAnyLoop | crates/gatekeep/src/partial.rs:203-258 | resolved denials are dropped unless nothing else resolved, when the first is kept |
| PartialProofs.RebuiltConstant | crates/gatekeep/src/partial.rs:494-525 | a constant rebuilt from a decision evaluates back to it and reads nothing |
| PartialProofs.SplitMeet | crates/gatekeep/src/partial.rs:152-201 | moving resolved permits in front of pending arms keeps the meet |
| PartialProofs.SplitJoin | crates/gatekeep/src/partial.rs:203-258 | dropping denials and moving permits forward keeps the join |
| PartialProofs.EffectPreserved | crates/gatekeep/src/partial.rs:22-49 | completing a partial result gives the effect of direct evaluation, for every completion |
| PartialProofs.ReductionCoherent | crates/gatekeep/src/partial.rs:93-317 | every resolved partial result states its effect in its decisive clause |
| PartialPermission.PermissionPreserved | crates/gatekeep/src/partial.rs:93-317 | who is permitted never changes, with no law assumed of the outcomes |
| PartialPermission.PendingAsksOnlyUnknown | crates/gatekeep/src/partial.rs:93-317 | a pending policy requires a non-empty set of facts, each unknown and required by the original |
| PartialExactness.ExactWhenNothingIsUnknown | crates/gatekeep/src/partial.rs:93-525 | with nothing required unknown, the result is resolved and equals evaluation in every field and order |
| PartialObligations.TwoPermitsUnderAny | crates/gatekeep/src/evaluate.rs:298-314 | two permits joined, comparable or not: whose obligations stay, in which order, and which clause is cited |
| PartialObligations.TwoPermitsUnderAll | crates/gatekeep/src/evaluate.rs:286-296 | two permits met: the first with the met outcome speaks; an incomparable pair owes nothing |
| PartialObligations.WinningObligations | crates/gatekeep/src/evaluate.rs:298-314 | over a chain, an `any` carries exactly the obligations of the arms at the winning outcome |
| PartialObligations.ResidualUnobliged | crates/gatekeep/src/policy_model.rs:247-261 | a residual that carries no obligation never yields one |
| PartialObligations.ReductionAddsNone | crates/gatekeep/src/partial.rs:93-317 | reducing a policy without obligations yields none |
| ObligationTies.MeetKeepsFirstLowest | crates/gatekeep/src/evaluate.rs:286-361 | over a chain, a meet of permits is the first arm at the lowest outcome, with its obligations and trace |
| ObligationTies.CompletedAllIsChosen | crates/gatekeep/src/partial.rs:152-201 | a completed `all` is the first lowest arm of resolved permits followed by pending arms |
| ObligationTies.AllPolicyKeepsObligationsIff | crates/gatekeep/src/partial.rs:152-201 | an `all` keeps its obligations exactly when that arm carries the set of the first lowest arm in source order |
| ObligationTies.ObligationsPreserved | crates/gatekeep/src/partial.rs:22-49 | over a chain, where no tie under an `all` tells arms apart, completion keeps the set of obligations |
| ObligationTies.UnobligedKeepsTies | crates/gatekeep/src/partial.rs:152-201 | policies without obligations under any `all` have no such tie |
| ObligationTies.ObligationsCanChangeUnderAll | crates/gatekeep/src/partial.rs:195-198 | under an `all` a tie can swap one obligation for another |
| ObligationTies.TwoGrantsKeepObligationsIff | crates/gatekeep/src/partial.rs:152-201 | a pending grant before a resolved one keeps the obligations exactly when it denies, the outcomes differ or the sets agree |
| DecisiveEvidence.DecisiveFactsWereConsulted | crates/gatekeep/src/evaluate.rs:239-268 | directly evaluated, every fact of the decisive clause was consulted |
| DecisiveEvidence.DecisiveFactsConsultedIffKnown | crates/gatekeep/src/partial.rs:106-129 | a resolved result consulted a fact of its decisive clause exactly when that fact was known |
| DecisiveEvidence.UnknownFactTakesTheBlame | crates/gatekeep/src/partial.rs:106-129 | an absent fact settles a grant whose denial then cites an unknown, unconsulted fact |
| CompletionEvidence.PolicyConsultsVisited | crates/gatekeep/src/partial.rs:93-492 | a partial result, resolved or pending, consulted exactly the known facts among those the reducer looks at |
| CompletionEvidence.ConsultedCertifiesPartial | crates/gatekeep/src/partial.rs:93-525 | facts that keep the consulted ones and leave the unknown ones unknown give the same partial result |
| CompletionEvidence.CompletedConsulted | crates/gatekeep/src/partial.rs:38-49 | the completed list starts with the partial result's own, adds exactly what the residual read, names each fact once and accurately |
| CompletionEvidence.CompletedCitesConsulted | crates/gatekeep/src/partial.rs:537-548 | a completed decision consulted every fact of its decisive clause that partial evaluation knew |
| CompletedClauses.CompletionReports | crates/gatekeep/src/partial.rs:152-317 | a completed denial reports the first certain denial of a set, else the arm that denies after all |
| CompletedClauses.CompletedBlamedIsOwn | crates/gatekeep/src/partial.rs:494-525 | the grant blamed is the policy's own and its condition does not hold |
| CompletedClauses.CompletionCanBlameAnother | crates/gatekeep/src/partial.rs:253-257 | a pending arm before a certain denial: direct evaluation blames the first, completion the second |
| SqlSyntax.GuardedReadsBack | crates/gatekeep-sqlx/src/fragment.rs:168-214 | what the builders parenthesise, SQL precedence reads back as the same expression in any context |
| SqlSyntax.PrintedIsParsed | crates/gatekeep-sqlx/src/fragment.rs:168-214 | the whole printed sequence parses to the expression printed |
| Fragments.SqlxFragment.PushFragment | crates/gatekeep-sqlx/src/fragment.rs:156-159 | appends all parts of the other fragment |
| Fragments.SqlxFragment.Wrapped | crates/gatekeep-sqlx/src/fragment.rs:168-174 | one pair of parentheses around the parts |
| Fragments.Unary | crates/gatekeep-sqlx/src/fragment.rs:176-181 | the prefix, then the parenthesised operand |
| Fragments.Binary | crates/gatekeep-sqlx/src/fragment.rs:183-196 | every operand parenthesised, separators between them, FALSE for none |
| Fragments.Function | crates/gatekeep-sqlx/src/fragment.rs:198-214 | name, parenthesis, comma-separated arguments |
| Fragments.CaseWhen | crates/gatekeep-sqlx/src/lib.rs:546-559 | the parts of a two-way CASE |
| Fragments.NullSafeGradePair | crates/gatekeep-sqlx/src/lib.rs:520-537 | the parts of the CASE that lets a NULL grade give way |
| Fragments.GradeSet | crates/gatekeep-sqlx/src/lib.rs:498-518 | NULL, the single grade, a left chain of pairs, or one call, by count and backend |
| Fragments.ToSql | crates/gatekeep-sqlx/src/fragment.rs:223-238 | each bind renders as the placeholder of its own position among the binds |
| Fragments.PlaceholderReads | crates/gatekeep-sqlx/src/fragment/backend.rs:88-91 | read as a number, a PostgreSQL placeholder is the one-based position of its bind; elsewhere it is a question mark |
| Fragments.PlaceholderNamesItsBind | crates/gatekeep-sqlx/src/fragment.rs:149-154 | the k-th placeholder stands where the k-th bind does |
| Fragments.PostgresPlaceholdersDistinct | crates/gatekeep-sqlx/src/fragment/backend.rs:88-91 | numbered placeholders never coincide |
| LoweringSyntax.ConditionSpells | crates/gatekeep-sqlx/src/lib.rs:295-327 | the tokens of a lowered condition spell the intended expression |
| LoweringSyntax.FilterSpells | crates/gatekeep-sqlx/src/lib.rs:259-293 | the tokens of a lowered filter spell the intended expression |
| LoweringSyntax.NodeSpells | crates/gatekeep-sqlx/src/lib.rs:375-442 | filter and grade of a lowered node spell the intended expressions |
| LoweringSyntax.GuardSpells | crates/gatekeep-sqlx/src/lib.rs:335-354 | the tenant guards spell the intended expressions |
| LoweringMeaning.FilterLowersIffMapped | crates/gatekeep-sqlx/src/lib.rs:240-257 | lowering succeeds exactly when every fact of the pruned residual is mapped; an error names an unmapped one |
| LoweringMeaning.SameFilterOnBothPaths | crates/gatekeep-sqlx/src/lib.rs:240-293 | lowering the filter alone or with grades gives the same filter or the same error |
| LoweringMeaning.ConditionMeaning | crates/gatekeep-sqlx/src/lib.rs:295-327 | a lowered condition is never NULL: it is the condition with each fact read as predicate IS TRUE |
| LoweringMeaning.FilterMeaning | crates/gatekeep-sqlx/src/lib.rs:259-293 | a lowered filter is never NULL and selects exactly what the pruned residual permits |
| LoweringMeaning.PruningRestricts | crates/gatekeep-sqlx/src/lib.rs:248-254 | skipping obligated fallbacks never permits more |
| LoweringMeaning.PruningIsIdentityIff | crates/gatekeep-sqlx/src/lib.rs:248-254 | skipping changes a residual exactly when some fallback carries an obligation |
| LoweringMeaning.TenantGuardMeaning | crates/gatekeep-sqlx/src/lib.rs:335-354 | the guarded filter is TRUE only on the tenant's own rows; elsewhere the guarded grade is NULL |
| LoweringMeaning.UngradedResultLowersIff | crates/gatekeep-sqlx/src/lib.rs:204-233 | without ordinals, lowering succeeds exactly when nothing can be granted |
| LoweringGrades.NamesAreRead | crates/gatekeep-sqlx/src/fragment/backend.rs:84-134 | the emitted function names are those the database reads as lowest and highest |
| LoweringGrades.PropagatesNullIff | crates/gatekeep-sqlx/src/fragment/backend.rs:86-135 | grades are combined pairwise exactly where a NULL argument would swallow the call |
| LoweringGrades.ChainIsNullIgnoring | crates/gatekeep-sqlx/src/lib.rs:498-537 | the CASE chain computes the NULL-ignoring least or greatest on every backend |
| LoweringGrades.GradeSetMeaning | crates/gatekeep-sqlx/src/lib.rs:498-518 | all three backends grade a set alike |
| LoweringGrades.TightOffFilter | crates/gatekeep-sqlx/src/lib.rs:375-442 | a tight residual's grade is NULL wherever its filter is not TRUE |
| LoweringGrades.GradeMeaning | crates/gatekeep-sqlx/src/lib.rs:375-442 | where the filter is TRUE the grade is the ordinal of the pruned residual's outcome, if every `any` arm is tight |
| LoweringGrades.AnyGradeIsRightIff | crates/gatekeep-sqlx/src/lib.rs:413-419 | an `any` is graded right exactly when no denied arm's grade exceeds the winning ordinal |
| EndToEnd.FilterIsSound | crates/gatekeep-sqlx/src/lib.rs:204-257 | a row is selected exactly when it is the tenant's, direct evaluation on its facts permits and pruning keeps the permit; with no obligated fallback left, exactly when it permits |
| EndToEnd.FilterAloneIsSound | crates/gatekeep-sqlx/src/lib.rs:240-293 | the filter-only path, for any projection: it succeeds exactly when the needed facts are mapped, and selects the same rows |
| EndToEnd.ObligatedFallbackLosesRows | crates/gatekeep-sqlx/src/lib.rs:248-254 | with an obligated fallback the filter drops a permitted row |
| EndToEnd.GradeIsSound | crates/gatekeep-sqlx/src/lib.rs:204-257 | on selected rows the emitted grade is the ordinal direct evaluation grants, NULL on other tenants' rows; asks only of a pending residual |
| EndToEnd.PolicyKeepsGrade | crates/gatekeep-sqlx/src/lib.rs:375-442 | conditions on the policy alone that give what the grade needs for any partial facts |
| EndToEnd.DeniedArmCanWin | crates/gatekeep-sqlx/src/lib.rs:406-419 | a denied `all` inside an `any` can give a selected row too high a grade |
| EndToEnd.DeniedArmWinsInTheText | crates/gatekeep-sqlx/src/lib.rs:406-419 | the same from a policy to the emitted text: the row is selected and graded above what direct evaluation grants |
| FactSets.BeforeIff | crates/gatekeep/src/prepared.rs:22 | identity order: a proper prefix first, else the first differing character decides |
| FactSets.InsertedSorted | crates/gatekeep/src/evaluate.rs:547-560 | inserting keeps identity order and adds exactly one element |
| FactSets.SortedUnique | crates/gatekeep/src/prepared.rs:22 | the ordered list of a set of facts is unique |
| FactSets.FactSet.CollectPolicy | crates/gatekeep/src/evaluate.rs:512-526 | the walk adds exactly the facts any of the policy's conditions mentions |
| FactSets.RequiredFacts | crates/gatekeep/src/evaluate.rs:45-49 | the required facts, each once, in identity order |
| Denials.BuildDenialReason | crates/gatekeep/src/decision.rs:102-146 | code, parameters and shape of a denial reason, or why none could be built |
| Denials.ExpectedIsCalledFor | crates/gatekeep/src/audit.rs:720-772 | the one reason a clause calls for: explicit reason before label, its shape, each fact under its literal key, the denied outcome, nothing else |
| Denials.BuiltReasonExplains | crates/gatekeep/src/decision.rs:102-146 | when a reason is built from a denial, what it says of the denial's own fields, or which error |
| Denials.TraceIsStored | crates/gatekeep/src/decision.rs:61-100 | a trace keeps list, facts, label, reason and shape and serializes the outcomes, or fails |
| Denials.ReasonMatches | crates/gatekeep/src/audit.rs:720-772 | the validator accepts a reason exactly when its clause calls for it |
| Denials.ParamsMatchIffEqual | crates/gatekeep/src/audit.rs:748-771 | the size check and the key checks together leave room for no other parameters |
| Denials.KeysInjective | crates/gatekeep/src/decision.rs:124-131 | generated parameter keys are distinct |
| Denials.BuiltReasonIsExpected | crates/gatekeep/src/decision.rs:61-146 | the built reason is the one the decision's own durable clause calls for |
| Observations.ValidateAll | crates/gatekeep/src/observation.rs:114-127 | at most 256 observations, no identity twice |
| Observations.MatchAll | crates/gatekeep/src/observation.rs:129-146 | accepted exactly when bounded, distinct and equal to explicit facts; omission matches nothing |
| Observations.FreshIff | crates/gatekeep/src/resolution.rs:117-145 | a resolution passes exactly when it and each of its observations are current |
| Observations.StalenessVerdict | crates/gatekeep/src/resolution.rs:117-145 | which observation or resolution is reported stale, and as what: an inverted window before a future or expired one |
| Observations.WithObservations | crates/gatekeep/src/resolution.rs:166-174 | attached observations are the given ones in identity order, or the matching error |
| Observations.EvidenceFromResolution | crates/gatekeep/src/resolution.rs:289-314 | evidence keeps the matched observations and the freshness window |
| Contexts.NewOccurrenceIs | crates/gatekeep/src/identity.rs:399-457 | which identities and times are accepted, and that the identity, the microsecond and UTC are kept |
| Contexts.NewOccurrencesAreValid | crates/gatekeep/src/identity.rs:399-431 | a constructed occurrence passes revalidation |
| Contexts.ValidOccurrencesAreFixed | crates/gatekeep/src/identity.rs:449-457 | revalidation accepts exactly what the constructor would produce again |
| Audit.CheckCurrent | crates/gatekeep/src/audit.rs:619-660 | the entry validator, with its order of errors |
| Audit.CheckSemantics | crates/gatekeep/src/audit.rs:683-718 | the semantic validator, with its order of errors |
| Audit.CurrentVerdict | crates/gatekeep/src/audit.rs:619-660 | the validator accepts exactly the well-kept, consistent entries and names the first defect |
| Audit.SemanticsVerdict | crates/gatekeep/src/audit.rs:683-718 | which inconsistency of the decision's fields is reported, in order |
| Audit.TraceDeterminesEntry | crates/gatekeep/src/audit.rs:683-718 | in a consistent entry the trace determines every duplicated field |
| Audit.DerivedEntriesAreValid | crates/gatekeep/src/audit.rs:419-446 | an entry derived from a sound decision fails only to serialize, never to validate |
| Authorization.PreparePolicy | crates/gatekeep/src/prepared.rs:20-28 | preparation anchors the policy and lists exactly its required facts |
| Authorization.Authorizer.RunAdmit | crates/gatekeep/src/authorization.rs:234-246 | the checks between resolution and evaluation, in order |
| Authorization.Authorizer.RunAssemble | crates/gatekeep/src/authorization.rs:226-264 | clock readings, checks and freezing of one decision; neither sink nor observer is touched |
| Authorization.Authorizer.RunPersistPending | crates/gatekeep/src/authorization.rs:273-289 | the observer sees an entry only after the sink accepted it |
| Authorization.Authorizer.RunFinish | crates/gatekeep/src/authorization.rs:214-224 | assembling then persisting |
| Authorization.Authorizer.RunChecked | crates/gatekeep/src/authorization.rs:167-188 | context check, resolver, then finishing |
| Authorization.Authorizer.RunAuthorize | crates/gatekeep/src/authorization.rs:108-121 | authorization with every required fact demanded |
| Authorization.Authorizer.RunAuthorizePolicy | crates/gatekeep/src/authorization.rs:155-165 | the published path, where omission is absence |
| Authorization.Authorizer.RunPrepare | crates/gatekeep/src/authorization.rs:131-148 | resolving and freezing without persisting |
| Authorization.Authorizer.RunPrepareResolution | crates/gatekeep/src/authorization.rs:199-212 | freezing from facts the caller read |
| Authorization.Authorizer.RunBatch | crates/gatekeep/src/authorization/batch.rs:15-69 | limit, context loop, one bulk load, cardinality, then the item loop |
| AuthorizationRuns.AssembleNeverInvalidEntry | crates/gatekeep/src/authorization.rs:226-264 | assembling never fails with an audit-entry error |
| AuthorizationRuns.AssembleMeans | crates/gatekeep/src/authorization.rs:226-264 | a frozen entry is valid, states the decision and its context, and was current at a clock reading |
| AuthorizationRuns.CheckedDecisionsAreComplete | crates/gatekeep/src/authorization.rs:108-121 | a checked decision evaluates facts that mention every required fact |
| AuthorizationRuns.PersistAccounts | crates/gatekeep/src/authorization.rs:273-289 | a decision is returned exactly when the sink accepted its entry |
| AuthorizationRuns.BatchErrorsWriteNothing | crates/gatekeep/src/authorization/batch.rs:21-47 | a whole-batch error leaves sink and observer untouched |
| AuthorizationRuns.BatchAccounts | crates/gatekeep/src/authorization/batch.rs:48-69 | the sink accepted exactly the decisions the batch returned, in order |
| AuthorizationRuns.BatchAnswersContexts | crates/gatekeep/src/authorization/batch.rs:48-69 | one result per context, answering it from its own resolution; accepted entries follow input order |
| AuthorizationRuns.StepNeverInvalid | crates/gatekeep/src/authorization.rs:102-302 | no operation answers a well-formed command with an invalid entry |
| AuthorizationRuns.RunKeeps | crates/gatekeep/src/authorization.rs:102-302 | every run, from any state with good pending decisions, accounts for every decision it returns |
| AuthorizationRuns.RunsAreAccountable | crates/gatekeep/src/authorization.rs:102-302 | over every run the returned decisions are the accepted entries in order, the observer saw their summaries, all valid and decided on current evidence |
| AuthorizationOutcomes.AssembleVerdict | crates/gatekeep/src/authorization.rs:226-264 | assembling succeeds exactly when context, currency, demanded facts, evidence, occurrence, trace and entry all stand; an error speaks of the first that does not |
| AuthorizationOutcomes.AssembleNamesFirstMissing | crates/gatekeep/src/authorization.rs:239-245 | a missing fact is reported exactly when it is the first demanded one not among the facts |
| AuthorizationOutcomes.RefusalIsTruthful | crates/gatekeep/src/authorization.rs:226-264 | the values an error carries are the ones that made it true |
| AuthorizationOutcomes.AssembledEntry | crates/gatekeep/src/authorization.rs:226-264 | everything a frozen entry states of decision, clause, reason, evidence, occurrence and context, and what it took |
| AuthorizationOutcomes.AuthorizeSucceedsIff | crates/gatekeep/src/authorization.rs:108-121 | a checked authorization succeeds exactly when the context is accepted, the resolver answers, every stage is cleared and the sink accepts |
| AuthorizationOutcomes.AuthorizePolicySucceedsIff | crates/gatekeep/src/authorization.rs:155-165 | the published path: also a hash and a second context check, and no demanded facts |
| AuthorizationOutcomes.PrepareSucceedsIff | crates/gatekeep/src/authorization.rs:131-148 | preparing takes the same stages without the sink |
| AuthorizationOutcomes.FinishSucceedsIff | crates/gatekeep/src/authorization.rs:214-224 | after assembling only the sink can refuse, and its failure is passed on with the occurrence |
| AuthorizationOutcomes.BatchSucceedsIff | crates/gatekeep/src/authorization/batch.rs:21-47 | a batch runs exactly when within its limit, every context accepted in turn, and loaded one for one |
| AuthorizationOutcomes.BatchRefusal | crates/gatekeep/src/authorization/batch.rs:21-47 | a refused batch names what failed first, and the first context refused |
| AuthorizationOutcomes.BatchItemSucceedsIff | crates/gatekeep/src/authorization/batch.rs:48-69 | an item is decided exactly when loaded, cleared in the state its predecessors left, and accepted by the sink |
| Replay.ReplayVerdict | crates/gatekeep/src/replay.rs:26-53 | for any entry: mismatch exactly for another policy's, else the uncovered facts, else the policy on the retained observations |
| Replay.RunReplay | crates/gatekeep/src/replay.rs:26-53 | anchor check, missing facts in order, otherwise evaluation of the retained observations |
| Facts.LastKnownEntryCounts | crates/gatekeep/src/facts.rs:100-108 | a fact has the presence of its last known entry |
| Replay.RebuiltFacts | crates/gatekeep/src/facts.rs:100-108 | retained observations rebuild exactly the observed part of the facts |
| Replay.ReplayIsFaithful | crates/gatekeep/src/replay.rs:26-53 | replay of a decision assembled with any facts demanded, or none, is that decision, or names exactly the required facts not retained, in order |
| Identities.TenantIdVerdict | crates/gatekeep/src/identity.rs:85-113 | which tenant identities are accepted, and which defect is named with which character |
| Identities.StaticIdPasses | crates/gatekeep/src/identity.rs:231-252 | the byte scanner passes exactly the identifiers that are not blank |
| Identities.StaticTenantIdPasses | crates/gatekeep/src/identity.rs:254-280 | the static tenant check passes exactly what run-time validation accepts |
| Identities.CleanIffNothingForbidden | crates/gatekeep/src/identity.rs:85-113 | advancing byte by byte, blind to characters, finds exactly the forbidden characters |
| Identities.HeadOfCharacter | crates/gatekeep/src/identity.rs:262-277 | the byte patterns at a character's start recognise controls and noncharacters, no others |
| Decimals.DecimalCanonical | crates/gatekeep/src/decision.rs:124-131 | decimal forms have no leading zeros |
| Decimals.DecimalInjective | crates/gatekeep/src/audit.rs:757-762 | distinct numbers have distinct decimal forms |
| Subjects.KindInjective | crates/gatekeep-keepsake/src/subject.rs:61-69 | distinct tenant and kind pairs encode differently, whatever characters they contain |
| Subjects.ScopedSubjectIs | crates/gatekeep-keepsake/src/subject.rs:23-69 | the whole scoped kind, part by part, and the principal's own identity |
| Subjects.ScopedSubjectsAreDistinct | crates/gatekeep-keepsake/src/subject.rs:23-30 | scoped subjects are equal exactly when tenant and principal are |
| Inspection.Inspect | crates/gatekeep/src/inspection.rs:31-62 | the stack walk terminates and inventories the grants of the left-to-right walk |
| Inspection.PolicyInspection.Grant | crates/gatekeep/src/inspection.rs:66-88 | one grant's effect on labels, reasons, obligations and advice |
| Inspection.InventoryContents | crates/gatekeep/src/inspection.rs:66-88 | what stands in the inventory's labels, reasons and obligations, read off the grants |
| Inspection.PushedReversed | crates/gatekeep/src/inspection.rs:52-54 | pushing children in reverse makes the stack yield them in order |
| Inspection.DuplicateReportedPerRepeat | crates/gatekeep/src/inspection.rs:72-78 | a label is reported as duplicate once for each use after its first |
| Inspection.UnlabeledReported | crates/gatekeep/src/inspection.rs:72-73 | every grant without a label is reported once |
| Inspection.UnexplainedReported | crates/gatekeep/src/inspection.rs:80-85 | every grant with neither label nor reason is reported once |

## Left out

- ObligationsPreserved: sets of obligations, not their order; for a whole policy the condition is sufficient, since an outer combination can hide an inner tie. One `all` is exact in AllPolicyKeepsObligationsIff.
- PendingIffCompletionsDiffer: exact where no unknown fact is asked twice; where one is, deciding whether completions differ is a satisfiability question that the reducer does not attempt.
- GradeIsSound: asks of a pending residual tight arms of every `any` and no obligated fallback, sufficient but not necessary; the exact condition is given for one `any` by AnyGradeIsRightIff.
- MoreFactsNeverLower: bounds fallback and primary separately, so a fallback that exceeds its primary only on facts that cannot occur together is excluded; OrElseDropsIff is exact for one fallback.
- CompletionReports: outcome, label, reason and shape; the facts a completed denial lists are tied to what was consulted by CompletedCitesConsulted, not to one reading of the grant.
- RunsAreAccountable: operations follow one another; overlapping calls, cancellation and an entry stored although the sink reported failure are not modelled.
- ToSql: placeholders and tokens, not the characters between them; SQL lexing is not modelled.
- ConstantExpr: outcome ordinals are unbounded integers, not 64-bit ones.
- Tenant comparison is exact string equality; a column under a case-insensitive or padding collation compares differently.
- Database execution, `QueryBuilder` binds, driver inference, and the Dovecote sinks.
- Serde, Postcard and BLAKE3: hashes, digests and durable JSON are opaque values; a deserializer's own checks are not modelled.
- Axum responses, Fluent catalogs and explanation texts.
- The Keepsake resolver and effective presence; `effective_state` is not part of this model.
- Attempt records and resource-scoped authorization, which wrap the operations modelled here.
- Policy and condition builders, locale and provenance checks, legacy audit import, tenant column grammar.
- `required_residual_facts`, `unmapped_facts`, and the always-empty value slot of the fact map: one more walk of the same shape, or nothing to observe.
- Validation of parameter keys when a denial reason is built: the generated keys are never blank.
