/** When an authorization succeeds, why it is refused otherwise, and what its entry then says. */
module AuthorizationOutcomes {
  import opened Wrappers
  import opened Facts
  import opened Policies
  import opened Evaluation
  import opened Semantics
  import opened Observations
  import opened Contexts
  import opened Audit
  import opened Authorization
  import opened AuthorizationRuns
  import Denials

  // ----- the stages of one authorization -----

  // The stages between receiving a resolution and holding a frozen decision, in order.
  datatype Stage =
    | ContextStage
    | CurrencyStage
    | DemandStage
    | EvidenceStage
    | OccurrenceStage
    | TraceStage
    | EntryStage

  datatype Request<!O> = Request(
    policy: Policy<O>,
    anchor: PolicyAnchor,
    required: Option<seq<FactId>>,
    context: Context,
    resolution: FactResolution)

  predicate ContextAccepted(context: Context, now: Instant) {
    context.tenant == context.binding.tenant && BindingUsable(context.binding, now)
  }

  ghost predicate EvidenceCurrent(resolution: FactResolution, now: Instant) {
    && UsableAt(resolution.observedAt, Deadline(resolution.metadata), now)
    && forall o | o in resolution.observations :: UsableAt(o.observedAt, Deadline(o.metadata), now)
  }

  ghost predicate DemandsMet(required: Option<seq<FactId>>, facts: KnownFacts) {
    required.Some? ==> forall f | f in required.value :: f in facts
  }

  predicate Attachable(resolution: FactResolution) {
    && |resolution.observations| <= 256
    && DistinctFacts(resolution.observations) && AllAgree(resolution.observations, resolution.facts)
  }

  // A supplied occurrence is there; a new one needs an identity and a time that can be stored.
  predicate OccurrenceAvailable<O>(world: World<O>, state: State, context: Context) {
    context.occurrence.None? ==> Storable(world.freshId(state.idsDrawn), world.clock(state.clockReads + 1).instant)
  }

  predicate EntryAcceptable(anchor: PolicyAnchor, context: Context) {
    && anchor.hashVersion == 1
    && (context.occurrence.Some? ==>
          var occurrence := context.occurrence.value;
          && Storable(occurrence.id, occurrence.at.instant)
          && occurrence.at.offset == 0 && occurrence.at.instant % 1000 == 0)
  }

  ghost predicate Clears<O>(stage: Stage, world: World<O>, state: State, request: Request<O>) {
    var context, resolution, now := request.context, request.resolution, world.clock(state.clockReads).instant;
    match stage
    case ContextStage => ContextAccepted(context, now)
    case CurrencyStage => EvidenceCurrent(resolution, now)
    case DemandStage => DemandsMet(request.required, resolution.facts)
    case EvidenceStage => Attachable(resolution) && world.digest(resolution.facts).Some?
    case OccurrenceStage => OccurrenceAvailable(world, state, context)
    case TraceStage =>
      var decisive := Evaluate(world.lattice, request.policy, resolution.facts).decisive;
      Denials.Serializable(world.serialize, decisive) && Denials.Nameable(decisive)
    case EntryStage => EntryAcceptable(request.anchor, context)
  }

  function Place(stage: Stage): nat {
    match stage
    case ContextStage => 0
    case CurrencyStage => 1
    case DemandStage => 2
    case EvidenceStage => 3
    case OccurrenceStage => 4
    case TraceStage => 5
    case EntryStage => 6
  }

  // Every stage before the given place is cleared.
  ghost predicate ClearedBefore<O>(place: nat, world: World<O>, state: State, request: Request<O>) {
    forall stage: Stage | Place(stage) < place :: Clears(stage, world, state, request)
  }

  // The stage an error speaks of.
  function StageOf(error: AuthorizationError): Option<Stage> {
    match error
    case ContextInvalid(_) => Some(ContextStage)
    case ResolveFailed(Resolution(_)) => Some(CurrencyStage)
    case ResolveFailed(MissingFact(_)) => Some(DemandStage)
    case EvidenceFailed(_) => Some(EvidenceStage)
    case OccurrenceFailed(_) => Some(OccurrenceStage)
    case TraceFailure(_) => Some(TraceStage)
    case AuditEntryInvalid(_) => Some(EntryStage)
    case _ => None
  }

  function AssembleRequest<O(==)>(world: World<O>, state: State, request: Request<O>)
    : (State, Result<PendingDecision<O>, AuthorizationError>)
  {
    Assemble(
      world, state, request.policy, request.anchor, request.required, request.context, request.resolution)
  }

  // ----- one stage at a time -----

  lemma BindingUsableIff(binding: Binding, now: Instant)
    ensures ValidateBinding(binding, now).Ok? <==> BindingUsable(binding, now)
  {
  }

  lemma AttachableIff(resolution: FactResolution)
    ensures Matched(resolution.observations, resolution.facts).Ok? <==> Attachable(resolution)
  {
  }

  lemma DemandsMetIff(required: Option<seq<FactId>>, facts: KnownFacts)
    ensures var names := if required.Some? then required.value else [];
      FirstMissing(names, facts) == |names| <==> DemandsMet(required, facts)
  {
    var names := if required.Some? then required.value else [];
    var k := FirstMissing(names, facts);
    if k < |names| {
      assert names[k] in names;
    }
  }

  // What the checks before evaluation answer.
  lemma AdmitVerdict<O>(world: World<O>, state: State, request: Request<O>)
    ensures
      var admitted := Admit(
        world, request.required, request.context, request.resolution, world.clock(state.clockReads).instant);
      && (admitted.Ok? <==> ClearedBefore(4, world, state, request))
      && (admitted.Err? ==>
            var stage := StageOf(admitted.error);
            && stage.Some? && Place(stage.value) < 4
            && !Clears(stage.value, world, state, request)
            && ClearedBefore(Place(stage.value), world, state, request))
  {
    var context, resolution, now := request.context, request.resolution, world.clock(state.clockReads).instant;
    var admitted := Admit(world, request.required, context, resolution, now);
    BindingUsableIff(context.binding, now);
    FreshIff(resolution, now);
    DemandsMetIff(request.required, resolution.facts);
    AttachableIff(resolution);
    assert Clears(ContextStage, world, state, request) <==> ValidateContext(context, now).Ok?;
    assert Clears(CurrencyStage, world, state, request) <==> CheckResolution(resolution, now).Ok?;
    assert Clears(EvidenceStage, world, state, request) <==> EvidenceOf(world.digest, resolution).Ok?;
    assert Clears(DemandStage, world, state, request) <==> DemandsMet(request.required, resolution.facts);
  }

  // The first demanded fact that is missing is the one named.
  ghost predicate FirstAbsent(required: Option<seq<FactId>>, facts: KnownFacts, fact: FactId) {
    required.Some? && exists k | 0 <= k < |required.value| ::
      required.value[k] == fact && fact !in facts && forall i | 0 <= i < k :: required.value[i] in facts
  }

  lemma MissingFactIsFirst<O>(world: World<O>, state: State, request: Request<O>, fact: FactId)
    ensures
      var admitted := Admit(
        world, request.required, request.context, request.resolution, world.clock(state.clockReads).instant);
      admitted == Err(ResolveFailed(MissingFact(fact))) <==>
        && Clears(ContextStage, world, state, request) && Clears(CurrencyStage, world, state, request)
        && FirstAbsent(request.required, request.resolution.facts, fact)
  {
    var facts := request.resolution.facts;
    var names := if request.required.Some? then request.required.value else [];
    var k := FirstMissing(names, facts);
    BindingUsableIff(request.context.binding, world.clock(state.clockReads).instant);
    FreshIff(request.resolution, world.clock(state.clockReads).instant);
    if j :| 0 <= j < |names| && names[j] == fact && fact !in facts && forall i | 0 <= i < j :: names[i] in facts {
      assert j == k;
    }
  }

  lemma OccurrenceVerdict<O>(world: World<O>, state: State, request: Request<O>)
    ensures var next := state.(clockReads := state.clockReads + 1);
      OccurrenceFor(world, next, request.context).1.Ok? <==> Clears(OccurrenceStage, world, state, request)
  {
    NewOccurrenceIs(world.freshId(state.idsDrawn), world.clock(state.clockReads + 1));
  }

  // Freezing answers for the last two stages.
  lemma FreezeVerdict<O>(world: World<O>, state: State, request: Request<O>, occurrence: Occurrence, evidence: Evidence)
    requires ClearedBefore(5, world, state, request)
    requires Admitted(None, request.context, request.resolution, evidence, world.clock(state.clockReads).instant)
    requires request.context.occurrence.Some? ==> occurrence == request.context.occurrence.value
    requires request.context.occurrence.None? ==> ValidateOccurrence(occurrence).Ok?
    ensures
      var decision := Evaluate(world.lattice, request.policy, request.resolution.facts);
      var frozen := Freeze(world, occurrence, request.anchor, decision, request.context, evidence);
      && (frozen.Ok? <==> Clears(TraceStage, world, state, request) && Clears(EntryStage, world, state, request))
      && (frozen.Err? ==>
            if Clears(TraceStage, world, state, request) then frozen.error.AuditEntryInvalid?
            else frozen.error.TraceFailure?)
  {
    var facts, context := request.resolution.facts, request.context;
    var decision := Evaluate(world.lattice, request.policy, facts);
    EvaluationIsSound(world.lattice, request.policy, facts);
    Denials.TraceIsStored(world.serialize, decision);
    if decision.effect.Deny? {
      Denials.BuiltReasonExplains(world.serialize, decision);
    }
    EntryAcceptableIff(request.anchor, context, occurrence);
    if Clears(EntryStage, world, state, request) {
      DerivedEntriesAreValid(world.serialize, occurrence, request.anchor, decision, context, evidence, facts);
    }
  }

  lemma EntryAcceptableIff(anchor: PolicyAnchor, context: Context, occurrence: Occurrence)
    requires context.occurrence.Some? ==> occurrence == context.occurrence.value
    requires context.occurrence.None? ==> ValidateOccurrence(occurrence).Ok?
    ensures EntryAcceptable(anchor, context) <==>
      ValidateOccurrence(occurrence).Ok? && anchor.hashVersion == POLICY_HASH_FORMAT_VERSION
  {
    NewOccurrenceIs(occurrence.id, occurrence.at);
  }

  // ----- assembling -----

  ghost predicate FailsFirstAt<O>(
      error: AuthorizationError, world: World<O>, state: State, request: Request<O>)
  {
    var stage := StageOf(error);
    && stage.Some? && !Clears(stage.value, world, state, request)
    && ClearedBefore(Place(stage.value), world, state, request)
  }

  lemma ClearedNext<O>(world: World<O>, state: State, request: Request<O>)
    ensures ClearedBefore(5, world, state, request) <==>
      ClearedBefore(4, world, state, request) && Clears(OccurrenceStage, world, state, request)
    ensures ClearedBefore(6, world, state, request) <==>
      ClearedBefore(5, world, state, request) && Clears(TraceStage, world, state, request)
    ensures ClearedBefore(7, world, state, request) <==>
      ClearedBefore(6, world, state, request) && Clears(EntryStage, world, state, request)
  {
  }

  lemma AssembleAfterAdmission<O>(world: World<O>, state: State, request: Request<O>, evidence: Evidence)
    requires Admit(
      world, request.required, request.context, request.resolution, world.clock(state.clockReads).instant) ==
      Ok(evidence)
    ensures
      var occurrence := OccurrenceFor(world, state.(clockReads := state.clockReads + 1), request.context).1;
      var decision := Evaluate(world.lattice, request.policy, request.resolution.facts);
      AssembleRequest(world, state, request).1 ==
        if occurrence.Err? then Err(OccurrenceFailed(occurrence.error))
        else Freeze(world, occurrence.value, request.anchor, decision, request.context, evidence)
  {
  }

  lemma AdmittedVerdict<O>(world: World<O>, state: State, request: Request<O>, evidence: Evidence)
    requires Admit(
      world, request.required, request.context, request.resolution, world.clock(state.clockReads).instant) ==
      Ok(evidence)
    requires ClearedBefore(4, world, state, request)
    ensures var result := AssembleRequest(world, state, request).1;
      && (result.Ok? <==> ClearedBefore(7, world, state, request))
      && (result.Err? ==> FailsFirstAt(result.error, world, state, request))
  {
    var now := world.clock(state.clockReads).instant;
    OccurrenceVerdict(world, state, request);
    AssembleAfterAdmission(world, state, request, evidence);
    ClearedNext(world, state, request);
    var occurrence := OccurrenceFor(world, state.(clockReads := state.clockReads + 1), request.context).1;
    if occurrence.Ok? {
      AdmitMeans(world, request.required, request.context, request.resolution, now);
      if request.context.occurrence.None? {
        NewOccurrencesAreValid(world.freshId(state.idsDrawn), world.clock(state.clockReads + 1));
      }
      FreezeVerdict(world, state, request, occurrence.value, evidence);
    }
  }

  // Assembling succeeds exactly when every stage is cleared; otherwise the error speaks of the first
  // stage that is not.
  lemma AssembleVerdict<O>(world: World<O>, state: State, request: Request<O>)
    ensures var result := AssembleRequest(world, state, request).1;
      && (result.Ok? <==> ClearedBefore(7, world, state, request))
      && (result.Err? ==> FailsFirstAt(result.error, world, state, request))
  {
    var admitted := Admit(
      world, request.required, request.context, request.resolution, world.clock(state.clockReads).instant);
    AdmitVerdict(world, state, request);
    if admitted.Ok? {
      AdmittedVerdict(world, state, request, admitted.value);
    } else {
      assert AssembleRequest(world, state, request).1 == Err(admitted.error);
    }
  }

  // A missing fact is reported exactly when it is the first demanded one that the resolver left out.
  lemma AssembleNamesFirstMissing<O>(world: World<O>, state: State, request: Request<O>, fact: FactId)
    ensures AssembleRequest(world, state, request).1 == Err(ResolveFailed(MissingFact(fact))) <==>
      && Clears(ContextStage, world, state, request) && Clears(CurrencyStage, world, state, request)
      && FirstAbsent(request.required, request.resolution.facts, fact)
  {
    MissingFactIsFirst(world, state, request, fact);
  }

  // ----- what a refusal says is so -----

  ghost predicate BindingRefused(error: BindingError, binding: Binding, now: Instant) {
    && binding.ApplicationVerified?
    && match error
       case AuthenticatedInFuture(at, read) => read == now < at == binding.authenticatedAt
       case NotYetValid(from, read) => read == now < from == binding.validFrom
       case Stale(until, read) => binding.validUntil == until <= now == read
  }

  // Some timestamp of the resolution, or of one of its observations, with its deadline.
  ghost predicate Dated(resolution: FactResolution, observedAt: Instant, deadline: Option<Instant>) {
    || (observedAt == resolution.observedAt && deadline == Deadline(resolution.metadata))
    || exists o | o in resolution.observations :: o.observedAt == observedAt && Deadline(o.metadata) == deadline
  }

  ghost predicate EvidenceRefused(error: FreshnessError, resolution: FactResolution, now: Instant) {
    match error
    case InvalidFreshnessWindow(observedAt, until) => until < observedAt && Dated(resolution, observedAt, Some(until))
    case Expired(received, until) => until <= now == received && exists at :: Dated(resolution, at, Some(until))
    case ObservedInFuture(at, received) => received == now < at && exists deadline :: Dated(resolution, at, deadline)
  }

  ghost predicate ObservationsRefused(error: ObservationError, resolution: FactResolution) {
    var observations := resolution.observations;
    match error
    case TooMany => |observations| > 256
    case Duplicate => |observations| <= 256 && !DistinctFacts(observations)
    case Mismatch =>
      |observations| <= 256 && DistinctFacts(observations) && !AllAgree(observations, resolution.facts)
  }

  // The values an error carries are the ones that made it true.
  ghost predicate Truthful<O>(error: AuthorizationError, world: World<O>, state: State, request: Request<O>) {
    var context, resolution, now := request.context, request.resolution, world.clock(state.clockReads).instant;
    match error
    case ContextInvalid(TenantMismatch(expected, bound)) =>
      expected == context.tenant && bound == context.binding.tenant && expected != bound
    case ContextInvalid(InvalidBinding(cause)) => BindingRefused(cause, context.binding, now)
    case ResolveFailed(Resolution(cause)) => EvidenceRefused(cause, resolution, now)
    case ResolveFailed(MissingFact(fact)) => FirstAbsent(request.required, resolution.facts, fact)
    case EvidenceFailed(SelectedObservations(cause)) => ObservationsRefused(cause, resolution)
    case EvidenceFailed(FactsNotSerializable) => world.digest(resolution.facts).None?
    case OccurrenceFailed(cause) =>
      cause == if "legacy-" <= world.freshId(state.idsDrawn) then ReservedLegacyIdentity else OutOfRange
    case TraceFailure(cause) =>
      var decisive := Evaluate(world.lattice, request.policy, resolution.facts).decisive;
      cause ==
        if Denials.Serializable(world.serialize, decisive) then Denials.InvalidIdentity
        else Denials.OutcomeNotSerializable
    case AuditEntryInvalid(InvalidDecisionOccurrence(_)) => context.occurrence.Some?
    case AuditEntryInvalid(UnsupportedPolicyHashVersion(actual)) => actual == request.anchor.hashVersion != 1
    case _ => false
  }

  lemma FreshnessErrorsTruthful(resolution: FactResolution, now: Instant)
    requires CheckResolution(resolution, now).Err?
    ensures EvidenceRefused(CheckResolution(resolution, now).error, resolution, now)
  {
    var observations := resolution.observations;
    var k := FirstStale(observations, now);
    if k < |observations| {
      var o := observations[k];
      assert o in observations && Dated(resolution, o.observedAt, Deadline(o.metadata));
    } else {
      assert Dated(resolution, resolution.observedAt, Deadline(resolution.metadata));
    }
  }

  lemma AdmitErrorsTruthful<O>(world: World<O>, state: State, request: Request<O>)
    ensures
      var admitted := Admit(
        world, request.required, request.context, request.resolution, world.clock(state.clockReads).instant);
      admitted.Err? ==> Truthful(admitted.error, world, state, request)
  {
    var resolution, now := request.resolution, world.clock(state.clockReads).instant;
    if CheckResolution(resolution, now).Err? {
      FreshnessErrorsTruthful(resolution, now);
    }
    var admitted := Admit(world, request.required, request.context, resolution, now);
    if admitted.Err? && admitted.error.ResolveFailed? && admitted.error.resolveError.MissingFact? {
      MissingFactIsFirst(world, state, request, admitted.error.resolveError.fact);
    }
  }

  lemma FreezeErrorsTruthful<O>(
      world: World<O>, state: State, request: Request<O>, occurrence: Occurrence, evidence: Evidence)
    requires Admitted(None, request.context, request.resolution, evidence, world.clock(state.clockReads).instant)
    requires request.context.occurrence.Some? ==> occurrence == request.context.occurrence.value
    requires request.context.occurrence.None? ==> ValidateOccurrence(occurrence).Ok?
    ensures
      var decision := Evaluate(world.lattice, request.policy, request.resolution.facts);
      var frozen := Freeze(world, occurrence, request.anchor, decision, request.context, evidence);
      frozen.Err? ==> Truthful(frozen.error, world, state, request)
  {
    var facts, context := request.resolution.facts, request.context;
    var decision := Evaluate(world.lattice, request.policy, facts);
    EvaluationIsSound(world.lattice, request.policy, facts);
    Denials.TraceIsStored(world.serialize, decision);
    if decision.effect.Deny? {
      Denials.BuiltReasonExplains(world.serialize, decision);
    }
    if ValidateOccurrence(occurrence).Ok? && request.anchor.hashVersion == POLICY_HASH_FORMAT_VERSION {
      DerivedEntriesAreValid(world.serialize, occurrence, request.anchor, decision, context, evidence, facts);
    } else if Denials.ToTrace(world.serialize, decision).Ok? && Denials.DenialReasonOf(world.serialize, decision).Ok? {
      var entry := DerivedEntry(
        occurrence, request.anchor, decision, Denials.ToTrace(world.serialize, decision).value,
        Denials.DenialReasonOf(world.serialize, decision).value, context, evidence);
      MatchedNeverContradicts(evidence.observations, decision.consulted, facts);
      ContradictionsIff(entry);
      CurrentVerdict(entry);
    }
  }

  // No refusal misstates what it found.
  lemma RefusalIsTruthful<O>(world: World<O>, state: State, request: Request<O>)
    ensures var result := AssembleRequest(world, state, request).1;
      result.Err? ==> Truthful(result.error, world, state, request)
  {
    var now := world.clock(state.clockReads).instant;
    var admitted := Admit(world, request.required, request.context, request.resolution, now);
    AdmitErrorsTruthful(world, state, request);
    if admitted.Ok? {
      AssembleAfterAdmission(world, state, request, admitted.value);
      AdmitMeans(world, request.required, request.context, request.resolution, now);
      var id, at := world.freshId(state.idsDrawn), world.clock(state.clockReads + 1);
      NewOccurrenceIs(id, at);
      var occurrence := OccurrenceFor(world, state.(clockReads := state.clockReads + 1), request.context).1;
      if occurrence.Ok? {
        if request.context.occurrence.None? {
          NewOccurrencesAreValid(id, at);
        }
        FreezeErrorsTruthful(world, state, request, occurrence.value, admitted.value);
      }
    } else {
      assert AssembleRequest(world, state, request).1 == Err(admitted.error);
    }
  }

  // ----- what a frozen entry says -----

  // The evidence names the resolution's source, revision, window, digest and observations.
  ghost predicate Witnesses<O>(evidence: Evidence, world: World<O>, resolution: FactResolution) {
    && (resolution.metadata.None? ==>
          evidence.source == None && evidence.revision == None && evidence.freshUntil == None)
    && (resolution.metadata.Some? ==>
          && evidence.source == Some(resolution.metadata.value.source)
          && evidence.revision == resolution.metadata.value.revision
          && evidence.freshUntil == resolution.metadata.value.freshUntil)
    && evidence.observedAt == resolution.observedAt
    && Some(evidence.digest) == world.digest(resolution.facts)
    && evidence.observations == resolution.observations
  }

  // The entry's occurrence: the supplied one, or a fresh identity at the reading after admission.
  ghost predicate TakesPlace<O>(occurrence: Occurrence, world: World<O>, state: State, context: Context) {
    if context.occurrence.Some? then occurrence == context.occurrence.value
    else
      var at := world.clock(state.clockReads + 1).instant;
      && occurrence.id == world.freshId(state.idsDrawn)
      && occurrence.at.offset == 0 && occurrence.at.instant % 1000 == 0
      && occurrence.at.instant <= at < occurrence.at.instant + 1000
  }

  // The entry states the decision once more, with its clause and its reason in stored form.
  ghost predicate StatesDecision<O>(entry: AuditEntry, world: World<O>, decision: Decision<O>) {
    && (entry.effect == PermitKind <==> decision.effect.Permit?)
    && entry.obligations == decision.obligations
    && entry.consulted == decision.consulted == entry.trace.consulted
    && entry.decisive == entry.trace.decisive
    && Denials.StoredAs(world.serialize, decision.decisive, entry.decisive)
    && Denials.CallsFor(entry.decisive, entry.denialReason)
  }

  lemma FrozenEntryStates<O>(
      world: World<O>, occurrence: Occurrence, anchor: PolicyAnchor, decision: Decision<O>,
      context: Context, evidence: Evidence, facts: KnownFacts)
    requires DecisionSound(decision, facts)
    requires Freeze(world, occurrence, anchor, decision, context, evidence).Ok?
    ensures var pending := Freeze(world, occurrence, anchor, decision, context, evidence).value;
      && pending.decision == decision
      && StatesDecision(pending.entry, world, decision)
      && pending.entry.schemaVersion == 2 && pending.entry.occurrence == occurrence
  {
    var entry := Freeze(world, occurrence, anchor, decision, context, evidence).value.entry;
    Denials.TraceIsStored(world.serialize, decision);
    Denials.ExpectedIsCalledFor(entry.decisive, entry.denialReason);
  }

  // Everything a frozen decision records, and what assembling it took.
  lemma AssembledEntry<O>(world: World<O>, state: State, request: Request<O>)
    requires AssembleRequest(world, state, request).1.Ok?
    ensures
      var (after, result) := AssembleRequest(world, state, request);
      var entry, context := result.value.entry, request.context;
      && result.value.decision == Evaluate(world.lattice, request.policy, request.resolution.facts)
      && StatesDecision(entry, world, result.value.decision)
      && Witnesses(entry.evidence, world, request.resolution)
      && TakesPlace(entry.occurrence, world, state, context)
      && entry.schemaVersion == 2 && entry.anchor == request.anchor && ForContext(entry, context)
      && after == state.(
           clockReads := state.clockReads + (if context.occurrence.Some? then 1 else 2),
           idsDrawn := state.idsDrawn + (if context.occurrence.Some? then 0 else 1))
  {
    var context, now := request.context, world.clock(state.clockReads).instant;
    var next := state.(clockReads := state.clockReads + 1);
    var evidence := Admit(world, request.required, context, request.resolution, now).value;
    var occurrence := OccurrenceFor(world, next, context).1.value;
    var decision := Evaluate(world.lattice, request.policy, request.resolution.facts);
    if context.occurrence.None? {
      NewOccurrenceIs(world.freshId(state.idsDrawn), world.clock(state.clockReads + 1));
    }
    EvidenceWitnesses(world, request.resolution);
    EvaluationIsSound(world.lattice, request.policy, request.resolution.facts);
    FrozenEntryStates(world, occurrence, request.anchor, decision, context, evidence, request.resolution.facts);
    FreezeMeans(world, occurrence, request.anchor, decision, context, evidence);
  }

  lemma EvidenceWitnesses<O>(world: World<O>, resolution: FactResolution)
    ensures var evidence := EvidenceOf(world.digest, resolution);
      evidence.Ok? ==> Witnesses(evidence.value, world, resolution)
  {
  }

  // ----- authorizing -----

  ghost predicate SinkAccepts<O>(world: World<O>, state: State) {
    world.sinkFailure(state.sinkCalls).None?
  }

  lemma AssembleLeavesSink<O>(world: World<O>, state: State, request: Request<O>)
    ensures AssembleRequest(world, state, request).0.sinkCalls == state.sinkCalls
  {
    AssembleMeans(
      world, state, request.policy, request.anchor, request.required, request.context, request.resolution);
  }

  function FinishRequest<O(==)>(world: World<O>, state: State, request: Request<O>): (State, Outcome<O>) {
    Finish(world, state, request.policy, request.anchor, request.required, request.context, request.resolution)
  }

  // A resolution ends in a decision exactly when every stage is cleared and the sink accepts the entry.
  lemma FinishSucceedsIff<O>(world: World<O>, state: State, request: Request<O>)
    ensures var outcome := FinishRequest(world, state, request).1;
      && (outcome.Ok? <==> ClearedBefore(7, world, state, request) && SinkAccepts(world, state))
      && (outcome.Ok? ==> outcome.value.decision == Evaluate(world.lattice, request.policy, request.resolution.facts))
      && (outcome.Err? ==>
            if ClearedBefore(7, world, state, request) then
              && outcome.error.AuditFailed? && Some(outcome.error.source) == world.sinkFailure(state.sinkCalls)
              && TakesPlace(outcome.error.occurrence, world, state, request.context)
            else AssembleRequest(world, state, request).1 == Err(outcome.error))
  {
    AssembleVerdict(world, state, request);
    AssembleLeavesSink(world, state, request);
    if AssembleRequest(world, state, request).1.Ok? {
      AssembledEntry(world, state, request);
    }
  }

  // The state in which a resolver's answer is received.
  function Received(state: State): State {
    state.(clockReads := state.clockReads + 1, resolverCalls := state.resolverCalls + 1)
  }

  // The context is accepted at this clock reading and the resolver answers with a resolution.
  predicate Resolvable<O>(world: World<O>, state: State, context: Context) {
    ContextAccepted(context, world.clock(state.clockReads).instant) && world.resolver(state.resolverCalls).Ok?
  }

  lemma ResolveVerdict<O>(world: World<O>, state: State, context: Context)
    ensures var (after, result) := Resolve(world, state, context);
      && (result.Ok? <==> Resolvable(world, state, context))
      && (result.Ok? ==> after == Received(state) && result == Ok(world.resolver(state.resolverCalls).value))
      && (result.Err? ==>
            if ContextAccepted(context, world.clock(state.clockReads).instant) then
              result == Err(ResolveFailed(world.resolver(state.resolverCalls).error))
            else result.error.ContextInvalid?)
  {
    BindingUsableIff(context.binding, world.clock(state.clockReads).instant);
  }

  ghost predicate RunClears<O>(
      world: World<O>, state: State, policy: Policy<O>, anchor: PolicyAnchor, required: Option<seq<FactId>>,
      context: Context)
  {
    && Resolvable(world, state, context) && SinkAccepts(world, state)
    && var resolution := world.resolver(state.resolverCalls).value;
       ClearedBefore(7, world, Received(state), Request(policy, anchor, required, context, resolution))
  }

  lemma RunSucceedsIff<O>(
      world: World<O>, state: State, policy: Policy<O>, anchor: PolicyAnchor, required: Option<seq<FactId>>,
      context: Context)
    ensures var outcome := Run(world, state, policy, anchor, required, context).1;
      && (outcome.Ok? <==> RunClears(world, state, policy, anchor, required, context))
      && (outcome.Ok? ==>
            outcome.value.decision == Evaluate(world.lattice, policy, world.resolver(state.resolverCalls).value.facts))
      && (!ContextAccepted(context, world.clock(state.clockReads).instant) ==>
            outcome.Err? && outcome.error.ContextInvalid?)
      && (ContextAccepted(context, world.clock(state.clockReads).instant) ==>
            match world.resolver(state.resolverCalls)
            case Err(error) => outcome == Err(ResolveFailed(error))
            case Ok(resolution) =>
              var request := Request(policy, anchor, required, context, resolution);
              outcome == FinishRequest(world, Received(state), request).1)
  {
    ResolveVerdict(world, state, context);
    if Resolvable(world, state, context) {
      var resolution := world.resolver(state.resolverCalls).value;
      FinishSucceedsIff(world, Received(state), Request(policy, anchor, required, context, resolution));
    }
  }

  // Preparing takes the same stages and leaves the sink out.
  lemma PrepareSucceedsIff<O>(world: World<O>, state: State, prepared: PreparedPolicy<O>, context: Context)
    ensures
      var result := Authorization.Prepare(world, state, prepared, context).1;
      result.Ok? <==>
        && Resolvable(world, state, context)
        && var resolution := world.resolver(state.resolverCalls).value;
           ClearedBefore(
             7, world, Received(state),
             Request(prepared.policy, prepared.anchor, Some(prepared.required), context, resolution))
  {
    ResolveVerdict(world, state, context);
    if Resolvable(world, state, context) {
      var resolution := world.resolver(state.resolverCalls).value;
      AssembleVerdict(
        world, Received(state),
        Request(prepared.policy, prepared.anchor, Some(prepared.required), context, resolution));
    }
  }

  // A checked authorization: the policy on the resolver's facts, exactly when nothing stands against it.
  lemma AuthorizeSucceedsIff<O>(world: World<O>, state: State, prepared: PreparedPolicy<O>, context: Context)
    ensures var outcome := Authorization.Authorize(world, state, prepared, context).1;
      && (outcome.Ok? <==>
            RunClears(world, state, prepared.policy, prepared.anchor, Some(prepared.required), context))
      && (outcome.Ok? ==>
            outcome.value.decision ==
              Evaluate(world.lattice, prepared.policy, world.resolver(state.resolverCalls).value.facts))
  {
    RunSucceedsIff(world, state, prepared.policy, prepared.anchor, Some(prepared.required), context);
  }

  // The published path checks the context once more, needs a hash, and demands no fact.
  lemma AuthorizePolicySucceedsIff<O>(
      world: World<O>, state: State, id: string, policy: Policy<O>, context: Context)
    ensures
      var outcome := Authorization.AuthorizePolicy(world, state, id, policy, context).1;
      var next := state.(clockReads := state.clockReads + 1);
      && (outcome.Ok? <==>
            && ContextAccepted(context, world.clock(state.clockReads).instant)
            && world.hash(policy).Some?
            && RunClears(world, next, policy, PolicyAnchor(id, world.hash(policy).value, 1), None, context))
      && (outcome.Ok? ==>
            outcome.value.decision ==
              Evaluate(world.lattice, policy, world.resolver(state.resolverCalls).value.facts))
  {
    PublishedPathRuns(world, state, id, policy, context);
    if world.hash(policy).Some? {
      var next := state.(clockReads := state.clockReads + 1);
      RunSucceedsIff(world, next, policy, PolicyAnchor(id, world.hash(policy).value, 1), None, context);
    }
  }

  lemma PublishedPathRuns<O>(world: World<O>, state: State, id: string, policy: Policy<O>, context: Context)
    ensures
      var published := Authorization.AuthorizePolicy(world, state, id, policy, context);
      var next := state.(clockReads := state.clockReads + 1);
      if ContextAccepted(context, world.clock(state.clockReads).instant) && world.hash(policy).Some? then
        published == Run(world, next, policy, PolicyAnchor(id, world.hash(policy).value, 1), None, context)
      else
        published.1.Err? &&
        (published.1.error == PolicyHashFailed <==> ContextAccepted(context, world.clock(state.clockReads).instant))
  {
    BindingUsableIff(context.binding, world.clock(state.clockReads).instant);
  }

  // ----- batches -----

  // The context at this position is accepted at its own clock reading.
  predicate AcceptedInTurn<O>(world: World<O>, first: nat, contexts: seq<Context>, i: nat)
    requires i < |contexts|
  {
    ContextAccepted(contexts[i], world.clock(first + i).instant)
  }

  // A batch runs exactly when it is within its limit and, unless empty, every context is accepted at
  // its own clock reading and the bulk load answers with one result for each.
  lemma BatchSucceedsIff<O>(
      world: World<O>, state: State, prepared: PreparedPolicy<O>, contexts: seq<Context>, limit: nat)
    ensures Authorization.AuthorizeBatch(world, state, prepared, contexts, limit).1.Ok? <==>
      && |contexts| <= limit
      && (contexts != [] ==>
            && (forall i | 0 <= i < |contexts| :: AcceptedInTurn(world, state.clockReads, contexts, i))
            && world.bulk(state.bulkCalls).Ok? && |world.bulk(state.bulkCalls).value| == |contexts|)
  {
    if contexts != [] && |contexts| <= limit {
      ContextsCheckedIff(world, state, contexts, 0, state.clockReads);
      var failure := CheckContexts(world, state, contexts, 0).1;
      var result := Authorization.AuthorizeBatch(world, state, prepared, contexts, limit).1;
      var loaded := world.bulk(state.bulkCalls);
      assert failure.Some? ==> result == Err(failure.value);
      assert failure.None? && loaded.Err? ==> result.Err?;
      assert failure.None? && loaded.Ok? ==> (result.Ok? <==> |loaded.value| == |contexts|);
    }
  }

  // A refused batch says which of these failed first, and at which context.
  lemma BatchRefusal<O>(
      world: World<O>, state: State, prepared: PreparedPolicy<O>, contexts: seq<Context>, limit: nat)
    requires Authorization.AuthorizeBatch(world, state, prepared, contexts, limit).1.Err?
    ensures
      var error := Authorization.AuthorizeBatch(world, state, prepared, contexts, limit).1.error;
      var loaded := world.bulk(state.bulkCalls);
      match error
      case Limit => |contexts| > limit
      case ContextAt(k, cause) =>
        && k < |contexts| <= limit && !AcceptedInTurn(world, state.clockReads, contexts, k)
        && (forall i | 0 <= i < k :: AcceptedInTurn(world, state.clockReads, contexts, i))
        && ValidateContext(contexts[k], world.clock(state.clockReads + k).instant) == Err(cause)
      case BulkFailed(cause) => |contexts| <= limit && loaded == Err(cause)
      case Cardinality(expected, actual) =>
        |contexts| <= limit && loaded.Ok? && expected == |contexts| && actual == |loaded.value| != expected
  {
    if contexts != [] && |contexts| <= limit {
      FirstRefusedContext(world, state, contexts, 0, state.clockReads);
      ContextsCheckedIff(world, state, contexts, 0, state.clockReads);
      var failure := CheckContexts(world, state, contexts, 0).1;
      assert failure.Some? ==>
        Authorization.AuthorizeBatch(world, state, prepared, contexts, limit).1 == Err(failure.value);
    }
  }

  lemma {:induction false} FirstRefusedContext<O>(
      world: World<O>, state: State, contexts: seq<Context>, i: nat, first: nat)
    requires i <= |contexts| && state.clockReads == first + i
    ensures var failure := CheckContexts(world, state, contexts, i).1;
      failure.Some? ==>
        && failure.value.ContextAt? && i <= failure.value.index < |contexts|
        && var k := failure.value.index;
           && !AcceptedInTurn(world, first, contexts, k)
           && (forall j | i <= j < k :: AcceptedInTurn(world, first, contexts, j))
           && ValidateContext(contexts[k], world.clock(first + k).instant) == Err(failure.value.contextError)
    decreases |contexts| - i
  {
    if i < |contexts| {
      var next := state.(clockReads := state.clockReads + 1);
      BindingUsableIff(contexts[i].binding, world.clock(state.clockReads).instant);
      FirstRefusedContext(world, next, contexts, i + 1, first);
      assert ValidateContext(contexts[i], world.clock(state.clockReads).instant).Ok? <==>
        AcceptedInTurn(world, first, contexts, i);
    }
  }

  lemma {:induction false} ContextsCheckedIff<O>(
      world: World<O>, state: State, contexts: seq<Context>, i: nat, first: nat)
    requires i <= |contexts| && state.clockReads == first + i
    ensures var (after, failure) := CheckContexts(world, state, contexts, i);
      && after.bulkCalls == state.bulkCalls
      && (failure.None? <==> forall j | i <= j < |contexts| :: AcceptedInTurn(world, first, contexts, j))
    decreases |contexts| - i
  {
    if i < |contexts| {
      var next := state.(clockReads := state.clockReads + 1);
      BindingUsableIff(contexts[i].binding, world.clock(state.clockReads).instant);
      ContextsCheckedIff(world, next, contexts, i + 1, first);
      assert ValidateContext(contexts[i], world.clock(state.clockReads).instant).Ok? <==>
        AcceptedInTurn(world, first, contexts, i);
    }
  }

  // An item is decided exactly when its own resolution was loaded, it clears every stage in the state
  // its predecessors left, and the sink accepts its entry.
  ghost predicate ItemClears<O>(
      world: World<O>, before: State, prepared: PreparedPolicy<O>, context: Context,
      resolution: Result<FactResolution, ResolveError>)
  {
    && resolution.Ok?
    && ClearedBefore(
      7, world, before,
      Request(prepared.policy, prepared.anchor, Some(prepared.required), context, resolution.value))
    && SinkAccepts(world, before)
  }

  lemma {:induction false} ItemsSucceedIff<O>(
      world: World<O>, state: State, prepared: PreparedPolicy<O>, contexts: seq<Context>,
      resolutions: seq<Result<FactResolution, ResolveError>>, i: nat)
    requires i < |contexts| == |resolutions|
    ensures
      var before := Items(world, state, prepared, contexts[..i], resolutions[..i]).0;
      Items(world, state, prepared, contexts, resolutions).1[i].Ok? <==>
        ItemClears(world, before, prepared, contexts[i], resolutions[i])
  {
    var n := |contexts| - 1;
    var (earlier, most) := Items(world, state, prepared, contexts[..n], resolutions[..n]);
    assert Items(world, state, prepared, contexts, resolutions).1 ==
      most + [Item(world, earlier, prepared, contexts[n], resolutions[n]).1];
    if i < n {
      ItemsSucceedIff(world, state, prepared, contexts[..n], resolutions[..n], i);
      assert contexts[..n][..i] == contexts[..i] && resolutions[..n][..i] == resolutions[..i];
    } else {
      ItemSucceedsIff(world, earlier, prepared, contexts[n], resolutions[n]);
    }
  }

  // A resolver failure is passed on; otherwise the item goes the way of any resolution.
  lemma ItemSucceedsIff<O>(
      world: World<O>, before: State, prepared: PreparedPolicy<O>, context: Context,
      resolution: Result<FactResolution, ResolveError>)
    ensures
      var outcome := Item(world, before, prepared, context, resolution).1;
      && (outcome.Ok? <==> ItemClears(world, before, prepared, context, resolution))
      && (resolution.Err? ==> outcome == Err(ResolveFailed(resolution.error)))
  {
    if resolution.Ok? {
      FinishSucceedsIff(
        world, before,
        Request(prepared.policy, prepared.anchor, Some(prepared.required), context, resolution.value));
    }
  }

  lemma BatchItemSucceedsIff<O>(
      world: World<O>, state: State, prepared: PreparedPolicy<O>, contexts: seq<Context>, limit: nat, i: nat)
    requires i < |contexts| && Authorization.AuthorizeBatch(world, state, prepared, contexts, limit).1.Ok?
    ensures
      var results := Authorization.AuthorizeBatch(world, state, prepared, contexts, limit).1.value;
      var loaded := world.bulk(state.bulkCalls);
      && loaded.Ok? && |loaded.value| == |contexts| == |results|
      && var before := Items(world, ItemsStart(state, contexts), prepared, contexts[..i], loaded.value[..i]).0;
         results[i].Ok? <==> ItemClears(world, before, prepared, contexts[i], loaded.value[i])
  {
    BatchRunsItems(world, state, prepared, contexts, limit);
    ItemsSucceedIff(
      world, ItemsStart(state, contexts), prepared, contexts, world.bulk(state.bulkCalls).value, i);
  }
}
