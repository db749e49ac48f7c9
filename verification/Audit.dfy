/** Audit entries: how one is derived from a decision, and what a current one must satisfy. */
module Audit {
  import opened Wrappers
  import opened Facts
  import opened Policies
  import opened Consulting
  import opened Observations
  import opened Contexts
  import D = Denials
  import Semantics

  const AUDIT_ENTRY_SCHEMA_VERSION := 2
  const POLICY_HASH_FORMAT_VERSION := 1

  // Policy hashes are opaque.
  datatype PolicyAnchor = PolicyAnchor(id: string, hash: string, hashVersion: nat)

  function NewAnchor(id: string, hash: string): PolicyAnchor {
    PolicyAnchor(id, hash, POLICY_HASH_FORMAT_VERSION)
  }

  datatype EffectKind = PermitKind | DenyKind

  function KindOf<O>(effect: Effect<O>): EffectKind {
    if effect.Permit? then PermitKind else DenyKind
  }

  datatype AuditEntry = AuditEntry(
    schemaVersion: nat,
    occurrence: Occurrence,
    requestId: Option<string>,
    anchor: PolicyAnchor,
    effect: EffectKind,
    obligations: seq<ObligationId>,
    consulted: Log,
    decisive: D.TraceClause,
    denialReason: Option<D.DenialReason>,
    trace: D.Trace,
    binding: Binding,
    evidence: Evidence,
    tenant: string,
    principal: SubjectRef,
    subjects: map<string, SubjectRef>,
    locale: string)

  datatype AuditEntryError =
    | InvalidObservations
    | UnsupportedSchemaVersion(actual: nat)
    | UnsupportedPolicyHashVersion(actual: nat)
    | BindingTenantMismatch
    | InvalidDecisionOccurrence(occurrenceError: OccurrenceError)
    | InvalidFactResolutionEvidence(evidenceError: FreshnessError)
    | DecisiveTraceMismatch
    | ConsultedTraceMismatch
    | EffectTraceMismatch
    | PermitWithDenialReason
    | DenyWithObligations
    | DenialReasonMismatch

  datatype ConstructionError = TraceFailed(traceError: D.TraceError) | EntryInvalid(entryError: AuditEntryError)

  datatype DecisionSummary = DecisionSummary(
    anchor: PolicyAnchor, effect: EffectKind, obligations: seq<ObligationId>, consulted: Log)

  function SummaryOf(entry: AuditEntry): DecisionSummary {
    DecisionSummary(entry.anchor, entry.effect, entry.obligations, entry.consulted)
  }

  // ----- validation -----

  predicate Contradicts(observation: FactObservation, consulted: Log) {
    exists i | 0 <= i < |consulted| ::
      consulted[i].0 == observation.fact && consulted[i].1 != PresenceFor(observation)
  }

  function ValidateSemantics(entry: AuditEntry): Result<(), AuditEntryError> {
    if entry.decisive != entry.trace.decisive then Err(DecisiveTraceMismatch)
    else if entry.consulted != entry.trace.consulted then Err(ConsultedTraceMismatch)
    else
      match (entry.effect, entry.decisive)
      case (PermitKind, Permit(_, _, _)) =>
        if entry.denialReason.Some? then Err(PermitWithDenialReason) else Ok(())
      case (DenyKind, Deny(_, _, _, _, _)) =>
        if entry.obligations != [] then Err(DenyWithObligations)
        else if entry.denialReason != D.ExpectedReason(entry.decisive) then Err(DenialReasonMismatch)
        else Ok(())
      case _ => Err(EffectTraceMismatch)
  }

  function ValidateCurrent(entry: AuditEntry): Result<(), AuditEntryError> {
    if entry.schemaVersion != 1 && entry.schemaVersion != AUDIT_ENTRY_SCHEMA_VERSION then
      Err(UnsupportedSchemaVersion(entry.schemaVersion))
    else if entry.schemaVersion == 1 && entry.evidence.observations != [] then Err(InvalidObservations)
    else if exists o | o in entry.evidence.observations :: Contradicts(o, entry.consulted) then
      Err(InvalidObservations)
    else if ValidateOccurrence(entry.occurrence).Err? then
      Err(InvalidDecisionOccurrence(ValidateOccurrence(entry.occurrence).error))
    else if entry.anchor.hashVersion != POLICY_HASH_FORMAT_VERSION then
      Err(UnsupportedPolicyHashVersion(entry.anchor.hashVersion))
    else if entry.binding.tenant != entry.tenant then Err(BindingTenantMismatch)
    else
      match CheckWindow(entry.evidence.observedAt, entry.evidence.freshUntil)
      case Err(error) => Err(InvalidFactResolutionEvidence(error))
      case Ok(_) => ValidateSemantics(entry)
  }

  // The validator as written, with the denial reason checked parameter by parameter.
  method CheckCurrent(entry: AuditEntry) returns (result: Result<(), AuditEntryError>)
    ensures result == ValidateCurrent(entry)
  {
    if entry.schemaVersion != 1 && entry.schemaVersion != AUDIT_ENTRY_SCHEMA_VERSION {
      return Err(UnsupportedSchemaVersion(entry.schemaVersion));
    }
    var observations := entry.evidence.observations;
    if entry.schemaVersion == 1 && observations != [] {
      return Err(InvalidObservations);
    }
    for i := 0 to |observations|
      invariant forall j | 0 <= j < i :: !Contradicts(observations[j], entry.consulted)
    {
      if Contradicts(observations[i], entry.consulted) {
        return Err(InvalidObservations);
      }
    }
    var occurrence := ValidateOccurrence(entry.occurrence);
    if occurrence.Err? {
      return Err(InvalidDecisionOccurrence(occurrence.error));
    }
    if entry.anchor.hashVersion != POLICY_HASH_FORMAT_VERSION {
      return Err(UnsupportedPolicyHashVersion(entry.anchor.hashVersion));
    }
    if entry.binding.tenant != entry.tenant {
      return Err(BindingTenantMismatch);
    }
    var window := CheckWindow(entry.evidence.observedAt, entry.evidence.freshUntil);
    if window.Err? {
      return Err(InvalidFactResolutionEvidence(window.error));
    }
    result := CheckSemantics(entry);
  }

  method CheckSemantics(entry: AuditEntry) returns (result: Result<(), AuditEntryError>)
    ensures result == ValidateSemantics(entry)
  {
    if entry.decisive != entry.trace.decisive {
      return Err(DecisiveTraceMismatch);
    }
    if entry.consulted != entry.trace.consulted {
      return Err(ConsultedTraceMismatch);
    }
    if entry.effect == PermitKind && entry.decisive.Permit? {
      return if entry.denialReason.Some? then Err(PermitWithDenialReason) else Ok(());
    }
    if entry.effect == DenyKind && entry.decisive.Deny? {
      if entry.obligations != [] {
        return Err(DenyWithObligations);
      }
      var matches := D.ReasonMatches(entry.denialReason, entry.decisive);
      return if matches then Ok(()) else Err(DenialReasonMismatch);
    }
    result := Err(EffectTraceMismatch);
  }

  // ----- what a valid entry is -----

  predicate SchemaSupported(entry: AuditEntry) {
    entry.schemaVersion == 1 || entry.schemaVersion == 2
  }

  // Only the current schema keeps observations, and none is at odds with what was consulted.
  ghost predicate ObservationsFit(entry: AuditEntry) {
    && (entry.schemaVersion == 1 ==> entry.evidence.observations == [])
    && forall o, i | o in entry.evidence.observations && 0 <= i < |entry.consulted| :: AgreesWith(entry, o, i)
  }

  predicate AgreesWith(entry: AuditEntry, o: FactObservation, i: nat)
    requires i < |entry.consulted|
  {
    entry.consulted[i].0 == o.fact ==> entry.consulted[i].1 == if o.value then Present else Absent
  }

  predicate OccurrenceCanonical(occurrence: Occurrence) {
    && Storable(occurrence.id, occurrence.at.instant)
    && occurrence.at.offset == 0 && occurrence.at.instant % 1000 == 0
  }

  predicate WindowOrdered(evidence: Evidence) {
    evidence.freshUntil.Some? ==> evidence.observedAt <= evidence.freshUntil.value
  }

  // What can be said of an entry without looking at its decision.
  ghost predicate WellKept(entry: AuditEntry) {
    && SchemaSupported(entry) && ObservationsFit(entry) && OccurrenceCanonical(entry.occurrence)
    && entry.anchor.hashVersion == 1 && entry.binding.tenant == entry.tenant && WindowOrdered(entry.evidence)
  }

  // The decision's fields agree with each other and with the trace.
  ghost predicate Consistent(entry: AuditEntry) {
    && entry.decisive == entry.trace.decisive && entry.consulted == entry.trace.consulted
    && (entry.effect == PermitKind <==> entry.decisive.Permit?)
    && D.CallsFor(entry.decisive, entry.denialReason)
    && (entry.effect == DenyKind ==> entry.obligations == [])
  }

  // The validator accepts exactly the well-kept, consistent entries, and names the first defect.
  lemma CurrentVerdict(entry: AuditEntry)
    ensures var verdict := ValidateCurrent(entry);
      && (verdict.Ok? <==> WellKept(entry) && Consistent(entry))
      && (!SchemaSupported(entry) ==> verdict == Err(UnsupportedSchemaVersion(entry.schemaVersion)))
      && (SchemaSupported(entry) && !ObservationsFit(entry) ==> verdict == Err(InvalidObservations))
      && (SchemaSupported(entry) && ObservationsFit(entry) ==>
            && (!OccurrenceCanonical(entry.occurrence) ==>
                  verdict.Err? && verdict.error.InvalidDecisionOccurrence?)
            && (OccurrenceCanonical(entry.occurrence) ==>
                  && (entry.anchor.hashVersion != 1 ==>
                        verdict == Err(UnsupportedPolicyHashVersion(entry.anchor.hashVersion)))
                  && (entry.anchor.hashVersion == 1 ==>
                        && (entry.binding.tenant != entry.tenant ==> verdict == Err(BindingTenantMismatch))
                        && (entry.binding.tenant == entry.tenant && !WindowOrdered(entry.evidence) ==>
                              verdict.Err? && verdict.error.InvalidFactResolutionEvidence?))))
      && (WellKept(entry) ==> verdict == ValidateSemantics(entry))
  {
    NewOccurrenceIs(entry.occurrence.id, entry.occurrence.at);
    ContradictionsIff(entry);
    SemanticsVerdict(entry);
  }

  lemma ContradictionsIff(entry: AuditEntry)
    ensures (exists o | o in entry.evidence.observations :: Contradicts(o, entry.consulted)) <==>
      !(forall o, i | o in entry.evidence.observations && 0 <= i < |entry.consulted| :: AgreesWith(entry, o, i))
  {
    if o, i :| o in entry.evidence.observations && 0 <= i < |entry.consulted| && !AgreesWith(entry, o, i) {
      assert Contradicts(o, entry.consulted);
    }
    if o :| o in entry.evidence.observations && Contradicts(o, entry.consulted) {
      var i :| 0 <= i < |entry.consulted| &&
        entry.consulted[i].0 == o.fact && entry.consulted[i].1 != PresenceFor(o);
      assert !AgreesWith(entry, o, i);
    }
  }

  // A consistent decision passes; otherwise the traces are compared first, then the effect, then what
  // a permit or a denial may carry.
  lemma SemanticsVerdict(entry: AuditEntry)
    ensures var verdict, traced := ValidateSemantics(entry), entry.trace;
      && (verdict.Ok? <==> Consistent(entry))
      && (verdict == Err(DecisiveTraceMismatch) <==> entry.decisive != traced.decisive)
      && (verdict == Err(ConsultedTraceMismatch) <==>
            entry.decisive == traced.decisive && entry.consulted != traced.consulted)
      && (entry.decisive == traced.decisive && entry.consulted == traced.consulted ==>
            && (verdict == Err(EffectTraceMismatch) <==> (entry.effect == PermitKind) != entry.decisive.Permit?)
            && ((entry.effect == PermitKind) == entry.decisive.Permit? ==>
                  && (entry.effect == PermitKind && entry.denialReason.Some? ==>
                        verdict == Err(PermitWithDenialReason))
                  && (entry.effect == DenyKind && entry.obligations != [] ==> verdict == Err(DenyWithObligations))
                  && (entry.effect == DenyKind && entry.obligations == [] &&
                        !D.CallsFor(entry.decisive, entry.denialReason) ==>
                        verdict == Err(DenialReasonMismatch))))
  {
    D.ExpectedIsCalledFor(entry.decisive, entry.denialReason);
  }

  // A consistent entry's duplicated fields are all determined by its trace.
  lemma TraceDeterminesEntry(left: AuditEntry, right: AuditEntry)
    requires ValidateSemantics(left).Ok? && ValidateSemantics(right).Ok?
    requires left.trace == right.trace
    ensures left.effect == right.effect
    ensures left.decisive == right.decisive && left.consulted == right.consulted
    ensures left.denialReason == right.denialReason
    ensures left.effect == DenyKind ==> left.obligations == right.obligations == []
  {
  }

  // ----- derivation from a decision -----

  function NewEntry(entry: AuditEntry): Result<AuditEntry, AuditEntryError> {
    match ValidateOccurrence(entry.occurrence)
    case Err(error) => Err(InvalidDecisionOccurrence(error))
    case Ok(_) =>
      match ValidateCurrent(entry)
      case Err(error) => Err(error)
      case Ok(_) => Ok(entry)
  }

  function DerivedEntry<O>(
      occurrence: Occurrence, anchor: PolicyAnchor, decision: Decision<O>, trace: D.Trace,
      reason: Option<D.DenialReason>, context: Context, evidence: Evidence)
    : AuditEntry
  {
    AuditEntry(
      AUDIT_ENTRY_SCHEMA_VERSION, occurrence, context.requestId, anchor, KindOf(decision.effect),
      decision.obligations, trace.consulted, trace.decisive, reason, trace, context.binding, evidence,
      context.tenant, context.principal, context.subjects, context.locale)
  }

  function FromDecision<O>(
      serialize: O -> Option<D.TraceValue>, occurrence: Occurrence, anchor: PolicyAnchor,
      decision: Decision<O>, context: Context, evidence: Evidence)
    : Result<AuditEntry, ConstructionError>
  {
    match D.ToTrace(serialize, decision)
    case Err(error) => Err(TraceFailed(error))
    case Ok(trace) =>
      match D.DenialReasonOf(serialize, decision)
      case Err(error) => Err(TraceFailed(error))
      case Ok(reason) =>
        match NewEntry(DerivedEntry(occurrence, anchor, decision, trace, reason, context, evidence))
        case Err(error) => Err(EntryInvalid(error))
        case Ok(entry) => Ok(entry)
  }

  // What evaluation guarantees of its decisions.
  ghost predicate DecisionSound<O>(decision: Decision<O>, facts: KnownFacts) {
    Accurate(decision.consulted, facts) && Semantics.CoherentDecision(decision)
  }

  lemma MatchedNeverContradicts(observations: seq<FactObservation>, consulted: Log, facts: KnownFacts)
    requires AllAgree(observations, facts) && Accurate(consulted, facts)
    ensures forall o | o in observations :: !Contradicts(o, consulted)
  {
    forall o | o in observations ensures !Contradicts(o, consulted) {
      var i :| 0 <= i < |observations| && observations[i] == o;
      assert Agrees(observations[i], facts);
    }
  }

  // Deriving an entry from a sound decision can fail to serialize, but never to validate.
  lemma DerivedEntriesAreValid<O>(
      serialize: O -> Option<D.TraceValue>, occurrence: Occurrence, anchor: PolicyAnchor,
      decision: Decision<O>, context: Context, evidence: Evidence, facts: KnownFacts)
    requires ValidateOccurrence(occurrence).Ok? && anchor.hashVersion == POLICY_HASH_FORMAT_VERSION
    requires context.tenant == context.binding.tenant
    requires CheckWindow(evidence.observedAt, evidence.freshUntil).Ok?
    requires AllAgree(evidence.observations, facts) && DecisionSound(decision, facts)
    ensures var entry := FromDecision(serialize, occurrence, anchor, decision, context, evidence);
      entry.Ok? || entry.error.TraceFailed?
  {
    if D.ToTrace(serialize, decision).Ok? && D.DenialReasonOf(serialize, decision).Ok? {
      MatchedNeverContradicts(evidence.observations, decision.consulted, facts);
      if decision.effect.Deny? {
        D.BuiltReasonIsExpected(serialize, decision);
      }
    }
  }
}
