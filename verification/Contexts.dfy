/** Tenant bindings, request contexts, and the identity and time of a decision. */
module Contexts {
  import opened Wrappers
  import opened Observations
  import opened Arithmetic

  // ----- occurrences -----

  const MAX_PORTABLE_UNIX_SECONDS := 253_402_300_799
  const NANOSECONDS := 1_000_000_000
  const LEGACY_PREFIX := "legacy-"

  // An instant with the offset it is expressed in; offsets are whole seconds.
  datatype Timestamp = Timestamp(instant: Instant, offset: int)

  datatype Occurrence = Occurrence(id: string, at: Timestamp)

  datatype OccurrenceError = ReservedLegacyIdentity | OutOfRange | NonCanonical

  // Sub-microsecond digits are dropped and the offset becomes UTC.
  function NewOccurrence(id: string, at: Timestamp): Result<Occurrence, OccurrenceError> {
    if LEGACY_PREFIX <= id then Err(ReservedLegacyIdentity)
    else if !(0 <= at.instant / NANOSECONDS <= MAX_PORTABLE_UNIX_SECONDS) then Err(OutOfRange)
    else Ok(Occurrence(id, Timestamp(at.instant - at.instant % 1000, 0)))
  }

  function ValidateOccurrence(occurrence: Occurrence): Result<(), OccurrenceError> {
    match NewOccurrence(occurrence.id, occurrence.at)
    case Err(error) => Err(error)
    case Ok(_) =>
      if occurrence.at.offset != 0 || occurrence.at.instant % 1000 != 0 then Err(NonCanonical) else Ok(())
  }

  // An identity outside the reserved range, and a time between 1970 and the end of the year 9999.
  predicate Storable(id: string, instant: Instant) {
    !("legacy-" <= id) && 0 <= instant < 253_402_300_800 * 1_000_000_000
  }

  // A new occurrence keeps its identity, and its time down to the microsecond, in UTC.
  lemma NewOccurrenceIs(id: string, at: Timestamp)
    ensures NewOccurrence(id, at).Ok? <==> Storable(id, at.instant)
    ensures NewOccurrence(id, at).Ok? ==>
      var made := NewOccurrence(id, at).value;
      && made.id == id && made.at.offset == 0
      && made.at.instant <= at.instant < made.at.instant + 1000 && made.at.instant % 1000 == 0
    ensures NewOccurrence(id, at).Err? ==>
      NewOccurrence(id, at).error == if "legacy-" <= id then ReservedLegacyIdentity else OutOfRange
    ensures ValidateOccurrence(Occurrence(id, at)).Ok? <==>
      Storable(id, at.instant) && at.offset == 0 && at.instant % 1000 == 0
  {
    SecondsInRange(at.instant);
    assert (at.instant - at.instant % 1000) % 1000 == 0;
  }

  lemma SecondsInRange(instant: Instant)
    ensures 0 <= instant / NANOSECONDS <= MAX_PORTABLE_UNIX_SECONDS <==>
      0 <= instant < 253_402_300_800 * 1_000_000_000
  {
    var seconds, within := instant / NANOSECONDS, instant % NANOSECONDS;
    assert instant == NANOSECONDS * seconds + within && 0 <= within < NANOSECONDS;
  }

  // Occurrences are valid exactly when they are what the constructor would make of them again.
  lemma ValidOccurrencesAreFixed(occurrence: Occurrence)
    ensures ValidateOccurrence(occurrence).Ok? <==>
      NewOccurrence(occurrence.id, occurrence.at) == Ok(occurrence)
  {
    var at := occurrence.at;
    assert at.instant - at.instant % 1000 == at.instant <==> at.instant % 1000 == 0;
  }

  lemma NewOccurrencesAreValid(id: string, at: Timestamp)
    requires NewOccurrence(id, at).Ok?
    ensures ValidateOccurrence(NewOccurrence(id, at).value).Ok?
  {
    var rounded := at.instant - at.instant % 1000;
    assert rounded % 1000 == 0;
    assert rounded / NANOSECONDS == at.instant / NANOSECONDS by {
      RoundingKeepsTheSecond(at.instant);
    }
  }

  lemma RoundingKeepsTheSecond(instant: Instant)
    ensures (instant - instant % 1000) / NANOSECONDS == instant / NANOSECONDS
  {
    var seconds, within := instant / NANOSECONDS, instant % NANOSECONDS;
    var micros, rest := within / 1000, within % 1000;
    assert instant == 1000 * (1_000_000 * seconds + micros) + rest;
    QuotientIs(instant, 1000, 1_000_000 * seconds + micros, rest);
    QuotientIs(instant - rest, NANOSECONDS, seconds, 1000 * micros);
  }

  // ----- bindings -----

  // Authorities and claim digests are opaque.
  datatype Binding =
    | ApplicationVerified(
        tenant: string,
        authority: string,
        authenticatedAt: Instant,
        claimsDigest: string,
        validFrom: Instant,
        validUntil: Instant)
    | TrustedService(tenant: string, service: string)

  datatype BindingError =
    | AuthenticatedInFuture(authenticatedAt: Instant, now: Instant)
    | NotYetValid(validFrom: Instant, now: Instant)
    | Stale(validUntil: Instant, now: Instant)

  function ValidateBinding(binding: Binding, now: Instant): Result<(), BindingError> {
    match binding
    case TrustedService(_, _) => Ok(())
    case ApplicationVerified(_, _, authenticatedAt, _, validFrom, validUntil) =>
      if authenticatedAt > now then Err(AuthenticatedInFuture(authenticatedAt, now))
      else if now < validFrom then Err(NotYetValid(validFrom, now))
      else if now >= validUntil then Err(Stale(validUntil, now))
      else Ok(())
  }

  predicate BindingUsable(binding: Binding, now: Instant) {
    binding.ApplicationVerified? ==>
      binding.authenticatedAt <= now && binding.validFrom <= now < binding.validUntil
  }

  // ----- contexts -----

  datatype SubjectRef = SubjectRef(kind: string, id: string)

  datatype Context = Context(
    tenant: string,
    binding: Binding,
    principal: SubjectRef,
    subjects: map<string, SubjectRef>,
    locale: string,
    requestId: Option<string>,
    occurrence: Option<Occurrence>)

  datatype ContextError =
    | TenantMismatch(expected: string, bound: string)
    | InvalidBinding(cause: BindingError)

  function ValidateContext(context: Context, now: Instant): Result<(), ContextError> {
    if context.tenant != context.binding.tenant then
      Err(TenantMismatch(context.tenant, context.binding.tenant))
    else
      match ValidateBinding(context.binding, now)
      case Err(error) => Err(InvalidBinding(error))
      case Ok(_) => Ok(())
  }

  // Supplied occurrences went through their validating constructor.
  predicate WellFormed(context: Context) {
    context.occurrence.Some? ==> ValidateOccurrence(context.occurrence.value).Ok?
  }
}
