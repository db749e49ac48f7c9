/** Resolver answers: freshness, selected observations, and the evidence kept from them. */
module Observations {
  import opened Wrappers
  import opened Facts
  import FactSets

  const MAX_FACT_OBSERVATIONS := 256

  // Instants count nanoseconds from the Unix epoch.
  type Instant = int

  datatype Metadata = Metadata(source: string, revision: Option<string>, freshUntil: Option<Instant>)

  datatype FactObservation = FactObservation(
    fact: FactId, value: bool, metadata: Option<Metadata>, observedAt: Instant)

  datatype FactResolution = FactResolution(
    facts: KnownFacts,
    metadata: Option<Metadata>,
    observedAt: Instant,
    observations: seq<FactObservation>)

  // Digests are opaque.
  datatype Evidence = Evidence(
    source: Option<string>,
    revision: Option<string>,
    observedAt: Instant,
    freshUntil: Option<Instant>,
    digest: string,
    observations: seq<FactObservation>)

  datatype FreshnessError =
    | InvalidFreshnessWindow(observedAt: Instant, freshUntil: Instant)
    | Expired(receivedAt: Instant, freshUntil: Instant)
    | ObservedInFuture(observedAt: Instant, receivedAt: Instant)

  datatype ObservationError = TooMany | Duplicate | Mismatch

  datatype EvidenceError = SelectedObservations(cause: ObservationError) | FactsNotSerializable

  // ----- freshness -----

  function Deadline(metadata: Option<Metadata>): Option<Instant> {
    if metadata.Some? then metadata.value.freshUntil else None
  }

  function CheckWindow(observedAt: Instant, freshUntil: Option<Instant>): Result<(), FreshnessError> {
    if freshUntil.Some? && freshUntil.value < observedAt then
      Err(InvalidFreshnessWindow(observedAt, freshUntil.value))
    else Ok(())
  }

  function CheckFresh(observedAt: Instant, freshUntil: Option<Instant>, now: Instant): Result<(), FreshnessError> {
    if observedAt > now then Err(ObservedInFuture(observedAt, now))
    else if freshUntil.Some? && now >= freshUntil.value then Err(Expired(now, freshUntil.value))
    else Ok(())
  }

  function CheckObservation(observation: FactObservation, now: Instant): Result<(), FreshnessError> {
    var deadline := Deadline(observation.metadata);
    match CheckWindow(observation.observedAt, deadline)
    case Err(error) => Err(error)
    case Ok(_) => CheckFresh(observation.observedAt, deadline, now)
  }

  function FirstStale(observations: seq<FactObservation>, now: Instant): (k: nat)
    ensures k <= |observations|
    ensures forall i | 0 <= i < k :: CheckObservation(observations[i], now).Ok?
    ensures k < |observations| ==> CheckObservation(observations[k], now).Err?
  {
    if observations == [] || CheckObservation(observations[0], now).Err? then 0
    else 1 + FirstStale(observations[1..], now)
  }

  function CheckResolution(resolution: FactResolution, now: Instant): Result<(), FreshnessError> {
    var k := FirstStale(resolution.observations, now);
    if k < |resolution.observations| then CheckObservation(resolution.observations[k], now)
    else CheckFresh(resolution.observedAt, Deadline(resolution.metadata), now)
  }

  predicate UsableAt(observedAt: Instant, freshUntil: Option<Instant>, now: Instant) {
    observedAt <= now && (freshUntil.Some? ==> now < freshUntil.value)
  }

  // A resolution passes exactly when it and every selected observation are current.
  lemma FreshIff(resolution: FactResolution, now: Instant)
    ensures CheckResolution(resolution, now).Ok? <==>
      && UsableAt(resolution.observedAt, Deadline(resolution.metadata), now)
      && forall o | o in resolution.observations :: UsableAt(o.observedAt, Deadline(o.metadata), now)
  {
    var observations := resolution.observations;
    forall i | 0 <= i < |observations|
      ensures CheckObservation(observations[i], now).Ok? <==>
        UsableAt(observations[i].observedAt, Deadline(observations[i].metadata), now)
    {
    }
    var k := FirstStale(observations, now);
    if k < |observations| {
      assert observations[k] in observations;
    }
  }

  // The first observation that is not usable decides the error, an inverted window before a future or
  // an expired one; the resolution itself comes last, and its window was checked when it was made.
  lemma StalenessVerdict(resolution: FactResolution, now: Instant, k: nat)
    requires k <= |resolution.observations|
    requires forall i | 0 <= i < k ::
      UsableAt(resolution.observations[i].observedAt, Deadline(resolution.observations[i].metadata), now)
    ensures k < |resolution.observations| ==>
      var at, deadline := resolution.observations[k].observedAt, Deadline(resolution.observations[k].metadata);
      var verdict := CheckResolution(resolution, now);
      && (deadline.Some? && deadline.value < at ==> verdict == Err(InvalidFreshnessWindow(at, deadline.value)))
      && (!(deadline.Some? && deadline.value < at) && now < at ==> verdict == Err(ObservedInFuture(at, now)))
      && (at <= now && deadline.Some? && at <= deadline.value <= now ==> verdict == Err(Expired(now, deadline.value)))
    ensures k == |resolution.observations| ==>
      var at, deadline := resolution.observedAt, Deadline(resolution.metadata);
      var verdict := CheckResolution(resolution, now);
      && (now < at ==> verdict == Err(ObservedInFuture(at, now)))
      && (at <= now && deadline.Some? && deadline.value <= now ==> verdict == Err(Expired(now, deadline.value)))
  {
    var observations := resolution.observations;
    var first := FirstStale(observations, now);
    assert forall i | 0 <= i < k :: CheckObservation(observations[i], now).Ok?;
    assert first >= k;
  }

  // ----- selected observations -----

  function PresenceFor(observation: FactObservation): Presence {
    if observation.value then Present else Absent
  }

  predicate DistinctFacts(observations: seq<FactObservation>) {
    forall i, j | 0 <= i < j < |observations| :: observations[i].fact != observations[j].fact
  }

  // An omitted fact matches nothing.
  predicate Agrees(observation: FactObservation, facts: KnownFacts) {
    observation.fact in facts && facts[observation.fact] == PresenceFor(observation)
  }

  predicate AllAgree(observations: seq<FactObservation>, facts: KnownFacts) {
    forall i | 0 <= i < |observations| :: Agrees(observations[i], facts)
  }

  function Validated(observations: seq<FactObservation>): Result<(), ObservationError> {
    if |observations| > MAX_FACT_OBSERVATIONS then Err(TooMany)
    else if !DistinctFacts(observations) then Err(Duplicate)
    else Ok(())
  }

  function Matched(observations: seq<FactObservation>, facts: KnownFacts): Result<(), ObservationError> {
    match Validated(observations)
    case Err(error) => Err(error)
    case Ok(_) => if AllAgree(observations, facts) then Ok(()) else Err(Mismatch)
  }

  method ValidateAll(observations: seq<FactObservation>) returns (result: Result<(), ObservationError>)
    ensures result == Validated(observations)
  {
    if |observations| > MAX_FACT_OBSERVATIONS {
      return Err(TooMany);
    }
    var seen: set<FactId> := {};
    for i := 0 to |observations|
      invariant seen == set j | 0 <= j < i :: observations[j].fact
      invariant DistinctFacts(observations[..i])
    {
      if observations[i].fact in seen {
        return Err(Duplicate);
      }
      seen := seen + {observations[i].fact};
    }
    assert observations[..|observations|] == observations;
    result := Ok(());
  }

  method MatchAll(observations: seq<FactObservation>, facts: KnownFacts)
    returns (result: Result<(), ObservationError>)
    ensures result == Matched(observations, facts)
  {
    result := ValidateAll(observations);
    if result.Err? {
      return;
    }
    for i := 0 to |observations|
      invariant AllAgree(observations[..i], facts)
    {
      if !Agrees(observations[i], facts) {
        return Err(Mismatch);
      }
      assert observations[..i + 1] == observations[..i] + [observations[i]];
    }
    assert observations[..|observations|] == observations;
  }

  // ----- stable order -----

  predicate Ordered(observations: seq<FactObservation>) {
    forall i, j | 0 <= i < j < |observations| :: !FactSets.Before(observations[j].fact, observations[i].fact)
  }

  // Where a later observation belongs: after everything not greater than it.
  function Slot(sorted: seq<FactObservation>, observation: FactObservation): (k: nat)
    ensures k <= |sorted|
    ensures forall i | k <= i < |sorted| :: FactSets.Before(observation.fact, sorted[i].fact)
    ensures k > 0 ==> !FactSets.Before(observation.fact, sorted[k - 1].fact)
  {
    if sorted == [] || !FactSets.Before(observation.fact, sorted[|sorted| - 1].fact) then |sorted|
    else Slot(sorted[..|sorted| - 1], observation)
  }

  function Placed(sorted: seq<FactObservation>, last: FactObservation): seq<FactObservation> {
    var k := Slot(sorted, last);
    sorted[..k] + [last] + sorted[k..]
  }

  // The standard library's stable sort by fact identity.
  function SortedByFact(observations: seq<FactObservation>): seq<FactObservation> {
    if observations == [] then []
    else Placed(SortedByFact(observations[..|observations| - 1]), observations[|observations| - 1])
  }

  lemma PlacedContents(sorted: seq<FactObservation>, last: FactObservation)
    ensures multiset(Placed(sorted, last)) == multiset(sorted) + multiset{last}
  {
    var k := Slot(sorted, last);
    assert sorted == sorted[..k] + sorted[k..];
  }

  lemma LastAdded(observations: seq<FactObservation>)
    requires observations != []
    ensures multiset(observations) ==
      multiset(observations[..|observations| - 1]) + multiset{observations[|observations| - 1]}
  {
    assert observations == observations[..|observations| - 1] + [observations[|observations| - 1]];
  }

  lemma {:induction false} SortKeepsContents(observations: seq<FactObservation>)
    ensures multiset(SortedByFact(observations)) == multiset(observations)
  {
    if observations != [] {
      SortKeepsContents(observations[..|observations| - 1]);
      PlacedContents(SortedByFact(observations[..|observations| - 1]), observations[|observations| - 1]);
      LastAdded(observations);
    }
  }

  lemma {:induction false} SortOrders(observations: seq<FactObservation>)
    ensures Ordered(SortedByFact(observations))
  {
    if observations != [] {
      var most, last := observations[..|observations| - 1], observations[|observations| - 1];
      SortOrders(most);
      SlotKeepsOrder(SortedByFact(most), last);
    }
  }

  lemma SlotKeepsOrder(sorted: seq<FactObservation>, last: FactObservation)
    requires Ordered(sorted)
    ensures Ordered(Placed(sorted, last))
  {
    var k := Slot(sorted, last);
    forall i | k <= i < |sorted| ensures !FactSets.Before(sorted[i].fact, last.fact) {
      FactSets.BeforeTotal(sorted[i].fact, last.fact);
    }
    forall i | 0 <= i < k ensures !FactSets.Before(last.fact, sorted[i].fact) {
      if FactSets.Before(last.fact, sorted[i].fact) {
        FactSets.BeforeTotal(sorted[i].fact, sorted[k - 1].fact);
        if i < k - 1 && sorted[i].fact != sorted[k - 1].fact {
          FactSets.BeforeTransitive(last.fact, sorted[i].fact, sorted[k - 1].fact);
        }
      }
    }
  }

  // ----- evidence -----

  method WithObservations(resolution: FactResolution, observations: seq<FactObservation>)
    returns (result: Result<FactResolution, ObservationError>)
    ensures result.Ok? <==> Matched(observations, resolution.facts).Ok?
    ensures result.Err? ==> Matched(observations, resolution.facts) == Err(result.error)
    ensures result.Ok? ==>
      && result.value == resolution.(observations := SortedByFact(observations))
      && Ordered(result.value.observations)
      && multiset(result.value.observations) == multiset(observations)
  {
    var matched := MatchAll(observations, resolution.facts);
    if matched.Err? {
      return Err(matched.error);
    }
    SortKeepsContents(observations);
    SortOrders(observations);
    result := Ok(resolution.(observations := SortedByFact(observations)));
  }

  function EvidenceOf(digest: KnownFacts -> Option<string>, resolution: FactResolution)
    : Result<Evidence, EvidenceError>
  {
    match Matched(resolution.observations, resolution.facts)
    case Err(error) => Err(SelectedObservations(error))
    case Ok(_) =>
      match digest(resolution.facts)
      case None => Err(FactsNotSerializable)
      case Some(value) =>
        Ok(Evidence(
          if resolution.metadata.Some? then Some(resolution.metadata.value.source) else None,
          if resolution.metadata.Some? then resolution.metadata.value.revision else None,
          resolution.observedAt,
          Deadline(resolution.metadata),
          value,
          resolution.observations))
  }

  method EvidenceFromResolution(digest: KnownFacts -> Option<string>, resolution: FactResolution)
    returns (result: Result<Evidence, EvidenceError>)
    ensures result == EvidenceOf(digest, resolution)
  {
    var matched := MatchAll(resolution.observations, resolution.facts);
    if matched.Err? {
      return Err(SelectedObservations(matched.error));
    }
    var value := digest(resolution.facts);
    if value.None? {
      return Err(FactsNotSerializable);
    }
    var source, revision := None, None;
    if resolution.metadata.Some? {
      source, revision := Some(resolution.metadata.value.source), resolution.metadata.value.revision;
    }
    result := Ok(Evidence(
      source, revision, resolution.observedAt, Deadline(resolution.metadata), value.value, resolution.observations));
  }
}
