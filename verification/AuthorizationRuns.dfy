/** What every run of an authorizer keeps, whatever the clock, the resolvers and the sink answer. */
module AuthorizationRuns {
  import opened Wrappers
  import opened Facts
  import opened Policies
  import opened Consulting
  import opened Evaluation
  import opened Semantics
  import opened Observations
  import opened Contexts
  import opened Audit
  import opened Authorization
  import FactSets
  import Denials

  // ----- assembling -----

  lemma EvaluationIsSound<O>(lattice: Lattice<O>, policy: Policy<O>, facts: KnownFacts)
    ensures DecisionSound(Evaluate(lattice, policy, facts), facts)
  {
    EvaluationCoherent(lattice, policy, facts);
    ConsultedEvidence(lattice, policy, facts);
  }

  // What passing the checks at `now` establishes.
  ghost predicate Admitted(
      required: Option<seq<FactId>>, context: Context, resolution: FactResolution, evidence: Evidence, now: Instant)
  {
    && context.tenant == context.binding.tenant && BindingUsable(context.binding, now)
    && UsableAt(resolution.observedAt, Deadline(resolution.metadata), now)
    && (forall o | o in resolution.observations :: UsableAt(o.observedAt, Deadline(o.metadata), now))
    && AllAgree(resolution.observations, resolution.facts)
    && (required.Some? ==> forall f | f in required.value :: f in resolution.facts)
    && evidence.observations == resolution.observations
    && evidence.observedAt == resolution.observedAt && evidence.freshUntil == Deadline(resolution.metadata)
  }

  lemma AdmitMeans<O>(
      world: World<O>, required: Option<seq<FactId>>, context: Context, resolution: FactResolution, now: Instant)
    requires Admit(world, required, context, resolution, now).Ok?
    ensures Admitted(required, context, resolution, Admit(world, required, context, resolution, now).value, now)
  {
    FreshIff(resolution, now);
  }

  lemma OccurrenceForIsValid<O>(world: World<O>, state: State, context: Context)
    requires WellFormed(context)
    ensures var (_, occurrence) := OccurrenceFor(world, state, context);
      occurrence.Ok? ==> ValidateOccurrence(occurrence.value).Ok?
  {
    if context.occurrence.None? {
      var id, at := world.freshId(state.idsDrawn), world.clock(state.clockReads);
      if NewOccurrence(id, at).Ok? {
        NewOccurrencesAreValid(id, at);
      }
    }
  }

  lemma FreezeNeverInvalid<O>(
      world: World<O>, occurrence: Occurrence, anchor: PolicyAnchor, policy: Policy<O>,
      context: Context, resolution: FactResolution, evidence: Evidence, now: Instant)
    requires ValidateOccurrence(occurrence).Ok? && anchor.hashVersion == POLICY_HASH_FORMAT_VERSION
    requires Admitted(None, context, resolution, evidence, now)
    ensures var decision := Evaluate(world.lattice, policy, resolution.facts);
      var frozen := Freeze(world, occurrence, anchor, decision, context, evidence);
      frozen.Err? ==> frozen.error.TraceFailure?
  {
    var decision := Evaluate(world.lattice, policy, resolution.facts);
    EvaluationIsSound(world.lattice, policy, resolution.facts);
    DerivedEntriesAreValid(world.serialize, occurrence, anchor, decision, context, evidence, resolution.facts);
  }

  // With a validated context and a current anchor, no answer of the resolver, the clock or the
  // serializers makes assembling fail because the audit entry is invalid.
  lemma AssembleNeverInvalidEntry<O>(
      world: World<O>, state: State, policy: Policy<O>, anchor: PolicyAnchor, required: Option<seq<FactId>>,
      context: Context, resolution: FactResolution)
    requires WellFormed(context) && anchor.hashVersion == POLICY_HASH_FORMAT_VERSION
    ensures var (_, result) := Assemble(world, state, policy, anchor, required, context, resolution);
      result.Err? ==> !result.error.AuditEntryInvalid?
  {
    var received := world.clock(state.clockReads).instant;
    var admitted := Admit(world, required, context, resolution, received);
    var result := Assemble(world, state, policy, anchor, required, context, resolution).1;
    if admitted.Ok? {
      AdmitMeans(world, required, context, resolution, received);
      AdmittedNeverInvalid(world, state, policy, anchor, context, resolution, admitted.value, received);
    } else {
      AdmitErrors(world, required, context, resolution, received);
      assert result == Err(admitted.error);
    }
  }

  lemma AdmitErrors<O>(
      world: World<O>, required: Option<seq<FactId>>, context: Context, resolution: FactResolution, now: Instant)
    requires Admit(world, required, context, resolution, now).Err?
    ensures !Admit(world, required, context, resolution, now).error.AuditEntryInvalid?
  {
  }

  lemma AdmittedNeverInvalid<O>(
      world: World<O>, state: State, policy: Policy<O>, anchor: PolicyAnchor, context: Context,
      resolution: FactResolution, evidence: Evidence, now: Instant)
    requires WellFormed(context) && anchor.hashVersion == POLICY_HASH_FORMAT_VERSION
    requires Admitted(None, context, resolution, evidence, now)
    ensures var next := state.(clockReads := state.clockReads + 1);
      var (_, occurrence) := OccurrenceFor(world, next, context);
      var decision := Evaluate(world.lattice, policy, resolution.facts);
      occurrence.Ok? ==>
        var frozen := Freeze(world, occurrence.value, anchor, decision, context, evidence);
        frozen.Err? ==> frozen.error.TraceFailure?
  {
    var next := state.(clockReads := state.clockReads + 1);
    OccurrenceForIsValid(world, next, context);
    var (_, occurrence) := OccurrenceFor(world, next, context);
    if occurrence.Ok? {
      FreezeNeverInvalid(world, occurrence.value, anchor, policy, context, resolution, evidence, now);
    }
  }

  // ----- frozen decisions -----

  // The entry states the decision and the context it was made for.
  ghost predicate Records<O>(entry: AuditEntry, decision: Decision<O>) {
    && entry.effect == KindOf(decision.effect)
    && entry.obligations == decision.obligations
    && entry.consulted == decision.consulted
  }

  ghost predicate ForContext(entry: AuditEntry, context: Context) {
    && entry.tenant == context.tenant && entry.binding == context.binding
    && entry.principal == context.principal && entry.subjects == context.subjects
    && entry.requestId == context.requestId && entry.locale == context.locale
    && (context.occurrence.Some? ==> entry.occurrence == context.occurrence.value)
  }

  // At some instant the clock gave, the binding was usable and all the evidence current.
  ghost predicate CurrentAt(entry: AuditEntry, now: Instant) {
    && BindingUsable(entry.binding, now)
    && UsableAt(entry.evidence.observedAt, entry.evidence.freshUntil, now)
    && forall o | o in entry.evidence.observations :: UsableAt(o.observedAt, Deadline(o.metadata), now)
  }

  ghost predicate DecidedCurrent<O>(world: World<O>, state: State, entry: AuditEntry) {
    exists k | 0 <= k < state.clockReads :: CurrentAt(entry, world.clock(k).instant)
  }

  ghost predicate GoodEntry<O>(world: World<O>, state: State, entry: AuditEntry) {
    ValidateCurrent(entry).Ok? && DecidedCurrent(world, state, entry)
  }

  ghost predicate GoodPending<O>(world: World<O>, state: State, pending: PendingDecision<O>) {
    GoodEntry(world, state, pending.entry) && Records(pending.entry, pending.decision)
  }

  // Assembling touches neither the sink nor the observer, and what it freezes is good.
  lemma AssembleMeans<O>(
      world: World<O>, state: State, policy: Policy<O>, anchor: PolicyAnchor, required: Option<seq<FactId>>,
      context: Context, resolution: FactResolution)
    ensures var (after, result) := Assemble(world, state, policy, anchor, required, context, resolution);
      && after.accepted == state.accepted && after.observed == state.observed
      && after.sinkCalls == state.sinkCalls && after.clockReads > state.clockReads
      && (result.Ok? ==>
           && GoodPending(world, after, result.value)
           && ForContext(result.value.entry, context) && result.value.entry.anchor == anchor
           && result.value.entry.evidence.observations == resolution.observations
           && AllAgree(resolution.observations, resolution.facts)
           && result.value.decision == Evaluate(world.lattice, policy, resolution.facts)
           && (required.Some? ==> forall f | f in required.value :: f in resolution.facts))
  {
    var (after, result) := Assemble(world, state, policy, anchor, required, context, resolution);
    var received := world.clock(state.clockReads).instant;
    if result.Ok? {
      AdmitMeans(world, required, context, resolution, received);
      var evidence := Admit(world, required, context, resolution, received).value;
      var occurrence := OccurrenceFor(world, state.(clockReads := state.clockReads + 1), context).1.value;
      var decision := Evaluate(world.lattice, policy, resolution.facts);
      assert result == Freeze(world, occurrence, anchor, decision, context, evidence);
      FreezeMeans(world, occurrence, anchor, decision, context, evidence);
      assert CurrentAt(result.value.entry, world.clock(state.clockReads).instant);
    }
  }

  lemma FreezeMeans<O>(
      world: World<O>, occurrence: Occurrence, anchor: PolicyAnchor, decision: Decision<O>,
      context: Context, evidence: Evidence)
    requires Freeze(world, occurrence, anchor, decision, context, evidence).Ok?
    requires context.occurrence.Some? ==> occurrence == context.occurrence.value
    ensures var pending := Freeze(world, occurrence, anchor, decision, context, evidence).value;
      && pending.decision == decision && ValidateCurrent(pending.entry).Ok?
      && Records(pending.entry, decision) && ForContext(pending.entry, context)
      && pending.entry.anchor == anchor && pending.entry.evidence == evidence
  {
  }

  // ----- runs -----

  datatype Command<O> =
    | Authorize(prepared: PreparedPolicy<O>, context: Context)
    | AuthorizePolicy(id: string, policy: Policy<O>, context: Context)
    | Prepare(prepared: PreparedPolicy<O>, context: Context)
    | PrepareResolution(prepared: PreparedPolicy<O>, context: Context, resolution: FactResolution)
    | PersistPending(index: nat)
    | AuthorizeBatch(prepared: PreparedPolicy<O>, contexts: seq<Context>, limit: nat)

  datatype Response<O> =
    | Decided(decided: AuthorizationDecision<O>)
    | Frozen(frozen: PendingDecision<O>)
    | Refused(error: AuthorizationError)
    | NotPersisted(source: string)
    | NothingPending
    | BatchDone(results: seq<Outcome<O>>)
    | BatchRefused(batchError: BatchError)

  // The caller keeps every decision frozen for it, and may persist any of them, any number of times.
  datatype Session<O> = Session(state: State, pending: seq<PendingDecision<O>>)

  function Answer<O>(outcome: Outcome<O>): Response<O> {
    match outcome
    case Ok(decided) => Decided(decided)
    case Err(error) => Refused(error)
  }

  function Froze<O>(session: Session<O>, result: (State, Result<PendingDecision<O>, AuthorizationError>))
    : (Session<O>, Response<O>)
  {
    match result.1
    case Ok(frozen) => (Session(result.0, session.pending + [frozen]), Frozen(frozen))
    case Err(error) => (Session(result.0, session.pending), Refused(error))
  }

  function Step<O(==)>(world: World<O>, session: Session<O>, command: Command<O>): (Session<O>, Response<O>) {
    match command
    case Authorize(prepared, context) =>
      var (state, outcome) := Authorization.Authorize(world, session.state, prepared, context);
      (session.(state := state), Answer(outcome))
    case AuthorizePolicy(id, policy, context) =>
      var (state, outcome) := Authorization.AuthorizePolicy(world, session.state, id, policy, context);
      (session.(state := state), Answer(outcome))
    case Prepare(prepared, context) =>
      Froze(session, Authorization.Prepare(world, session.state, prepared, context))
    case PrepareResolution(prepared, context, resolution) =>
      Froze(session, Authorization.PrepareResolution(world, session.state, prepared, context, resolution))
    case PersistPending(index) =>
      if index >= |session.pending| then (session, NothingPending)
      else
        var (state, result) := Authorization.PersistPending(world, session.state, session.pending[index]);
        (session.(state := state),
         match result case Ok(decided) => Decided(decided) case Err(source) => NotPersisted(source))
    case AuthorizeBatch(prepared, contexts, limit) =>
      var (state, result) := Authorization.AuthorizeBatch(world, session.state, prepared, contexts, limit);
      (session.(state := state),
       match result case Ok(results) => BatchDone(results) case Err(error) => BatchRefused(error))
  }

  function Execute<O(==)>(world: World<O>, session: Session<O>, commands: seq<Command<O>>)
    : (Session<O>, seq<Response<O>>)
  {
    if commands == [] then (session, [])
    else
      var n := |commands| - 1;
      var (earlier, responses) := Execute(world, session, commands[..n]);
      var (last, response) := Step(world, earlier, commands[n]);
      (last, responses + [response])
  }

  // ----- what one response says about the sink -----

  function Returned<O>(results: seq<Outcome<O>>): seq<AuthorizationDecision<O>> {
    if results == [] then []
    else
      var earlier, last := Returned(results[..|results| - 1]), results[|results| - 1];
      if last.Ok? then earlier + [last.value] else earlier
  }

  function DecisionsIn<O>(response: Response<O>): seq<AuthorizationDecision<O>> {
    match response
    case Decided(decided) => [decided]
    case BatchDone(results) => Returned(results)
    case _ => []
  }

  function AllDecisions<O>(responses: seq<Response<O>>): seq<AuthorizationDecision<O>> {
    if responses == [] then []
    else AllDecisions(responses[..|responses| - 1]) + DecisionsIn(responses[|responses| - 1])
  }

  // An entry accepted for exactly this returned decision, under its occurrence.
  ghost predicate Evidences<O>(entry: AuditEntry, decided: AuthorizationDecision<O>) {
    Records(entry, decided.decision) && entry.occurrence == decided.occurrence
  }

  ghost predicate EvidencedBy<O>(decisions: seq<AuthorizationDecision<O>>, entries: seq<AuditEntry>) {
    |decisions| == |entries| && forall i | 0 <= i < |entries| :: Evidences(entries[i], decisions[i])
  }

  function Summaries(entries: seq<AuditEntry>): seq<DecisionSummary> {
    seq(|entries|, i requires 0 <= i < |entries| => SummaryOf(entries[i]))
  }

  // Moving from one state to a later one accepted exactly the entries of the returned decisions,
  // in order, each of them good, and showed the observer exactly their summaries.
  ghost predicate Accounts<O>(
      world: World<O>, before: State, after: State, decisions: seq<AuthorizationDecision<O>>)
  {
    && before.clockReads <= after.clockReads && before.sinkCalls <= after.sinkCalls
    && before.accepted <= after.accepted
    && var entries := after.accepted[|before.accepted|..];
       && EvidencedBy(decisions, entries)
       && (forall i | 0 <= i < |entries| :: GoodEntry(world, after, entries[i]))
       && after.observed == before.observed + Summaries(entries)
  }

  lemma GoodStaysGood<O>(world: World<O>, before: State, after: State, entry: AuditEntry)
    requires before.clockReads <= after.clockReads && GoodEntry(world, before, entry)
    ensures GoodEntry(world, after, entry)
  {
    var k :| 0 <= k < before.clockReads && CurrentAt(entry, world.clock(k).instant);
    assert CurrentAt(entry, world.clock(k).instant);
  }

  lemma AccountsNothing<O>(world: World<O>, before: State, after: State)
    requires before.clockReads <= after.clockReads && before.sinkCalls <= after.sinkCalls
    requires after.accepted == before.accepted && after.observed == before.observed
    ensures Accounts<O>(world, before, after, [])
  {
  }

  lemma AccountsCompose<O>(
      world: World<O>, first: State, second: State, third: State,
      earlier: seq<AuthorizationDecision<O>>, later: seq<AuthorizationDecision<O>>)
    requires Accounts(world, first, second, earlier) && Accounts(world, second, third, later)
    ensures Accounts(world, first, third, earlier + later)
  {
    var m := |first.accepted|;
    var left, right := second.accepted[m..], third.accepted[|second.accepted|..];
    assert third.accepted[m..] == left + right;
    forall i | 0 <= i < |left| ensures GoodEntry(world, third, left[i]) {
      GoodStaysGood(world, second, third, left[i]);
    }
    EvidenceAppends(earlier, later, left, right);
    SummariesAppend(left, right);
    assert first.observed + (Summaries(left) + Summaries(right)) ==
      first.observed + Summaries(left) + Summaries(right);
  }

  lemma EvidenceAppends<O>(
      earlier: seq<AuthorizationDecision<O>>, later: seq<AuthorizationDecision<O>>,
      left: seq<AuditEntry>, right: seq<AuditEntry>)
    requires EvidencedBy(earlier, left) && EvidencedBy(later, right)
    ensures EvidencedBy(earlier + later, left + right)
  {
  }

  lemma SummariesAppend(left: seq<AuditEntry>, right: seq<AuditEntry>)
    ensures Summaries(left + right) == Summaries(left) + Summaries(right)
  {
  }

  // ----- each operation -----

  lemma PersistAccounts<O>(world: World<O>, state: State, pending: PendingDecision<O>)
    requires GoodPending(world, state, pending)
    ensures var (after, result) := Authorization.PersistPending(world, state, pending);
      && after.clockReads == state.clockReads
      && Accounts(world, state, after, if result.Ok? then [result.value] else [])
      && (result.Ok? <==> world.sinkFailure(state.sinkCalls).None?)
      && (result.Ok? ==> after.accepted == state.accepted + [pending.entry])
  {
    var (after, result) := Authorization.PersistPending(world, state, pending);
    if result.Ok? {
      assert after.accepted[|state.accepted|..] == [pending.entry];
      assert Summaries([pending.entry]) == [SummaryOf(pending.entry)];
      GoodStaysGood(world, state, after, pending.entry);
    } else {
      AccountsNothing<O>(world, state, after);
    }
  }

  // The decision a finished item returns, and the entry accepted with it.
  lemma FinishAccounts<O>(
      world: World<O>, state: State, policy: Policy<O>, anchor: PolicyAnchor, required: Option<seq<FactId>>,
      context: Context, resolution: FactResolution)
    ensures var (after, result) := Finish(world, state, policy, anchor, required, context, resolution);
      && Accounts(world, state, after, if result.Ok? then [result.value] else [])
      && (result.Ok? ==>
           && result.value.decision == Evaluate(world.lattice, policy, resolution.facts)
           && (context.occurrence.Some? ==> result.value.occurrence == context.occurrence.value)
           && |after.accepted| == |state.accepted| + 1
           && ForContext(after.accepted[|state.accepted|], context)
           && (required.Some? ==> forall f | f in required.value :: f in resolution.facts))
  {
    AssembleMeans(world, state, policy, anchor, required, context, resolution);
    var (assembled, pending) := Assemble(world, state, policy, anchor, required, context, resolution);
    AccountsNothing<O>(world, state, assembled);
    if pending.Ok? {
      PersistAccounts(world, assembled, pending.value);
      var (after, result) := Authorization.PersistPending(world, assembled, pending.value);
      var decisions := if result.Ok? then [result.value] else [];
      AccountsCompose(world, state, assembled, after, [], decisions);
      assert [] + decisions == decisions;
    }
  }

  lemma RunAccounts<O>(
      world: World<O>, state: State, policy: Policy<O>, anchor: PolicyAnchor, required: Option<seq<FactId>>,
      context: Context)
    ensures var (after, result) := Run(world, state, policy, anchor, required, context);
      && Accounts(world, state, after, if result.Ok? then [result.value] else [])
      && (result.Ok? ==>
           && |after.accepted| == |state.accepted| + 1
           && ForContext(after.accepted[|state.accepted|], context))
  {
    var (resolved, resolution) := Resolve(world, state, context);
    AccountsNothing<O>(world, state, resolved);
    if resolution.Ok? {
      FinishAccounts(world, resolved, policy, anchor, required, context, resolution.value);
      var (after, result) := Finish(world, resolved, policy, anchor, required, context, resolution.value);
      var decisions := if result.Ok? then [result.value] else [];
      AccountsCompose(world, state, resolved, after, [], decisions);
      assert [] + decisions == decisions;
    }
  }

  // A checked decision evaluates facts that mention every required fact explicitly; an omission is
  // an error even where a negated condition would have permitted.
  lemma CheckedDecisionsAreComplete<O>(
      world: World<O>, state: State, prepared: PreparedPolicy<O>, context: Context)
    requires Genuine(prepared)
    ensures var (_, result) := Authorization.Authorize(world, state, prepared, context);
      result.Ok? ==>
        && world.resolver(state.resolverCalls).Ok?
        && var facts := world.resolver(state.resolverCalls).value.facts;
           && result.value.decision == Evaluate(world.lattice, prepared.policy, facts)
           && forall f | f in PolicyFacts(prepared.policy) :: f in facts
  {
    var (resolved, resolution) := Resolve(world, state, context);
    if resolution.Ok? {
      FinishAccounts(
        world, resolved, prepared.policy, prepared.anchor, Some(prepared.required), context, resolution.value);
      assert forall f | f in PolicyFacts(prepared.policy) :: f in FactSets.Elements(prepared.required);
    }
  }

  // ----- batches -----

  // A result answers its own context and resolution: a resolver failure is passed on, and a decision
  // is the policy evaluated on the facts resolved at this position.
  ghost predicate Answers<O>(
      world: World<O>, prepared: PreparedPolicy<O>, context: Context,
      resolution: Result<FactResolution, ResolveError>, result: Outcome<O>)
  {
    match resolution
    case Err(error) => result == Err(ResolveFailed(error))
    case Ok(resolved) =>
      result.Ok? ==>
        && result.value.decision == Evaluate(world.lattice, prepared.policy, resolved.facts)
        && (forall f | f in prepared.required :: f in resolved.facts)
        && (context.occurrence.Some? ==> result.value.occurrence == context.occurrence.value)
  }

  lemma {:induction false} ItemsAccount<O>(
      world: World<O>, state: State, prepared: PreparedPolicy<O>, contexts: seq<Context>,
      resolutions: seq<Result<FactResolution, ResolveError>>)
    requires |contexts| == |resolutions|
    ensures var (after, results) := Items(world, state, prepared, contexts, resolutions);
      Accounts(world, state, after, Returned(results))
  {
    if contexts == [] {
      AccountsNothing<O>(world, state, state);
    } else {
      var n := |contexts| - 1;
      ItemsAccount(world, state, prepared, contexts[..n], resolutions[..n]);
      var (earlier, most) := Items(world, state, prepared, contexts[..n], resolutions[..n]);
      var (last, result) := Item(world, earlier, prepared, contexts[n], resolutions[n]);
      ItemAccounts(world, earlier, prepared, contexts[n], resolutions[n]);
      var decisions := if result.Ok? then [result.value] else [];
      AccountsCompose(world, state, earlier, last, Returned(most), decisions);
      assert (most + [result])[..n] == most;
      assert Returned(most + [result]) == Returned(most) + decisions;
    }
  }

  lemma {:induction false} ItemsAnswer<O>(
      world: World<O>, state: State, prepared: PreparedPolicy<O>, contexts: seq<Context>,
      resolutions: seq<Result<FactResolution, ResolveError>>)
    requires |contexts| == |resolutions|
    ensures var (_, results) := Items(world, state, prepared, contexts, resolutions);
      forall i | 0 <= i < |contexts| :: Answers(world, prepared, contexts[i], resolutions[i], results[i])
  {
    if contexts != [] {
      var n := |contexts| - 1;
      ItemsAnswer(world, state, prepared, contexts[..n], resolutions[..n]);
      var (earlier, most) := Items(world, state, prepared, contexts[..n], resolutions[..n]);
      ItemAccounts(world, earlier, prepared, contexts[n], resolutions[n]);
      var results := Items(world, state, prepared, contexts, resolutions).1;
      assert results == most + [Item(world, earlier, prepared, contexts[n], resolutions[n]).1];
      forall i | 0 <= i < n ensures Answers(world, prepared, contexts[i], resolutions[i], results[i]) {
        assert contexts[..n][i] == contexts[i] && resolutions[..n][i] == resolutions[i] && results[i] == most[i];
      }
    }
  }

  lemma ItemAccounts<O>(
      world: World<O>, state: State, prepared: PreparedPolicy<O>, context: Context,
      resolution: Result<FactResolution, ResolveError>)
    ensures var (after, result) := Item(world, state, prepared, context, resolution);
      && Accounts(world, state, after, if result.Ok? then [result.value] else [])
      && Answers(world, prepared, context, resolution, result)
  {
    if resolution.Ok? {
      FinishAccounts(
        world, state, prepared.policy, prepared.anchor, Some(prepared.required), context, resolution.value);
    } else {
      AccountsNothing<O>(world, state, state);
    }
  }

  // The entries a batch appends stand for the contexts whose results are decisions, in input order.
  function DecidedContexts<O>(contexts: seq<Context>, results: seq<Outcome<O>>): seq<Context>
    requires |contexts| == |results|
  {
    if contexts == [] then []
    else
      var n := |contexts| - 1;
      var earlier := DecidedContexts(contexts[..n], results[..n]);
      if results[n].Ok? then earlier + [contexts[n]] else earlier
  }

  lemma {:induction false} ItemsAnswerTheirContexts<O>(
      world: World<O>, state: State, prepared: PreparedPolicy<O>, contexts: seq<Context>,
      resolutions: seq<Result<FactResolution, ResolveError>>)
    requires |contexts| == |resolutions|
    ensures var (after, results) := Items(world, state, prepared, contexts, resolutions);
      var answered := DecidedContexts(contexts, results);
      && |after.accepted| == |state.accepted| + |answered|
      && state.accepted <= after.accepted
      && forall j | 0 <= j < |answered| :: ForContext(after.accepted[|state.accepted| + j], answered[j])
  {
    if contexts != [] {
      var n := |contexts| - 1;
      ItemsAnswerTheirContexts(world, state, prepared, contexts[..n], resolutions[..n]);
      var (earlier, most) := Items(world, state, prepared, contexts[..n], resolutions[..n]);
      var (last, result) := Item(world, earlier, prepared, contexts[n], resolutions[n]);
      assert (most + [result])[..n] == most;
      if resolutions[n].Ok? {
        FinishAccounts(
          world, earlier, prepared.policy, prepared.anchor, Some(prepared.required), contexts[n],
          resolutions[n].value);
      }
    }
  }

  lemma BatchErrorsWriteNothing<O>(
      world: World<O>, state: State, prepared: PreparedPolicy<O>, contexts: seq<Context>, limit: nat)
    ensures var (after, result) := Authorization.AuthorizeBatch(world, state, prepared, contexts, limit);
      result.Err? ==>
        && after.accepted == state.accepted && after.observed == state.observed
        && after.sinkCalls == state.sinkCalls && after.clockReads >= state.clockReads
        && (result.error.Limit? <==> |contexts| > limit)
  {
    if 0 < |contexts| <= limit {
      ChecksOnlyReadTheClock(world, state, contexts, 0);
    }
  }

  // Checking contexts takes one clock reading for each checked one, and stops at the first that
  // fails at its own reading.
  lemma {:induction false} ChecksOnlyReadTheClock<O>(world: World<O>, state: State, contexts: seq<Context>, i: nat)
    requires i <= |contexts|
    ensures var (after, failure) := CheckContexts(world, state, contexts, i);
      && after == state.(clockReads := after.clockReads) && after.clockReads >= state.clockReads
      && (failure.None? ==> after.clockReads == state.clockReads + (|contexts| - i))
      && (failure.Some? ==> FailsAt(world, state.clockReads, contexts, i, failure.value, after.clockReads))
    decreases |contexts| - i
  {
    if i < |contexts| && ValidateContext(contexts[i], world.clock(state.clockReads).instant).Ok? {
      ChecksOnlyReadTheClock(world, state.(clockReads := state.clockReads + 1), contexts, i + 1);
    }
  }

  ghost predicate FailsAt<O>(
      world: World<O>, before: nat, contexts: seq<Context>, i: nat, failure: BatchError, after: nat)
  {
    && failure.ContextAt? && i <= failure.index < |contexts| && after == before + (failure.index - i) + 1
    && ValidateContext(contexts[failure.index], world.clock(after - 1).instant) == Err(failure.contextError)
  }

  // The state a batch's items start in, once every context passed and the bulk load answered.
  function ItemsStart(state: State, contexts: seq<Context>): State {
    state.(clockReads := state.clockReads + |contexts|, bulkCalls := state.bulkCalls + 1)
  }

  lemma BatchRunsItems<O>(
      world: World<O>, state: State, prepared: PreparedPolicy<O>, contexts: seq<Context>, limit: nat)
    requires contexts != [] && Authorization.AuthorizeBatch(world, state, prepared, contexts, limit).1.Ok?
    ensures world.bulk(state.bulkCalls).Ok? && |world.bulk(state.bulkCalls).value| == |contexts| <= limit
    ensures var (after, result) := Authorization.AuthorizeBatch(world, state, prepared, contexts, limit);
      (after, result.value) ==
        Items(world, ItemsStart(state, contexts), prepared, contexts, world.bulk(state.bulkCalls).value)
  {
    ChecksOnlyReadTheClock(world, state, contexts, 0);
    var (checked, _) := CheckContexts(world, state, contexts, 0);
    assert checked.(bulkCalls := checked.bulkCalls + 1) == ItemsStart(state, contexts);
  }

  // What a batch returned is exactly what the sink accepted, in order.
  lemma BatchAccounts<O>(
      world: World<O>, state: State, prepared: PreparedPolicy<O>, contexts: seq<Context>, limit: nat)
    ensures var (after, result) := Authorization.AuthorizeBatch(world, state, prepared, contexts, limit);
      Accounts(world, state, after, if result.Ok? then Returned(result.value) else [])
  {
    var (after, result) := Authorization.AuthorizeBatch(world, state, prepared, contexts, limit);
    if result.Err? {
      BatchErrorsWriteNothing(world, state, prepared, contexts, limit);
      AccountsNothing<O>(world, state, after);
    } else if contexts == [] {
      AccountsNothing<O>(world, state, after);
    } else {
      BatchRunsItems(world, state, prepared, contexts, limit);
      var asked := ItemsStart(state, contexts);
      ItemsAccount(world, asked, prepared, contexts, world.bulk(state.bulkCalls).value);
      AccountsNothing<O>(world, state, asked);
      AccountsCompose(world, state, asked, after, [], Returned(result.value));
      assert [] + Returned(result.value) == Returned(result.value);
    }
  }

  // One result for each context, answering it position by position; the accepted entries stand for
  // the contexts that got a decision, in input order.
  lemma BatchAnswersContexts<O>(
      world: World<O>, state: State, prepared: PreparedPolicy<O>, contexts: seq<Context>, limit: nat)
    requires contexts != [] && Authorization.AuthorizeBatch(world, state, prepared, contexts, limit).1.Ok?
    ensures world.bulk(state.bulkCalls).Ok? && |world.bulk(state.bulkCalls).value| == |contexts|
    ensures var (after, result) := Authorization.AuthorizeBatch(world, state, prepared, contexts, limit);
      && |result.value| == |contexts|
      && (forall i | 0 <= i < |contexts| ::
            Answers(world, prepared, contexts[i], world.bulk(state.bulkCalls).value[i], result.value[i]))
      && var decided := DecidedContexts(contexts, result.value);
         && |after.accepted| == |state.accepted| + |decided|
         && forall j | 0 <= j < |decided| :: ForContext(after.accepted[|state.accepted| + j], decided[j])
  {
    BatchRunsItems(world, state, prepared, contexts, limit);
    var asked, resolutions := ItemsStart(state, contexts), world.bulk(state.bulkCalls).value;
    ItemsAnswer(world, asked, prepared, contexts, resolutions);
    ItemsAnswerTheirContexts(world, asked, prepared, contexts, resolutions);
  }

  // ----- steps and runs -----

  ghost predicate AllPendingGood<O>(world: World<O>, session: Session<O>) {
    forall i | 0 <= i < |session.pending| :: GoodPending(world, session.state, session.pending[i])
  }

  lemma PendingStaysGood<O>(world: World<O>, before: Session<O>, after: State)
    requires AllPendingGood(world, before) && before.state.clockReads <= after.clockReads
    ensures AllPendingGood(world, Session(after, before.pending))
  {
    forall i | 0 <= i < |before.pending| ensures GoodPending(world, after, before.pending[i]) {
      GoodStaysGood(world, before.state, after, before.pending[i].entry);
    }
  }

  lemma AuthorizePolicyAccounts<O>(world: World<O>, state: State, id: string, policy: Policy<O>, context: Context)
    ensures var (after, result) := Authorization.AuthorizePolicy(world, state, id, policy, context);
      Accounts(world, state, after, if result.Ok? then [result.value] else [])
  {
    var next := state.(clockReads := state.clockReads + 1);
    AccountsNothing<O>(world, state, next);
    var digest := world.hash(policy);
    if digest.Some? {
      var anchor := NewAnchor(id, digest.value);
      RunAccounts(world, next, policy, anchor, None, context);
      var (after, result) := Run(world, next, policy, anchor, None, context);
      var decisions := if result.Ok? then [result.value] else [];
      AccountsCompose(world, state, next, after, [], decisions);
      assert [] + decisions == decisions;
    }
  }

  lemma FreezingKeeps<O>(
      world: World<O>, session: Session<O>, resolved: State, prepared: PreparedPolicy<O>, context: Context,
      resolution: FactResolution)
    requires AllPendingGood(world, session)
    requires resolved.clockReads >= session.state.clockReads && resolved.sinkCalls == session.state.sinkCalls
    requires resolved.accepted == session.state.accepted && resolved.observed == session.state.observed
    ensures var (next, response) :=
        Froze(session, Authorization.PrepareResolution(world, resolved, prepared, context, resolution));
      && AllPendingGood(world, next) && DecisionsIn(response) == []
      && Accounts<O>(world, session.state, next.state, [])
  {
    AssembleMeans(world, resolved, prepared.policy, prepared.anchor, Some(prepared.required), context, resolution);
    var (after, result) := Authorization.PrepareResolution(world, resolved, prepared, context, resolution);
    AccountsNothing<O>(world, session.state, after);
    PendingStaysGood(world, session, after);
  }

  ghost predicate StepAccounts<O>(world: World<O>, session: Session<O>, command: Command<O>) {
    var (after, response) := Step(world, session, command);
    && AllPendingGood(world, after)
    && Accounts(world, session.state, after.state, DecisionsIn(response))
  }

  lemma AuthorizeKeeps<O>(world: World<O>, session: Session<O>, command: Command<O>)
    requires AllPendingGood(world, session) && (command.Authorize? || command.AuthorizePolicy?)
    ensures StepAccounts(world, session, command)
  {
    var state := session.state;
    match command {
      case Authorize(prepared, context) =>
        RunAccounts(world, state, prepared.policy, prepared.anchor, Some(prepared.required), context);
      case AuthorizePolicy(id, policy, context) =>
        AuthorizePolicyAccounts(world, state, id, policy, context);
    }
    PendingStaysGood(world, session, Step(world, session, command).0.state);
  }

  lemma FreezeKeeps<O>(world: World<O>, session: Session<O>, command: Command<O>)
    requires AllPendingGood(world, session) && (command.Prepare? || command.PrepareResolution?)
    ensures StepAccounts(world, session, command)
  {
    var state := session.state;
    match command {
      case Prepare(prepared, context) =>
        var (resolved, resolution) := Resolve(world, state, context);
        if resolution.Ok? {
          FreezingKeeps(world, session, resolved, prepared, context, resolution.value);
        } else {
          AccountsNothing<O>(world, state, resolved);
          PendingStaysGood(world, session, resolved);
        }
      case PrepareResolution(prepared, context, resolution) =>
        FreezingKeeps(world, session, state, prepared, context, resolution);
    }
  }

  lemma PersistOrBatchKeeps<O>(world: World<O>, session: Session<O>, command: Command<O>)
    requires AllPendingGood(world, session) && (command.PersistPending? || command.AuthorizeBatch?)
    ensures StepAccounts(world, session, command)
  {
    var state := session.state;
    match command {
      case PersistPending(index) =>
        if index < |session.pending| {
          PersistAccounts(world, state, session.pending[index]);
        } else {
          AccountsNothing<O>(world, state, state);
        }
      case AuthorizeBatch(prepared, contexts, limit) =>
        BatchAccounts(world, state, prepared, contexts, limit);
    }
    PendingStaysGood(world, session, Step(world, session, command).0.state);
  }

  lemma StepKeeps<O>(world: World<O>, session: Session<O>, command: Command<O>)
    requires AllPendingGood(world, session)
    ensures StepAccounts(world, session, command)
  {
    match command {
      case Authorize(_, _) => AuthorizeKeeps(world, session, command);
      case AuthorizePolicy(_, _, _) => AuthorizeKeeps(world, session, command);
      case Prepare(_, _) => FreezeKeeps(world, session, command);
      case PrepareResolution(_, _, _) => FreezeKeeps(world, session, command);
      case PersistPending(_) => PersistOrBatchKeeps(world, session, command);
      case AuthorizeBatch(_, _, _) => PersistOrBatchKeeps(world, session, command);
    }
  }

  lemma {:induction false} RunKeeps<O>(world: World<O>, session: Session<O>, commands: seq<Command<O>>)
    requires AllPendingGood(world, session)
    ensures var (after, responses) := Execute(world, session, commands);
      && AllPendingGood(world, after)
      && Accounts(world, session.state, after.state, AllDecisions(responses))
  {
    if commands == [] {
      AccountsNothing<O>(world, session.state, session.state);
    } else {
      var n := |commands| - 1;
      RunKeeps(world, session, commands[..n]);
      var (earlier, responses) := Execute(world, session, commands[..n]);
      StepKeeps(world, earlier, commands[n]);
      var (last, response) := Step(world, earlier, commands[n]);
      AccountsCompose(
        world, session.state, earlier.state, last.state, AllDecisions(responses), DecisionsIn(response));
      assert (responses + [response])[..|responses|] == responses;
    }
  }

  const START := State(0, 0, 0, 0, 0, [], [])

  // What the observer is shown of a decision and the policy it was made under.
  ghost predicate Shows<O>(summary: DecisionSummary, decided: AuthorizationDecision<O>, anchor: PolicyAnchor) {
    && (summary.effect == PermitKind <==> decided.decision.effect.Permit?)
    && summary.obligations == decided.decision.obligations
    && summary.consulted == decided.decision.consulted
    && summary.anchor == anchor
  }

  lemma SummaryShows<O>(entry: AuditEntry, decided: AuthorizationDecision<O>)
    requires Evidences(entry, decided)
    ensures Shows(SummaryOf(entry), decided, entry.anchor)
  {
  }

  // Over every run from the start: the decisions returned to callers are, in order, exactly those
  // whose entries the sink accepted; the observer was shown exactly those decisions; and every
  // accepted entry is valid and was decided on evidence current at some clock reading.
  lemma RunsAreAccountable<O>(world: World<O>, commands: seq<Command<O>>)
    ensures var (after, responses) := Execute(world, Session(START, []), commands);
      && EvidencedBy(AllDecisions(responses), after.state.accepted)
      && |after.state.observed| == |after.state.accepted|
      && (forall i | 0 <= i < |after.state.accepted| ::
            Shows(after.state.observed[i], AllDecisions(responses)[i], after.state.accepted[i].anchor))
      && forall i | 0 <= i < |after.state.accepted| :: GoodEntry(world, after.state, after.state.accepted[i])
  {
    var start: Session<O> := Session(START, []);
    RunKeeps(world, start, commands);
    var (after, responses) := Execute(world, start, commands);
    var entries := after.state.accepted;
    assert entries[0..] == entries;
    assert START.observed + Summaries(entries) == Summaries(entries);
    forall i | 0 <= i < |entries| ensures Shows(Summaries(entries)[i], AllDecisions(responses)[i], entries[i].anchor) {
      SummaryShows(entries[i], AllDecisions(responses)[i]);
    }
  }

  // ----- no run refuses a decision for an invalid entry -----

  predicate EntryRefused<O>(outcome: Outcome<O>) {
    outcome.Err? && outcome.error.AuditEntryInvalid?
  }

  // Commands whose policies were prepared and whose contexts were built by their constructors.
  predicate CommandWellFormed<O>(command: Command<O>) {
    match command
    case Authorize(prepared, context) => CurrentAnchor(prepared) && WellFormed(context)
    case AuthorizePolicy(_, _, context) => WellFormed(context)
    case Prepare(prepared, context) => CurrentAnchor(prepared) && WellFormed(context)
    case PrepareResolution(prepared, context, _) => CurrentAnchor(prepared) && WellFormed(context)
    case PersistPending(_) => true
    case AuthorizeBatch(prepared, contexts, _) => CurrentAnchor(prepared) && forall c | c in contexts :: WellFormed(c)
  }

  predicate CurrentAnchor<O>(prepared: PreparedPolicy<O>) {
    prepared.anchor.hashVersion == POLICY_HASH_FORMAT_VERSION
  }

  predicate RefusesAnEntry<O>(response: Response<O>) {
    match response
    case Refused(error) => error.AuditEntryInvalid?
    case BatchDone(results) => exists i | 0 <= i < |results| :: EntryRefused(results[i])
    case _ => false
  }

  lemma RunNeverInvalid<O>(
      world: World<O>, state: State, policy: Policy<O>, anchor: PolicyAnchor, required: Option<seq<FactId>>,
      context: Context)
    requires WellFormed(context) && anchor.hashVersion == POLICY_HASH_FORMAT_VERSION
    ensures !EntryRefused(Run(world, state, policy, anchor, required, context).1)
  {
    var (resolved, resolution) := Resolve(world, state, context);
    if resolution.Ok? {
      AssembleNeverInvalidEntry(world, resolved, policy, anchor, required, context, resolution.value);
    }
  }

  lemma {:induction false} ItemsNeverInvalid<O>(
      world: World<O>, state: State, prepared: PreparedPolicy<O>, contexts: seq<Context>,
      resolutions: seq<Result<FactResolution, ResolveError>>)
    requires |contexts| == |resolutions| && CurrentAnchor(prepared)
    requires forall c | c in contexts :: WellFormed(c)
    ensures forall r | r in Items(world, state, prepared, contexts, resolutions).1 :: !EntryRefused(r)
  {
    if contexts != [] {
      var n := |contexts| - 1;
      ItemsNeverInvalid(world, state, prepared, contexts[..n], resolutions[..n]);
      var earlier := Items(world, state, prepared, contexts[..n], resolutions[..n]).0;
      ItemNeverInvalid(world, earlier, prepared, contexts[n], resolutions[n]);
    }
  }

  lemma ItemNeverInvalid<O>(
      world: World<O>, state: State, prepared: PreparedPolicy<O>, context: Context,
      resolution: Result<FactResolution, ResolveError>)
    requires WellFormed(context) && CurrentAnchor(prepared)
    ensures !EntryRefused(Item(world, state, prepared, context, resolution).1)
  {
    if resolution.Ok? {
      AssembleNeverInvalidEntry(
        world, state, prepared.policy, prepared.anchor, Some(prepared.required), context, resolution.value);
    }
  }

  // Whatever happened before, a well-formed command is never answered with an invalid audit entry.
  lemma StepNeverInvalid<O>(world: World<O>, session: Session<O>, command: Command<O>)
    requires CommandWellFormed(command)
    ensures !RefusesAnEntry(Step(world, session, command).1)
  {
    var state := session.state;
    match command {
      case Authorize(prepared, context) =>
        RunNeverInvalid(world, state, prepared.policy, prepared.anchor, Some(prepared.required), context);
      case AuthorizePolicy(id, policy, context) =>
        if world.hash(policy).Some? {
          var next := state.(clockReads := state.clockReads + 1);
          RunNeverInvalid(world, next, policy, NewAnchor(id, world.hash(policy).value), None, context);
        }
      case Prepare(prepared, context) =>
        var (resolved, resolution) := Resolve(world, state, context);
        if resolution.Ok? {
          AssembleNeverInvalidEntry(
            world, resolved, prepared.policy, prepared.anchor, Some(prepared.required), context, resolution.value);
        }
      case PrepareResolution(prepared, context, resolution) =>
        AssembleNeverInvalidEntry(
          world, state, prepared.policy, prepared.anchor, Some(prepared.required), context, resolution);
      case PersistPending(_) =>
      case AuthorizeBatch(prepared, contexts, limit) =>
        var result := Authorization.AuthorizeBatch(world, state, prepared, contexts, limit).1;
        if contexts != [] && result.Ok? {
          BatchRunsItems(world, state, prepared, contexts, limit);
          ItemsNeverInvalid(world, ItemsStart(state, contexts), prepared, contexts, world.bulk(state.bulkCalls).value);
        }
    }
  }
}
