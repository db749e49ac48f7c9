/** The authorization boundary: check, resolve, evaluate, persist, then observe. */
module Authorization {
  import opened Wrappers
  import opened Facts
  import opened Policies
  import opened Consulting
  import opened Evaluation
  import opened Semantics
  import opened Observations
  import opened Contexts
  import opened Audit
  import Loops = EvaluationLoops
  import FactSets
  import Denials

  // ----- prepared policies -----

  datatype PreparedPolicy<O> = PreparedPolicy(policy: Policy<O>, anchor: PolicyAnchor, required: seq<FactId>)

  // What the preparing constructor establishes; preparation is the only way to make one.
  ghost predicate Genuine<O>(prepared: PreparedPolicy<O>) {
    && prepared.anchor.hashVersion == POLICY_HASH_FORMAT_VERSION
    && FactSets.Sorted(prepared.required)
    && FactSets.Elements(prepared.required) == PolicyFacts(prepared.policy)
  }

  // Fails only when the outcome cannot be hashed.
  method PreparePolicy<O>(hash: Policy<O> -> Option<string>, id: string, policy: Policy<O>)
    returns (prepared: Option<PreparedPolicy<O>>)
    ensures prepared.Some? <==> hash(policy).Some?
    ensures prepared.Some? ==> Genuine(prepared.value) && prepared.value.policy == policy
    ensures prepared.Some? ==>
      prepared.value.anchor.id == id && prepared.value.anchor.hash == hash(policy).value
  {
    var digest := hash(policy);
    if digest.None? {
      return None;
    }
    var required := FactSets.RequiredFacts(policy);
    prepared := Some(PreparedPolicy(policy, NewAnchor(id, digest.value), required));
  }

  // ----- the application's side -----

  datatype ResolveError =
    | Backend(message: string)
    | Resolution(cause: FreshnessError)
    | MissingFact(fact: FactId)
    | MissingSubject(boundFact: FactId, slot: string)
    | Timeout

  // The answers of everything outside the boundary, by how often each was asked before. The clock,
  // the resolver, the bulk resolver and the sink may answer anything at all.
  datatype World<!O> = World(
    clock: nat -> Timestamp,
    freshId: nat -> string,
    resolver: nat -> Result<FactResolution, ResolveError>,
    bulk: nat -> Result<seq<Result<FactResolution, ResolveError>>, ResolveError>,
    sinkFailure: nat -> Option<string>,
    hash: Policy<O> -> Option<string>,
    serialize: O -> Option<Denials.TraceValue>,
    digest: KnownFacts -> Option<string>,
    lattice: Lattice<O>)

  datatype AuthorizationError =
    | ContextInvalid(contextError: ContextError)
    | PolicyHashFailed
    | ResolveFailed(resolveError: ResolveError)
    | EvidenceFailed(evidenceError: EvidenceError)
    | AuditEntryInvalid(entryError: AuditEntryError)
    | TraceFailure(traceError: Denials.TraceError)
    | OccurrenceFailed(occurrenceError: OccurrenceError)
    | AuditFailed(occurrence: Occurrence, source: string)

  datatype PendingDecision<O> = PendingDecision(decision: Decision<O>, entry: AuditEntry)

  datatype AuthorizationDecision<O> = AuthorizationDecision(decision: Decision<O>, occurrence: Occurrence)

  // How often each part of the world was asked, what the sink accepted, what the observer saw.
  datatype State = State(
    clockReads: nat,
    idsDrawn: nat,
    resolverCalls: nat,
    bulkCalls: nat,
    sinkCalls: nat,
    accepted: seq<AuditEntry>,
    observed: seq<DecisionSummary>)

  type Outcome<O> = Result<AuthorizationDecision<O>, AuthorizationError>

  // ----- assembling -----

  function FirstMissing(required: seq<FactId>, facts: KnownFacts): (k: nat)
    ensures k <= |required|
    ensures forall i | 0 <= i < k :: required[i] in facts
    ensures k < |required| ==> required[k] !in facts
  {
    if required == [] || required[0] !in facts then 0 else 1 + FirstMissing(required[1..], facts)
  }

  // The checks between receiving a resolution and evaluating it. Unchecked callers pass no
  // required facts, so omitted ones count as absent.
  function Admit<O>(
      world: World<O>, required: Option<seq<FactId>>, context: Context, resolution: FactResolution, now: Instant)
    : Result<Evidence, AuthorizationError>
  {
    match ValidateContext(context, now)
    case Err(error) => Err(ContextInvalid(error))
    case Ok(_) =>
      match CheckResolution(resolution, now)
      case Err(error) => Err(ResolveFailed(Resolution(error)))
      case Ok(_) =>
        var names := if required.Some? then required.value else [];
        var k := FirstMissing(names, resolution.facts);
        if k < |names| then Err(ResolveFailed(MissingFact(names[k])))
        else
          match EvidenceOf(world.digest, resolution)
          case Err(error) => Err(EvidenceFailed(error))
          case Ok(evidence) => Ok(evidence)
  }

  // A supplied occurrence is reused; otherwise a new one takes a fresh identity and clock reading.
  function OccurrenceFor<O>(world: World<O>, state: State, context: Context)
    : (State, Result<Occurrence, OccurrenceError>)
  {
    if context.occurrence.Some? then (state, Ok(context.occurrence.value))
    else
      (state.(clockReads := state.clockReads + 1, idsDrawn := state.idsDrawn + 1),
       NewOccurrence(world.freshId(state.idsDrawn), world.clock(state.clockReads)))
  }

  function Freeze<O>(
      world: World<O>, occurrence: Occurrence, anchor: PolicyAnchor, decision: Decision<O>,
      context: Context, evidence: Evidence)
    : Result<PendingDecision<O>, AuthorizationError>
  {
    match FromDecision(world.serialize, occurrence, anchor, decision, context, evidence)
    case Err(TraceFailed(error)) => Err(TraceFailure(error))
    case Err(EntryInvalid(error)) => Err(AuditEntryInvalid(error))
    case Ok(entry) => Ok(PendingDecision(decision, entry))
  }

  function Assemble<O(==)>(
      world: World<O>, state: State, policy: Policy<O>, anchor: PolicyAnchor, required: Option<seq<FactId>>,
      context: Context, resolution: FactResolution)
    : (State, Result<PendingDecision<O>, AuthorizationError>)
  {
    var received := world.clock(state.clockReads).instant;
    var next := state.(clockReads := state.clockReads + 1);
    match Admit(world, required, context, resolution, received)
    case Err(error) => (next, Err(error))
    case Ok(evidence) =>
      var decision := Evaluate(world.lattice, policy, resolution.facts);
      var (last, occurrence) := OccurrenceFor(world, next, context);
      match occurrence
      case Err(error) => (last, Err(OccurrenceFailed(error)))
      case Ok(value) => (last, Freeze(world, value, anchor, decision, context, evidence))
  }

  // ----- persisting -----

  function PersistPending<O>(world: World<O>, state: State, pending: PendingDecision<O>)
    : (State, Result<AuthorizationDecision<O>, string>)
  {
    var next := state.(sinkCalls := state.sinkCalls + 1);
    match world.sinkFailure(state.sinkCalls)
    case Some(failure) => (next, Err(failure))
    case None =>
      (next.(accepted := state.accepted + [pending.entry],
             observed := state.observed + [SummaryOf(pending.entry)]),
       Ok(AuthorizationDecision(pending.decision, pending.entry.occurrence)))
  }

  function Finish<O(==)>(
      world: World<O>, state: State, policy: Policy<O>, anchor: PolicyAnchor, required: Option<seq<FactId>>,
      context: Context, resolution: FactResolution)
    : (State, Outcome<O>)
  {
    var (assembled, pending) := Assemble(world, state, policy, anchor, required, context, resolution);
    match pending
    case Err(error) => (assembled, Err(error))
    case Ok(value) =>
      var (persisted, result) := PersistPending(world, assembled, value);
      match result
      case Err(source) => (persisted, Err(AuditFailed(value.entry.occurrence, source)))
      case Ok(decided) => (persisted, Ok(decided))
  }

  // ----- entry points -----

  // Reads the clock, checks the context, and asks the resolver.
  function Resolve<O>(world: World<O>, state: State, context: Context)
    : (State, Result<FactResolution, AuthorizationError>)
  {
    var next := state.(clockReads := state.clockReads + 1);
    match ValidateContext(context, world.clock(state.clockReads).instant)
    case Err(error) => (next, Err(ContextInvalid(error)))
    case Ok(_) =>
      (next.(resolverCalls := state.resolverCalls + 1),
       match world.resolver(state.resolverCalls)
       case Err(error) => Err(ResolveFailed(error))
       case Ok(resolution) => Ok(resolution))
  }

  function Run<O(==)>(
      world: World<O>, state: State, policy: Policy<O>, anchor: PolicyAnchor, required: Option<seq<FactId>>,
      context: Context)
    : (State, Outcome<O>)
  {
    var (resolved, resolution) := Resolve(world, state, context);
    match resolution
    case Err(error) => (resolved, Err(error))
    case Ok(value) => Finish(world, resolved, policy, anchor, required, context, value)
  }

  function Authorize<O(==)>(world: World<O>, state: State, prepared: PreparedPolicy<O>, context: Context)
    : (State, Outcome<O>)
  {
    Run(world, state, prepared.policy, prepared.anchor, Some(prepared.required), context)
  }

  // The published path: omission still means absence.
  function AuthorizePolicy<O(==)>(world: World<O>, state: State, id: string, policy: Policy<O>, context: Context)
    : (State, Outcome<O>)
  {
    var next := state.(clockReads := state.clockReads + 1);
    match ValidateContext(context, world.clock(state.clockReads).instant)
    case Err(error) => (next, Err(ContextInvalid(error)))
    case Ok(_) =>
      match world.hash(policy)
      case None => (next, Err(PolicyHashFailed))
      case Some(digest) => Run(world, next, policy, NewAnchor(id, digest), None, context)
  }

  function Prepare<O(==)>(world: World<O>, state: State, prepared: PreparedPolicy<O>, context: Context)
    : (State, Result<PendingDecision<O>, AuthorizationError>)
  {
    var (resolved, resolution) := Resolve(world, state, context);
    match resolution
    case Err(error) => (resolved, Err(error))
    case Ok(value) =>
      Assemble(world, resolved, prepared.policy, prepared.anchor, Some(prepared.required), context, value)
  }

  function PrepareResolution<O(==)>(
      world: World<O>, state: State, prepared: PreparedPolicy<O>, context: Context, resolution: FactResolution)
    : (State, Result<PendingDecision<O>, AuthorizationError>)
  {
    Assemble(world, state, prepared.policy, prepared.anchor, Some(prepared.required), context, resolution)
  }

  // ----- batches -----

  datatype BatchError =
    | Limit
    | ContextAt(index: nat, contextError: ContextError)
    | BulkFailed(resolveError: ResolveError)
    | Cardinality(expected: nat, actual: nat)

  // Checks the contexts from position `i` on, each against its own clock reading.
  function CheckContexts<O>(world: World<O>, state: State, contexts: seq<Context>, i: nat)
    : (State, Option<BatchError>)
    requires i <= |contexts|
    decreases |contexts| - i
  {
    if i == |contexts| then (state, None)
    else
      var next := state.(clockReads := state.clockReads + 1);
      match ValidateContext(contexts[i], world.clock(state.clockReads).instant)
      case Err(error) => (next, Some(ContextAt(i, error)))
      case Ok(_) => CheckContexts(world, next, contexts, i + 1)
  }

  function Item<O(==)>(
      world: World<O>, state: State, prepared: PreparedPolicy<O>, context: Context,
      resolution: Result<FactResolution, ResolveError>)
    : (State, Outcome<O>)
  {
    match resolution
    case Err(error) => (state, Err(ResolveFailed(error)))
    case Ok(value) =>
      Finish(world, state, prepared.policy, prepared.anchor, Some(prepared.required), context, value)
  }

  function Items<O(==)>(
      world: World<O>, state: State, prepared: PreparedPolicy<O>, contexts: seq<Context>,
      resolutions: seq<Result<FactResolution, ResolveError>>)
    : (r: (State, seq<Outcome<O>>))
    requires |contexts| == |resolutions|
    ensures |r.1| == |contexts|
  {
    if contexts == [] then (state, [])
    else
      var n := |contexts| - 1;
      var (earlier, results) := Items(world, state, prepared, contexts[..n], resolutions[..n]);
      var (last, result) := Item(world, earlier, prepared, contexts[n], resolutions[n]);
      (last, results + [result])
  }

  function AuthorizeBatch<O(==)>(
      world: World<O>, state: State, prepared: PreparedPolicy<O>, contexts: seq<Context>, limit: nat)
    : (State, Result<seq<Outcome<O>>, BatchError>)
  {
    if |contexts| > limit then (state, Err(Limit))
    else if contexts == [] then (state, Ok([]))
    else
      var (checked, failure) := CheckContexts(world, state, contexts, 0);
      if failure.Some? then (checked, Err(failure.value))
      else
        var asked := checked.(bulkCalls := state.bulkCalls + 1);
        match world.bulk(state.bulkCalls)
        case Err(error) => (asked, Err(BulkFailed(error)))
        case Ok(resolutions) =>
          if |resolutions| != |contexts| then (asked, Err(Cardinality(|contexts|, |resolutions|)))
          else
            var (last, results) := Items(world, asked, prepared, contexts, resolutions);
            (last, Ok(results))
  }

  // ----- the authorizer -----

  class Authorizer<O(==)> {
    const world: World<O>
    var clockReads: nat
    var idsDrawn: nat
    var resolverCalls: nat
    var bulkCalls: nat
    var sinkCalls: nat
    var accepted: seq<AuditEntry>
    var observed: seq<DecisionSummary>

    ghost function Snapshot(): State
      reads this
    {
      State(clockReads, idsDrawn, resolverCalls, bulkCalls, sinkCalls, accepted, observed)
    }

    constructor (world: World<O>)
      ensures this.world == world && Snapshot() == State(0, 0, 0, 0, 0, [], [])
    {
      this.world := world;
      clockReads, idsDrawn, resolverCalls, bulkCalls, sinkCalls := 0, 0, 0, 0, 0;
      accepted, observed := [], [];
    }

    method NowUtc() returns (now: Timestamp)
      modifies this`clockReads
      ensures now == world.clock(old(clockReads))
      ensures clockReads == old(clockReads) + 1
    {
      now := world.clock(clockReads);
      clockReads := clockReads + 1;
    }

    method RunAdmit(required: Option<seq<FactId>>, context: Context, resolution: FactResolution, now: Instant)
      returns (result: Result<Evidence, AuthorizationError>)
      ensures result == Admit(world, required, context, resolution, now)
    {
      var valid := ValidateContext(context, now);
      if valid.Err? {
        return Err(ContextInvalid(valid.error));
      }
      var usable := CheckResolution(resolution, now);
      if usable.Err? {
        return Err(ResolveFailed(Resolution(usable.error)));
      }
      if required.Some? {
        var k := FirstMissing(required.value, resolution.facts);
        if k < |required.value| {
          return Err(ResolveFailed(MissingFact(required.value[k])));
        }
      }
      var evidence := EvidenceFromResolution(world.digest, resolution);
      if evidence.Err? {
        return Err(EvidenceFailed(evidence.error));
      }
      result := Ok(evidence.value);
    }

    method RunOccurrence(context: Context) returns (result: Result<Occurrence, OccurrenceError>)
      modifies this
      ensures (Snapshot(), result) == OccurrenceFor(world, old(Snapshot()), context)
    {
      if context.occurrence.Some? {
        return Ok(context.occurrence.value);
      }
      var id := world.freshId(idsDrawn);
      idsDrawn := idsDrawn + 1;
      var at := NowUtc();
      result := NewOccurrence(id, at);
    }

    method RunAssemble(
        policy: Policy<O>, anchor: PolicyAnchor, required: Option<seq<FactId>>, context: Context,
        resolution: FactResolution)
      returns (result: Result<PendingDecision<O>, AuthorizationError>)
      modifies this
      ensures (Snapshot(), result) ==
        Assemble(world, old(Snapshot()), policy, anchor, required, context, resolution)
    {
      ghost var before := Snapshot();
      var received := NowUtc();
      assert Snapshot() == before.(clockReads := before.clockReads + 1);
      var evidence := RunAdmit(required, context, resolution, received.instant);
      if evidence.Err? {
        return Err(evidence.error);
      }
      var decision := Loops.EvaluateToDecision(world.lattice, policy, resolution.facts);
      var occurrence := RunOccurrence(context);
      if occurrence.Err? {
        return Err(OccurrenceFailed(occurrence.error));
      }
      result := Freeze(world, occurrence.value, anchor, decision, context, evidence.value);
    }

    method RunPersistPending(pending: PendingDecision<O>)
      returns (result: Result<AuthorizationDecision<O>, string>)
      modifies this
      ensures (Snapshot(), result) == PersistPending(world, old(Snapshot()), pending)
    {
      var failure := world.sinkFailure(sinkCalls);
      sinkCalls := sinkCalls + 1;
      if failure.Some? {
        return Err(failure.value);
      }
      accepted := accepted + [pending.entry];
      observed := observed + [SummaryOf(pending.entry)];
      result := Ok(AuthorizationDecision(pending.decision, pending.entry.occurrence));
    }

    method RunFinish(
        policy: Policy<O>, anchor: PolicyAnchor, required: Option<seq<FactId>>, context: Context,
        resolution: FactResolution)
      returns (result: Outcome<O>)
      modifies this
      ensures (Snapshot(), result) == Finish(world, old(Snapshot()), policy, anchor, required, context, resolution)
    {
      var pending := RunAssemble(policy, anchor, required, context, resolution);
      if pending.Err? {
        return Err(pending.error);
      }
      var persisted := RunPersistPending(pending.value);
      if persisted.Err? {
        return Err(AuditFailed(pending.value.entry.occurrence, persisted.error));
      }
      result := Ok(persisted.value);
    }

    method RunResolve(context: Context) returns (result: Result<FactResolution, AuthorizationError>)
      modifies this
      ensures (Snapshot(), result) == Resolve(world, old(Snapshot()), context)
    {
      var now := NowUtc();
      var valid := ValidateContext(context, now.instant);
      if valid.Err? {
        return Err(ContextInvalid(valid.error));
      }
      var resolution := world.resolver(resolverCalls);
      resolverCalls := resolverCalls + 1;
      if resolution.Err? {
        return Err(ResolveFailed(resolution.error));
      }
      result := Ok(resolution.value);
    }

    method RunAuthorize(prepared: PreparedPolicy<O>, context: Context) returns (result: Outcome<O>)
      modifies this
      ensures (Snapshot(), result) == Authorize(world, old(Snapshot()), prepared, context)
    {
      result := RunChecked(prepared.policy, prepared.anchor, Some(prepared.required), context);
    }

    method RunChecked(
        policy: Policy<O>, anchor: PolicyAnchor, required: Option<seq<FactId>>, context: Context)
      returns (result: Outcome<O>)
      modifies this
      ensures (Snapshot(), result) == Run(world, old(Snapshot()), policy, anchor, required, context)
    {
      var resolution := RunResolve(context);
      if resolution.Err? {
        return Err(resolution.error);
      }
      result := RunFinish(policy, anchor, required, context, resolution.value);
    }

    method RunAuthorizePolicy(id: string, policy: Policy<O>, context: Context) returns (result: Outcome<O>)
      modifies this
      ensures (Snapshot(), result) == AuthorizePolicy(world, old(Snapshot()), id, policy, context)
    {
      var now := NowUtc();
      var valid := ValidateContext(context, now.instant);
      if valid.Err? {
        return Err(ContextInvalid(valid.error));
      }
      var digest := world.hash(policy);
      if digest.None? {
        return Err(PolicyHashFailed);
      }
      result := RunChecked(policy, NewAnchor(id, digest.value), None, context);
    }

    method RunPrepare(prepared: PreparedPolicy<O>, context: Context)
      returns (result: Result<PendingDecision<O>, AuthorizationError>)
      modifies this
      ensures (Snapshot(), result) == Prepare(world, old(Snapshot()), prepared, context)
    {
      var resolution := RunResolve(context);
      if resolution.Err? {
        return Err(resolution.error);
      }
      result := RunAssemble(prepared.policy, prepared.anchor, Some(prepared.required), context, resolution.value);
    }

    method RunPrepareResolution(prepared: PreparedPolicy<O>, context: Context, resolution: FactResolution)
      returns (result: Result<PendingDecision<O>, AuthorizationError>)
      modifies this
      ensures (Snapshot(), result) == PrepareResolution(world, old(Snapshot()), prepared, context, resolution)
    {
      result := RunAssemble(prepared.policy, prepared.anchor, Some(prepared.required), context, resolution);
    }

    method RunContexts(contexts: seq<Context>) returns (failure: Option<BatchError>)
      modifies this`clockReads
      ensures (Snapshot(), failure) == CheckContexts(world, old(Snapshot()), contexts, 0)
    {
      for i := 0 to |contexts|
        invariant CheckContexts(world, Snapshot(), contexts, i) ==
          CheckContexts(world, old(Snapshot()), contexts, 0)
      {
        ghost var before := Snapshot();
        var now := NowUtc();
        assert Snapshot() == before.(clockReads := before.clockReads + 1);
        var valid := ValidateContext(contexts[i], now.instant);
        if valid.Err? {
          return Some(ContextAt(i, valid.error));
        }
      }
      failure := None;
    }

    method RunItems(
        prepared: PreparedPolicy<O>, contexts: seq<Context>,
        resolutions: seq<Result<FactResolution, ResolveError>>)
      returns (results: seq<Outcome<O>>)
      requires |contexts| == |resolutions|
      modifies this
      ensures (Snapshot(), results) == Items(world, old(Snapshot()), prepared, contexts, resolutions)
    {
      ghost var before := Snapshot();
      results := [];
      for i := 0 to |contexts|
        invariant (Snapshot(), results) == Items(world, before, prepared, contexts[..i], resolutions[..i])
      {
        assert contexts[..i + 1][..i] == contexts[..i];
        assert resolutions[..i + 1][..i] == resolutions[..i];
        var outcome := RunItem(prepared, contexts[i], resolutions[i]);
        results := results + [outcome];
      }
      assert contexts[..|contexts|] == contexts;
      assert resolutions[..|contexts|] == resolutions;
    }

    method RunBatch(prepared: PreparedPolicy<O>, contexts: seq<Context>, limit: nat)
      returns (result: Result<seq<Outcome<O>>, BatchError>)
      modifies this
      ensures (Snapshot(), result) == AuthorizeBatch(world, old(Snapshot()), prepared, contexts, limit)
    {
      if |contexts| > limit {
        return Err(Limit);
      }
      if contexts == [] {
        return Ok([]);
      }
      var failure := RunContexts(contexts);
      if failure.Some? {
        return Err(failure.value);
      }
      var resolutions := world.bulk(bulkCalls);
      bulkCalls := bulkCalls + 1;
      if resolutions.Err? {
        return Err(BulkFailed(resolutions.error));
      }
      if |resolutions.value| != |contexts| {
        return Err(Cardinality(|contexts|, |resolutions.value|));
      }
      var results := RunItems(prepared, contexts, resolutions.value);
      result := Ok(results);
    }

    method RunItem(prepared: PreparedPolicy<O>, context: Context, resolution: Result<FactResolution, ResolveError>)
      returns (result: Outcome<O>)
      modifies this
      ensures (Snapshot(), result) == Item(world, old(Snapshot()), prepared, context, resolution)
    {
      if resolution.Err? {
        return Err(ResolveFailed(resolution.error));
      }
      result := RunFinish(prepared.policy, prepared.anchor, Some(prepared.required), context, resolution.value);
    }
  }
}
