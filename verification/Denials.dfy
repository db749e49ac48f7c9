/** Durable traces and denial reasons, and the validator that recognises the right reason. */
module Denials {
  import opened Wrappers
  import opened Facts
  import opened Policies
  import opened Consulting
  import opened Decimals
  import Identities

  // Outcomes serialize to opaque durable values.
  type TraceValue = string

  type TraceClause = DecisiveClause<TraceValue>

  datatype Trace = Trace(consulted: Log, decisive: TraceClause)

  datatype ReasonValue = Str(text: string) | Integer(number: int) | FactRef(fact: FactId) | Outcome(value: TraceValue)

  datatype DenialReason = DenialReason(code: ReasonCode, params: map<string, ReasonValue>, shape: DenyShape)

  datatype TraceError = OutcomeNotSerializable | InvalidIdentity

  // ----- traces -----

  function DurableClause<O>(serialize: O -> Option<TraceValue>, clause: DecisiveClause<O>)
    : Result<TraceClause, TraceError>
  {
    match clause
    case Permit(granted, satisfied, clauseLabel) =>
      (match serialize(granted)
       case None => Err(OutcomeNotSerializable)
       case Some(value) => Ok(DecisiveClause.Permit(value, satisfied, clauseLabel)))
    case Deny(None, unsatisfied, clauseLabel, reason, shape) =>
      Ok(DecisiveClause.Deny(None, unsatisfied, clauseLabel, reason, shape))
    case Deny(Some(denied), unsatisfied, clauseLabel, reason, shape) =>
      match serialize(denied)
      case None => Err(OutcomeNotSerializable)
      case Some(value) => Ok(DecisiveClause.Deny(Some(value), unsatisfied, clauseLabel, reason, shape))
  }

  function ToTrace<O>(serialize: O -> Option<TraceValue>, decision: Decision<O>): Result<Trace, TraceError> {
    match DurableClause(serialize, decision.decisive)
    case Err(error) => Err(error)
    case Ok(clause) => Ok(Trace(decision.consulted, clause))
  }

  // ----- parameters -----

  function MissingFactKey(index: nat): string {
    if index == 0 then "missing_fact" else "missing_fact_" + Decimal(index)
  }

  const DENIED_OUTCOME := "denied_outcome"

  function MissingFactParams(unsatisfied: seq<FactId>): map<string, ReasonValue> {
    if unsatisfied == [] then map[]
    else
      var n := |unsatisfied| - 1;
      MissingFactParams(unsatisfied[..n])[MissingFactKey(n) := FactRef(unsatisfied[n])]
  }

  function Params(unsatisfied: seq<FactId>, denied: Option<TraceValue>): map<string, ReasonValue> {
    var facts := MissingFactParams(unsatisfied);
    if denied.Some? then facts[DENIED_OUTCOME := Outcome(denied.value)] else facts
  }

  // An explicit reason, or the label standing in for one.
  function CodeOf(clause: TraceClause): Option<string> {
    if clause.Permit? then None
    else if clause.reason.Some? then clause.reason
    else clause.clauseLabel
  }

  // The reason a durable clause calls for.
  function ExpectedReason(clause: TraceClause): Option<DenialReason> {
    match CodeOf(clause)
    case None => None
    case Some(code) => Some(DenialReason(code, Params(clause.unsatisfied, clause.denied), clause.shape))
  }

  // The reason built from a typed decision. A label becomes a code only if it is a valid identifier.
  method BuildDenialReason<O>(serialize: O -> Option<TraceValue>, decision: Decision<O>)
    returns (built: Result<Option<DenialReason>, TraceError>)
    ensures built == DenialReasonOf(serialize, decision)
  {
    if decision.effect.Permit? || decision.decisive.Permit? {
      return Ok(None);
    }
    var clause := decision.decisive;
    var code: ReasonCode;
    match (clause.reason, clause.clauseLabel) {
      case (Some(reason), _) => code := reason;
      case (None, Some(value)) =>
        if Identities.Blank(value) {
          return Err(InvalidIdentity);
        }
        code := value;
      case (None, None) => return Ok(None);
    }
    var params: map<string, ReasonValue> := map[];
    for index := 0 to |clause.unsatisfied|
      invariant params == MissingFactParams(clause.unsatisfied[..index])
    {
      assert clause.unsatisfied[..index + 1][..index] == clause.unsatisfied[..index];
      params := params[MissingFactKey(index) := FactRef(clause.unsatisfied[index])];
    }
    assert clause.unsatisfied[..|clause.unsatisfied|] == clause.unsatisfied;
    if clause.denied.Some? {
      var value := serialize(clause.denied.value);
      if value.None? {
        return Err(OutcomeNotSerializable);
      }
      params := params[DENIED_OUTCOME := Outcome(value.value)];
    }
    built := Ok(Some(DenialReason(code, params, clause.shape)));
  }

  function DenialReasonOf<O>(serialize: O -> Option<TraceValue>, decision: Decision<O>)
    : Result<Option<DenialReason>, TraceError>
  {
    if decision.effect.Permit? || decision.decisive.Permit? then Ok(None)
    else
      var clause := decision.decisive;
      if clause.reason.None? && clause.clauseLabel.None? then Ok(None)
      else if clause.reason.None? && Identities.Blank(clause.clauseLabel.value) then Err(InvalidIdentity)
      else
        match DurableClause(serialize, clause)
        case Err(error) => Err(error)
        case Ok(durable) => Ok(ExpectedReason(durable))
  }

  // A reason that was built is the one its own durable clause calls for.
  lemma BuiltReasonIsExpected<O>(serialize: O -> Option<TraceValue>, decision: Decision<O>)
    requires decision.effect.Deny?
    requires DenialReasonOf(serialize, decision).Ok? && ToTrace(serialize, decision).Ok?
    ensures DenialReasonOf(serialize, decision).value == ExpectedReason(ToTrace(serialize, decision).value.decisive)
  {
  }

  // ----- what a reason says -----

  // The reason speaks of this clause: its explicit reason before its label, its shape, each
  // unsatisfied fact under its own key, the denied outcome, and nothing else.
  ghost predicate Explains(reason: DenialReason, clause: TraceClause) {
    && clause.Deny?
    && (clause.reason.Some? ==> reason.code == clause.reason.value)
    && (clause.reason.None? ==> Some(reason.code) == clause.clauseLabel)
    && reason.shape == clause.shape
    && (clause.unsatisfied != [] ==> HasParam(reason.params, "missing_fact", FactRef(clause.unsatisfied[0])))
    && (forall i | 0 < i < |clause.unsatisfied| ::
          HasParam(reason.params, "missing_fact_" + Decimal(i), FactRef(clause.unsatisfied[i])))
    && (clause.denied.Some? ==> HasParam(reason.params, "denied_outcome", Outcome(clause.denied.value)))
    && |reason.params| == |clause.unsatisfied| + (if clause.denied.Some? then 1 else 0)
  }

  // A clause calls for no reason, or for the one reason that explains it.
  ghost predicate CallsFor(clause: TraceClause, reason: Option<DenialReason>) {
    if clause.Deny? && (clause.reason.Some? || clause.clauseLabel.Some?) then
      reason.Some? && Explains(reason.value, clause)
    else reason.None?
  }

  lemma ExpectedIsCalledFor(clause: TraceClause, reason: Option<DenialReason>)
    ensures reason == ExpectedReason(clause) <==> CallsFor(clause, reason)
  {
    if clause.Deny? && reason.Some? {
      var params := reason.value.params;
      ParamsMatchIffEqual(params, clause.unsatisfied, clause.denied);
      assert ParamsMatch(params, clause.unsatisfied, clause.denied) <==>
        && |params| == |clause.unsatisfied| + (if clause.denied.Some? then 1 else 0)
        && (clause.unsatisfied != [] ==> HasParam(params, "missing_fact", FactRef(clause.unsatisfied[0])))
        && (forall i | 0 < i < |clause.unsatisfied| ::
              HasParam(params, "missing_fact_" + Decimal(i), FactRef(clause.unsatisfied[i])))
        && (clause.denied.Some? ==> HasParam(params, "denied_outcome", Outcome(clause.denied.value)))
      by {
        KeysAreLiteral(params, clause.unsatisfied);
      }
    }
  }

  lemma KeysAreLiteral(params: map<string, ReasonValue>, unsatisfied: seq<FactId>)
    ensures
      (forall i | 0 <= i < |unsatisfied| :: HasParam(params, MissingFactKey(i), FactRef(unsatisfied[i]))) <==>
      && (unsatisfied != [] ==> HasParam(params, "missing_fact", FactRef(unsatisfied[0])))
      && (forall i | 0 < i < |unsatisfied| ::
            HasParam(params, "missing_fact_" + Decimal(i), FactRef(unsatisfied[i])))
  {
    assert MissingFactKey(0) == "missing_fact";
    forall i | 0 < i < |unsatisfied| ensures MissingFactKey(i) == "missing_fact_" + Decimal(i) {
    }
  }

  // The clause as it is stored: the same facts, label, reason and shape, its outcomes serialized.
  ghost predicate StoredAs<O>(serialize: O -> Option<TraceValue>, clause: DecisiveClause<O>, stored: TraceClause) {
    match clause
    case Permit(granted, satisfied, clauseLabel) =>
      && serialize(granted).Some?
      && stored == DecisiveClause.Permit(serialize(granted).value, satisfied, clauseLabel)
    case Deny(denied, unsatisfied, clauseLabel, reason, shape) =>
      && stored.Deny? && stored.denied.Some? == denied.Some?
      && (denied.Some? ==> serialize(denied.value) == stored.denied)
      && stored.unsatisfied == unsatisfied && stored.clauseLabel == clauseLabel
      && stored.reason == reason && stored.shape == shape
  }

  predicate Serializable<O>(serialize: O -> Option<TraceValue>, clause: DecisiveClause<O>) {
    match clause
    case Permit(granted, _, _) => serialize(granted).Some?
    case Deny(denied, _, _, _, _) => denied.Some? ==> serialize(denied.value).Some?
  }

  // A label without an explicit reason must do as a reason code.
  predicate Nameable<O>(clause: DecisiveClause<O>) {
    clause.Deny? && clause.reason.None? && clause.clauseLabel.Some? ==> !Identities.Blank(clause.clauseLabel.value)
  }

  lemma TraceIsStored<O>(serialize: O -> Option<TraceValue>, decision: Decision<O>)
    ensures var trace := ToTrace(serialize, decision);
      && (trace.Ok? <==> Serializable(serialize, decision.decisive))
      && (trace.Ok? ==>
            trace.value.consulted == decision.consulted &&
            StoredAs(serialize, decision.decisive, trace.value.decisive))
      && (trace.Err? ==> trace.error == OutcomeNotSerializable)
  {
  }

  // The reason built from a denial: the one its stored clause calls for, or why there is none.
  lemma BuiltReasonExplains<O>(serialize: O -> Option<TraceValue>, decision: Decision<O>)
    requires decision.effect.Deny? && decision.decisive.Deny?
    ensures var built, clause := DenialReasonOf(serialize, decision), decision.decisive;
      && (clause.reason.None? && clause.clauseLabel.None? ==> built == Ok(None))
      && (clause.reason.Some? || clause.clauseLabel.Some? ==>
            && (built.Ok? <==> Nameable(clause) && Serializable(serialize, clause))
            && (built.Err? ==> built.error == if Nameable(clause) then OutcomeNotSerializable else InvalidIdentity)
            && (built.Ok? ==>
                  built.value.Some? &&
                  exists stored :: StoredAs(serialize, clause, stored) && Explains(built.value.value, stored)))
  {
    var built, clause := DenialReasonOf(serialize, decision), decision.decisive;
    if built.Ok? && built.value.Some? {
      var stored := DurableClause(serialize, clause).value;
      ExpectedIsCalledFor(stored, built.value);
      assert StoredAs(serialize, clause, stored) && Explains(built.value.value, stored);
    }
  }

  // ----- the validator -----

  predicate HasParam(params: map<string, ReasonValue>, key: string, value: ReasonValue) {
    key in params && params[key] == value
  }

  predicate ParamsMatch(params: map<string, ReasonValue>, unsatisfied: seq<FactId>, denied: Option<TraceValue>) {
    && |params| == |unsatisfied| + (if denied.Some? then 1 else 0)
    && (forall i | 0 <= i < |unsatisfied| :: HasParam(params, MissingFactKey(i), FactRef(unsatisfied[i])))
    && (denied.Some? ==> HasParam(params, DENIED_OUTCOME, Outcome(denied.value)))
  }

  // Whether a materialized reason agrees with the clause it claims to explain.
  method ReasonMatches(reason: Option<DenialReason>, clause: TraceClause) returns (matches: bool)
    ensures matches <==> reason == ExpectedReason(clause)
    ensures matches <==> CallsFor(clause, reason)
  {
    ExpectedIsCalledFor(clause, reason);
    if clause.Permit? {
      return reason.None?;
    }
    var expected := if clause.reason.Some? then clause.reason else clause.clauseLabel;
    if expected.None? {
      return reason.None?;
    }
    if reason.None? {
      return false;
    }
    if reason.value.code != expected.value || reason.value.shape != clause.shape {
      return false;
    }
    matches := CheckParams(reason.value.params, clause.unsatisfied, clause.denied);
  }

  method CheckParams(params: map<string, ReasonValue>, unsatisfied: seq<FactId>, denied: Option<TraceValue>)
    returns (matches: bool)
    ensures matches <==> params == Params(unsatisfied, denied)
  {
    ParamsMatchIffEqual(params, unsatisfied, denied);
    if |params| != |unsatisfied| + (if denied.Some? then 1 else 0) {
      return false;
    }
    for index := 0 to |unsatisfied|
      invariant forall i | 0 <= i < index :: HasParam(params, MissingFactKey(i), FactRef(unsatisfied[i]))
    {
      if !HasParam(params, MissingFactKey(index), FactRef(unsatisfied[index])) {
        return false;
      }
    }
    matches := denied.Some? ==> HasParam(params, DENIED_OUTCOME, Outcome(denied.value));
  }

  // ----- the keys tell parameters apart -----

  lemma KeysInjective(i: nat, j: nat)
    requires MissingFactKey(i) == MissingFactKey(j)
    ensures i == j
  {
    DecimalReadsBack(i);
    DecimalReadsBack(j);
    if i != 0 && j != 0 {
      var prefix := |"missing_fact_"|;
      assert Decimal(i) == MissingFactKey(i)[prefix..] == MissingFactKey(j)[prefix..] == Decimal(j);
      DecimalInjective(i, j);
    }
  }

  lemma KeysNameNoOutcome(i: nat)
    ensures MissingFactKey(i) != DENIED_OUTCOME
  {
    assert MissingFactKey(i)[0] == 'm';
  }

  ghost predicate NamesMissingFact(key: string, count: nat) {
    exists i | 0 <= i < count :: key == MissingFactKey(i)
  }

  lemma {:induction false} MissingFactKeys(unsatisfied: seq<FactId>)
    ensures forall key :: key in MissingFactParams(unsatisfied) <==> NamesMissingFact(key, |unsatisfied|)
  {
    if unsatisfied != [] {
      var n := |unsatisfied| - 1;
      MissingFactKeys(unsatisfied[..n]);
      forall key
        ensures NamesMissingFact(key, n + 1) <==> NamesMissingFact(key, n) || key == MissingFactKey(n)
      {
      }
    }
  }

  lemma KeyIsNew(n: nat)
    ensures !NamesMissingFact(MissingFactKey(n), n)
  {
    forall i | 0 <= i < n ensures MissingFactKey(i) != MissingFactKey(n) {
      if MissingFactKey(i) == MissingFactKey(n) {
        KeysInjective(i, n);
      }
    }
  }

  lemma {:induction false} MissingFactCount(unsatisfied: seq<FactId>)
    ensures |MissingFactParams(unsatisfied)| == |unsatisfied|
  {
    if unsatisfied != [] {
      var n := |unsatisfied| - 1;
      var most := MissingFactParams(unsatisfied[..n]);
      MissingFactCount(unsatisfied[..n]);
      MissingFactKeys(unsatisfied[..n]);
      KeyIsNew(n);
      assert MissingFactParams(unsatisfied).Keys == most.Keys + {MissingFactKey(n)};
    }
  }

  lemma {:induction false} MissingFactValue(unsatisfied: seq<FactId>, i: nat)
    requires i < |unsatisfied|
    ensures HasParam(MissingFactParams(unsatisfied), MissingFactKey(i), FactRef(unsatisfied[i]))
  {
    var n := |unsatisfied| - 1;
    if i < n {
      MissingFactValue(unsatisfied[..n], i);
      if MissingFactKey(i) == MissingFactKey(n) {
        KeysInjective(i, n);
      }
    }
  }

  lemma ParamsContents(unsatisfied: seq<FactId>, denied: Option<TraceValue>)
    ensures ParamsMatch(Params(unsatisfied, denied), unsatisfied, denied)
    ensures forall key | key in Params(unsatisfied, denied) ::
      (key == DENIED_OUTCOME && denied.Some?) || NamesMissingFact(key, |unsatisfied|)
  {
    var facts, all := MissingFactParams(unsatisfied), Params(unsatisfied, denied);
    MissingFactKeys(unsatisfied);
    MissingFactCount(unsatisfied);
    forall i | 0 <= i < |unsatisfied|
      ensures MissingFactKey(i) != DENIED_OUTCOME
      ensures HasParam(all, MissingFactKey(i), FactRef(unsatisfied[i]))
    {
      KeysNameNoOutcome(i);
      MissingFactValue(unsatisfied, i);
    }
    assert !NamesMissingFact(DENIED_OUTCOME, |unsatisfied|);
    if denied.Some? {
      assert all.Keys == facts.Keys + {DENIED_OUTCOME};
    }
  }

  // The size check leaves no room for an extra parameter, so a match is an equality.
  lemma ParamsMatchIffEqual(params: map<string, ReasonValue>, unsatisfied: seq<FactId>, denied: Option<TraceValue>)
    ensures ParamsMatch(params, unsatisfied, denied) <==> params == Params(unsatisfied, denied)
  {
    var expected := Params(unsatisfied, denied);
    ParamsContents(unsatisfied, denied);
    if ParamsMatch(params, unsatisfied, denied) {
      forall key | key in expected ensures key in params && params[key] == expected[key] {
        if NamesMissingFact(key, |unsatisfied|) {
          var i :| 0 <= i < |unsatisfied| && key == MissingFactKey(i);
          assert HasParam(params, MissingFactKey(i), FactRef(unsatisfied[i]));
          assert HasParam(expected, MissingFactKey(i), FactRef(unsatisfied[i]));
        }
      }
      SubsetOfSameSize(expected.Keys, params.Keys);
    }
  }

  lemma SubsetOfSameSize<T>(small: set<T>, large: set<T>)
    requires small <= large && |small| == |large|
    ensures small == large
  {
    if extra :| extra in large - small {
      assert |large - {extra}| == |large| - 1;
      SubsetNoLarger(small, large - {extra});
    } else {
      assert large - small == {};
    }
  }

  lemma {:induction false} SubsetNoLarger<T>(small: set<T>, large: set<T>)
    requires small <= large
    ensures |small| <= |large|
  {
    if x :| x in small {
      SubsetNoLarger(small - {x}, large - {x});
    }
  }
}
