/** Replaying a frozen entry's retained observations through the policy that decided it. */
module Replay {
  import opened Wrappers
  import opened Facts
  import opened Policies
  import opened Evaluation
  import opened Semantics
  import opened Observations
  import opened Contexts
  import opened Audit
  import opened Authorization
  import Runs = AuthorizationRuns
  import FactSets
  import Loops = EvaluationLoops

  datatype ReplayError = PolicyMismatch | MissingObservations(missing: seq<FactId>)

  function EntriesOf(observations: seq<FactObservation>): (entries: seq<(FactId, Presence)>)
    ensures |entries| == |observations|
    ensures forall i | 0 <= i < |entries| :: entries[i] == (observations[i].fact, PresenceFor(observations[i]))
  {
    seq(|observations|, i requires 0 <= i < |observations| => (observations[i].fact, PresenceFor(observations[i])))
  }

  // The listed facts that the bundle does not mention, in order.
  function Unmentioned(names: seq<FactId>, facts: KnownFacts): seq<FactId> {
    if names == [] then []
    else
      var earlier, last := Unmentioned(names[..|names| - 1], facts), names[|names| - 1];
      if last in facts then earlier else earlier + [last]
  }

  method RunReplay<O(==)>(lattice: Lattice<O>, prepared: PreparedPolicy<O>, entry: AuditEntry)
    returns (result: Result<Decision<O>, ReplayError>)
    ensures result == ReplayOf(lattice, prepared, entry)
  {
    if prepared.anchor != entry.anchor {
      return Err(PolicyMismatch);
    }
    var facts := FromKnownEntries(EntriesOf(entry.evidence.observations));
    var missing: seq<FactId> := [];
    for i := 0 to |prepared.required|
      invariant missing == Unmentioned(prepared.required[..i], facts)
    {
      assert prepared.required[..i + 1][..i] == prepared.required[..i];
      if prepared.required[i] !in facts {
        missing := missing + [prepared.required[i]];
      }
    }
    assert prepared.required[..|prepared.required|] == prepared.required;
    if missing != [] {
      return Err(MissingObservations(missing));
    }
    var decision := Loops.EvaluateToDecision(lattice, prepared.policy, facts);
    result := Ok(decision);
  }

  function ReplayOf<O(==)>(lattice: Lattice<O>, prepared: PreparedPolicy<O>, entry: AuditEntry)
    : Result<Decision<O>, ReplayError>
  {
    if prepared.anchor != entry.anchor then Err(PolicyMismatch)
    else
      var facts := FromKnownEntries(EntriesOf(entry.evidence.observations));
      var missing := Unmentioned(prepared.required, facts);
      if missing != [] then Err(MissingObservations(missing))
      else Ok(Evaluate(lattice, prepared.policy, facts))
  }

  // ----- what was retained -----

  function Observed(observations: seq<FactObservation>): set<FactId> {
    set i | 0 <= i < |observations| :: observations[i].fact
  }

  // Retained observations that agreed with the facts rebuild exactly that part of them.
  lemma {:induction false} RebuiltFacts(observations: seq<FactObservation>, facts: KnownFacts)
    requires AllAgree(observations, facts)
    ensures var rebuilt := FromKnownEntries(EntriesOf(observations));
      && rebuilt.Keys == Observed(observations)
      && forall f | f in rebuilt :: f in facts && rebuilt[f] == facts[f]
  {
    if observations != [] {
      var n := |observations| - 1;
      RebuiltFacts(observations[..n], facts);
      assert EntriesOf(observations)[..n] == EntriesOf(observations[..n]);
      assert Agrees(observations[n], facts);
      assert Observed(observations) == Observed(observations[..n]) + {observations[n].fact} by {
        assert forall i | 0 <= i < n :: observations[..n][i] == observations[i];
      }
    }
  }

  predicate Covers(names: seq<FactId>, observed: set<FactId>) {
    forall i | 0 <= i < |names| :: names[i] in observed
  }

  // Keeps the order and keeps exactly the uncovered names.
  ghost predicate ExactlyUncovered(missing: seq<FactId>, names: seq<FactId>, observed: set<FactId>) {
    && FactSets.Sorted(missing)
    && FactSets.Elements(missing) == FactSets.Elements(names) - observed
  }

  lemma ElementsAppend(names: seq<FactId>, last: FactId)
    ensures FactSets.Elements(names + [last]) == FactSets.Elements(names) + {last}
  {
  }

  lemma {:induction false} UnmentionedElements(names: seq<FactId>, facts: KnownFacts)
    ensures FactSets.Elements(Unmentioned(names, facts)) == FactSets.Elements(names) - facts.Keys
  {
    if names != [] {
      var n := |names| - 1;
      UnmentionedElements(names[..n], facts);
      ElementsAppend(names[..n], names[n]);
      ElementsAppend(Unmentioned(names[..n], facts), names[n]);
      assert names == names[..n] + [names[n]];
    }
  }

  lemma {:induction false} UnmentionedSorted(names: seq<FactId>, facts: KnownFacts)
    requires FactSets.Sorted(names)
    ensures FactSets.Sorted(Unmentioned(names, facts))
  {
    if names != [] {
      var n := |names| - 1;
      var earlier := Unmentioned(names[..n], facts);
      UnmentionedSorted(names[..n], facts);
      UnmentionedElements(names[..n], facts);
      forall i | 0 <= i < |earlier| ensures FactSets.Before(earlier[i], names[n]) {
        assert earlier[i] in FactSets.Elements(earlier);
        var j :| 0 <= j < n && names[j] == earlier[i];
      }
    }
  }

  lemma UnmentionedIsUncovered(names: seq<FactId>, facts: KnownFacts)
    requires FactSets.Sorted(names)
    ensures ExactlyUncovered(Unmentioned(names, facts), names, facts.Keys)
    ensures Unmentioned(names, facts) == [] <==> Covers(names, facts.Keys)
  {
    UnmentionedElements(names, facts);
    UnmentionedSorted(names, facts);
    var missing := Unmentioned(names, facts);
    forall i | 0 <= i < |names| ensures names[i] in facts.Keys || names[i] in missing {
      assert names[i] in FactSets.Elements(names);
      assert names[i] in FactSets.Elements(names) - facts.Keys ==> names[i] in FactSets.Elements(missing);
    }
    if missing != [] {
      assert missing[0] in FactSets.Elements(missing);
      var i :| 0 <= i < |names| && names[i] == missing[0];
    }
  }

  // What replay answers for any entry at all: a mismatch exactly for another policy's entry, else the
  // required facts that the retained observations leave out, else the policy on those observations.
  lemma ReplayVerdict<O>(lattice: Lattice<O>, prepared: PreparedPolicy<O>, entry: AuditEntry)
    requires FactSets.Sorted(prepared.required)
    ensures
      var replayed, kept := ReplayOf(lattice, prepared, entry), entry.evidence.observations;
      var observed := Observed(kept);
      && (replayed == Err(PolicyMismatch) <==> prepared.anchor != entry.anchor)
      && (prepared.anchor == entry.anchor ==>
            && (replayed.Ok? <==> Covers(prepared.required, observed))
            && (replayed.Err? ==>
                  replayed.error.MissingObservations? &&
                  ExactlyUncovered(replayed.error.missing, prepared.required, observed))
            && (replayed.Ok? ==>
                  replayed.value == Evaluate(lattice, prepared.policy, FromKnownEntries(EntriesOf(kept)))))
  {
    var facts := FromKnownEntries(EntriesOf(entry.evidence.observations));
    RebuiltKeys(entry.evidence.observations);
    UnmentionedIsUncovered(prepared.required, facts);
  }

  lemma {:induction false} RebuiltKeys(observations: seq<FactObservation>)
    ensures FromKnownEntries(EntriesOf(observations)).Keys == Observed(observations)
  {
    if observations != [] {
      var n := |observations| - 1;
      RebuiltKeys(observations[..n]);
      assert EntriesOf(observations)[..n] == EntriesOf(observations[..n]);
      assert Observed(observations) == Observed(observations[..n]) + {observations[n].fact} by {
        assert forall i | 0 <= i < n :: observations[..n][i] == observations[i];
      }
    }
  }

  // Replay of a decision frozen for a prepared policy, whichever facts were demanded when it was
  // assembled: with every required fact retained it is the original decision, in every field;
  // otherwise it names exactly the required facts not retained, in identity order.
  lemma ReplayIsFaithful<O>(
      world: World<O>, state: State, prepared: PreparedPolicy<O>, demanded: Option<seq<FactId>>,
      context: Context, resolution: FactResolution)
    requires Genuine(prepared)
    requires Assemble(world, state, prepared.policy, prepared.anchor, demanded, context, resolution).1.Ok?
    ensures
      var pending := Assemble(
        world, state, prepared.policy, prepared.anchor, demanded, context, resolution).1.value;
      var observed := Observed(resolution.observations);
      var replayed := ReplayOf(world.lattice, prepared, pending.entry);
      && (Covers(prepared.required, observed) ==> replayed == Ok(pending.decision))
      && (!Covers(prepared.required, observed) ==>
            && replayed.Err? && replayed.error.MissingObservations?
            && ExactlyUncovered(replayed.error.missing, prepared.required, observed))
  {
    Runs.AssembleMeans(world, state, prepared.policy, prepared.anchor, demanded, context, resolution);
    RebuiltFacts(resolution.observations, resolution.facts);
    var rebuilt := FromKnownEntries(EntriesOf(resolution.observations));
    UnmentionedIsUncovered(prepared.required, rebuilt);
    if Covers(prepared.required, Observed(resolution.observations)) {
      AgreesOnRequired(prepared, rebuilt, resolution.facts);
      DecisionDependsOnRequiredFacts(world.lattice, prepared.policy, rebuilt, resolution.facts);
    }
  }

  lemma AgreesOnRequired<O>(prepared: PreparedPolicy<O>, rebuilt: KnownFacts, facts: KnownFacts)
    requires Genuine(prepared) && Covers(prepared.required, rebuilt.Keys)
    requires forall f | f in rebuilt :: f in facts && rebuilt[f] == facts[f]
    ensures AgreeOn(PolicyFacts(prepared.policy), rebuilt, facts)
  {
    forall f | f in PolicyFacts(prepared.policy) ensures PresenceOf(rebuilt, f) == PresenceOf(facts, f) {
      assert f in FactSets.Elements(prepared.required);
      var i :| 0 <= i < |prepared.required| && prepared.required[i] == f;
    }
  }
}
