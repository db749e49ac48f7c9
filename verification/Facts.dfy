/** Fact bundles: three-valued presences, with omission read as absence. */
module Facts {
  type FactId = string

  datatype Presence = Present | Absent | Unknown

  type PartialFacts = map<FactId, Presence>

  // Constructors of known facts refuse `Unknown`.
  type KnownFacts = facts: PartialFacts | forall f | f in facts :: facts[f] != Unknown
    witness map[]

  function PresenceOf(facts: PartialFacts, fact: FactId): Presence {
    if fact in facts then facts[fact] else Absent
  }

  predicate IsPresent(facts: PartialFacts, fact: FactId) {
    PresenceOf(facts, fact) == Present
  }

  // Later entries overwrite earlier ones; unknown entries are filtered out.
  function FromKnownEntries(entries: seq<(FactId, Presence)>): (known: KnownFacts) {
    if entries == [] then map[]
    else
      var (fact, presence) := entries[|entries| - 1];
      var earlier := FromKnownEntries(entries[..|entries| - 1]);
      if presence == Unknown then earlier else earlier[fact := presence]
  }

  // A fact has the presence of its last known entry.
  lemma {:induction false} LastKnownEntryCounts(entries: seq<(FactId, Presence)>, fact: FactId)
    ensures var known := FromKnownEntries(entries);
      && (fact in known <==> exists i | 0 <= i < |entries| :: KnownEntry(entries, i, fact))
      && forall i | 0 <= i < |entries| && KnownEntry(entries, i, fact) ::
           (forall j | i < j < |entries| :: !KnownEntry(entries, j, fact)) ==> known[fact] == entries[i].1
  {
    if entries != [] {
      var n := |entries| - 1;
      LastKnownEntryCounts(entries[..n], fact);
      assert forall i | 0 <= i < n :: KnownEntry(entries[..n], i, fact) <==> KnownEntry(entries, i, fact);
      if KnownEntry(entries, n, fact) {
        assert fact in FromKnownEntries(entries);
      }
    }
  }

  predicate KnownEntry(entries: seq<(FactId, Presence)>, i: nat, fact: FactId)
    requires i < |entries|
  {
    entries[i].0 == fact && entries[i].1 != Unknown
  }

  // The known part of a partial bundle.
  function PartialToKnown(partial: PartialFacts): (known: KnownFacts) {
    map f | f in partial && partial[f] != Unknown :: partial[f]
  }

  // `known` settles what `partial` left unknown and changes nothing else.
  ghost predicate Completes(known: KnownFacts, partial: PartialFacts) {
    forall f :: PresenceOf(partial, f) != Unknown ==> PresenceOf(known, f) == PresenceOf(partial, f)
  }

  ghost predicate AgreeOn(facts: set<FactId>, left: PartialFacts, right: PartialFacts) {
    forall f | f in facts :: PresenceOf(left, f) == PresenceOf(right, f)
  }
}
