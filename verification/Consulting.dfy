/** The list of consulted facts: first reads only, in reading order. */
module Consulting {
  import opened Facts

  type Log = seq<(FactId, Presence)>

  predicate Mentions(log: Log, fact: FactId) {
    exists i | 0 <= i < |log| :: log[i].0 == fact
  }

  ghost predicate NoDuplicates(log: Log) {
    forall i, j | 0 <= i < j < |log| :: log[i].0 != log[j].0
  }

  // Every logged presence is the one the fact has in `facts`.
  ghost predicate Accurate(log: Log, facts: PartialFacts) {
    forall i | 0 <= i < |log| :: log[i].1 == PresenceOf(facts, log[i].0)
  }

  function Recorded(log: Log, fact: FactId, presence: Presence): (r: Log) {
    if Mentions(log, fact) then log else log + [(fact, presence)]
  }

  // Records every entry of `other`, left to right.
  function Extended(log: Log, other: Log): (r: Log) {
    if other == [] then log
    else
      var (fact, presence) := other[|other| - 1];
      Recorded(Extended(log, other[..|other| - 1]), fact, presence)
  }

  lemma {:induction false} ExtendedMentions(log: Log, other: Log, fact: FactId)
    ensures Mentions(Extended(log, other), fact) <==> Mentions(log, fact) || Mentions(other, fact)
  {
    if other != [] {
      var most, last := other[..|other| - 1], other[|other| - 1];
      ExtendedMentions(log, most, fact);
      ExtendedMentions(log, most, last.0);
      var r := Extended(log, most);
      assert other == most + [last];
      if !Mentions(r, last.0) {
        assert Extended(log, other)[|r|] == last;
        assert forall i | 0 <= i < |r| :: Extended(log, other)[i] == r[i];
      }
      assert Mentions(other, fact) <==> Mentions(most, fact) || last.0 == fact by {
        assert other[|most|] == last;
        assert forall i | 0 <= i < |most| :: other[i] == most[i];
      }
    }
  }

  lemma {:induction false} ExtendedAppend(log: Log, left: Log, right: Log)
    ensures Extended(log, left + right) == Extended(Extended(log, left), right)
  {
    if right == [] {
      assert left + right == left;
    } else {
      var most := right[..|right| - 1];
      assert (left + right)[..|left + right| - 1] == left + most;
      ExtendedAppend(log, left, most);
    }
  }

  // Merging lists that were each de-duplicated first loses nothing: appending the
  // merged form of `middle` and `right` is appending them one after the other.
  lemma {:induction false} ExtendedMerged(log: Log, middle: Log, right: Log)
    ensures Extended(log, Extended(middle, right)) == Extended(Extended(log, middle), right)
  {
    if right != [] {
      var most, last := right[..|right| - 1], right[|right| - 1];
      ExtendedMerged(log, middle, most);
      var merged := Extended(middle, most);
      ExtendedMentions(log, merged, last.0);
      if !Mentions(merged, last.0) {
        assert (merged + [last])[..|merged + [last]| - 1] == merged;
      }
    }
  }

  lemma {:induction false} ExtendedNoDuplicates(log: Log, other: Log)
    requires NoDuplicates(log)
    ensures NoDuplicates(Extended(log, other))
  {
    if other != [] {
      ExtendedNoDuplicates(log, other[..|other| - 1]);
    }
  }

  lemma {:induction false} ExtendedAccurate(log: Log, other: Log, facts: PartialFacts)
    requires Accurate(log, facts) && Accurate(other, facts)
    ensures Accurate(Extended(log, other), facts)
  {
    if other != [] {
      ExtendedAccurate(log, other[..|other| - 1], facts);
    }
  }

  class ConsultedList {
    var entries: Log

    constructor ()
      ensures entries == []
    {
      entries := [];
    }

    method Record(fact: FactId, presence: Presence)
      modifies this
      ensures entries == Recorded(old(entries), fact, presence)
    {
      if !Mentions(entries, fact) {
        entries := entries + [(fact, presence)];
      }
    }

    method Extend(other: Log)
      modifies this
      ensures entries == Extended(old(entries), other)
    {
      for i := 0 to |other|
        invariant entries == Extended(old(entries), other[..i])
      {
        assert other[..i + 1][..i] == other[..i];
        Record(other[i].0, other[i].1);
      }
      assert other[..|other|] == other;
    }
  }
}
