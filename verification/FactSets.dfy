/** Ordered sets of fact identities, and the walk that collects a policy's required facts. */
module FactSets {
  import opened Facts
  import opened Policies

  // ----- lexicographic order -----

  predicate Before(a: FactId, b: FactId) {
    if b == [] then false
    else if a == [] then true
    else if a[0] != b[0] then a[0] < b[0]
    else Before(a[1..], b[1..])
  }

  lemma {:induction false} BeforeTotal(a: FactId, b: FactId)
    ensures Before(a, b) || a == b || Before(b, a)
    ensures !(Before(a, b) && Before(b, a)) && !Before(a, a)
  {
    if a != [] && b != [] && a[0] == b[0] {
      BeforeTotal(a[1..], b[1..]);
      assert a == [a[0]] + a[1..] && b == [b[0]] + b[1..];
    }
    if a != [] {
      BeforeIrreflexive(a);
    }
  }

  lemma {:induction false} BeforeIrreflexive(a: FactId)
    ensures !Before(a, a)
  {
    if a != [] {
      BeforeIrreflexive(a[1..]);
    }
  }

  lemma {:induction false} BeforeTransitive(a: FactId, b: FactId, c: FactId)
    requires Before(a, b) && Before(b, c)
    ensures Before(a, c)
  {
    if a != [] && a[0] == b[0] && b[0] == c[0] {
      BeforeTransitive(a[1..], b[1..], c[1..]);
    }
  }

  // The order meant: a proper prefix comes first, otherwise the first differing character decides.
  ghost predicate Precedes(a: FactId, b: FactId, k: nat) {
    && k <= |a| && k <= |b| && a[..k] == b[..k]
    && if k == |a| then k < |b| else k < |b| && a[k] < b[k]
  }

  lemma {:induction false} BeforeIff(a: FactId, b: FactId)
    ensures Before(a, b) <==> exists k: nat :: Precedes(a, b, k)
  {
    if k: nat :| Precedes(a, b, k) {
      PrecedesIsBefore(a, b, k);
    }
    if Before(a, b) {
      var k := FirstDifference(a, b);
    }
  }

  lemma {:induction false} PrecedesIsBefore(a: FactId, b: FactId, k: nat)
    requires Precedes(a, b, k)
    ensures Before(a, b)
  {
    if k > 0 {
      assert a[0] == a[..k][0] == b[..k][0] == b[0];
      assert a[1..][..k - 1] == a[..k][1..] == b[..k][1..] == b[1..][..k - 1];
      PrecedesIsBefore(a[1..], b[1..], k - 1);
    }
  }

  lemma {:induction false} FirstDifference(a: FactId, b: FactId) returns (k: nat)
    requires Before(a, b)
    ensures Precedes(a, b, k)
  {
    if a == [] || a[0] != b[0] {
      k := 0;
    } else {
      var j := FirstDifference(a[1..], b[1..]);
      k := j + 1;
      assert a[..k] == [a[0]] + a[1..][..j] == b[..k];
    }
  }

  // ----- sorted sequences -----

  ghost predicate Sorted(list: seq<FactId>) {
    forall i, j | 0 <= i < j < |list| :: Before(list[i], list[j])
  }

  function Elements(list: seq<FactId>): set<FactId> {
    set f | f in list
  }

  // The place of a fact among sorted ones: everything earlier is strictly before it.
  function Position(list: seq<FactId>, fact: FactId): (k: nat)
    ensures k <= |list|
    ensures forall i | 0 <= i < k :: Before(list[i], fact)
    ensures k < |list| ==> !Before(list[k], fact)
  {
    if list == [] || !Before(list[0], fact) then 0 else 1 + Position(list[1..], fact)
  }

  function Inserted(list: seq<FactId>, fact: FactId): seq<FactId> {
    var k := Position(list, fact);
    if k < |list| && list[k] == fact then list else list[..k] + [fact] + list[k..]
  }

  lemma InsertedSorted(list: seq<FactId>, fact: FactId)
    requires Sorted(list)
    ensures Sorted(Inserted(list, fact))
    ensures Elements(Inserted(list, fact)) == Elements(list) + {fact}
  {
    var k, r := Position(list, fact), Inserted(list, fact);
    if k == |list| || list[k] != fact {
      forall j | k <= j < |list| ensures Before(fact, list[j]) {
        BeforeTotal(list[k], fact);
        if k < j {
          BeforeTransitive(fact, list[k], list[j]);
        }
      }
      PlacedSorted(list, k, fact);
      PlacedElements(list, k, fact);
    } else {
      assert fact in list;
    }
  }

  lemma PlacedElements(list: seq<FactId>, k: nat, fact: FactId)
    requires k <= |list|
    ensures Elements(list[..k] + [fact] + list[k..]) == Elements(list) + {fact}
  {
    assert list == list[..k] + list[k..];
  }

  lemma PlacedSorted(list: seq<FactId>, k: nat, fact: FactId)
    requires Sorted(list) && k <= |list|
    requires forall i | 0 <= i < k :: Before(list[i], fact)
    requires forall i | k <= i < |list| :: Before(fact, list[i])
    ensures Sorted(list[..k] + [fact] + list[k..])
  {
    var r := list[..k] + [fact] + list[k..];
    forall i, j | 0 <= i < j < |r| ensures Before(r[i], r[j]) {
      assert r[i] == if i < k then list[i] else if i == k then fact else list[i - 1];
      assert r[j] == if j < k then list[j] else if j == k then fact else list[j - 1];
    }
  }

  // A sorted sequence is determined by its elements.
  lemma {:induction false} SortedUnique(left: seq<FactId>, right: seq<FactId>)
    requires Sorted(left) && Sorted(right) && Elements(left) == Elements(right)
    ensures left == right
  {
    assert forall i | 0 <= i < |left| :: left[i] in Elements(right);
    assert forall i | 0 <= i < |right| :: right[i] in Elements(left);
    if left != [] && right != [] {
      FirstIsLeast(left, right);
      FirstIsLeast(right, left);
      BeforeTotal(left[0], right[0]);
      RestElements(left);
      RestElements(right);
      SortedUnique(left[1..], right[1..]);
      assert left == [left[0]] + left[1..] && right == [right[0]] + right[1..];
    }
  }

  lemma FirstIsLeast(list: seq<FactId>, other: seq<FactId>)
    requires list != [] && other != [] && Sorted(list) && Elements(list) == Elements(other)
    ensures list[0] == other[0] || Before(list[0], other[0])
  {
    assert other[0] in Elements(list);
    var i :| 0 <= i < |list| && list[i] == other[0];
  }

  lemma RestElements(list: seq<FactId>)
    requires list != [] && Sorted(list)
    ensures Sorted(list[1..]) && Elements(list[1..]) == Elements(list) - {list[0]}
  {
    BeforeIrreflexive(list[0]);
    assert list == [list[0]] + list[1..];
    assert forall i | 0 < i < |list| :: Before(list[0], list[i]);
  }

  // ----- collecting -----

  class FactSet {
    var facts: seq<FactId>

    ghost predicate Valid()
      reads this
    {
      Sorted(facts)
    }

    constructor ()
      ensures Valid() && facts == []
    {
      facts := [];
    }

    method Insert(fact: FactId)
      requires Valid()
      modifies this
      ensures Valid() && Elements(facts) == old(Elements(facts)) + {fact}
    {
      InsertedSorted(facts, fact);
      facts := Inserted(facts, fact);
    }

    method CollectCondition(condition: Condition)
      requires Valid()
      modifies this
      ensures Valid() && Elements(facts) == old(Elements(facts)) + ConditionFacts(condition)
      decreases condition, 1
    {
      match condition
      case Always =>
      case Never =>
      case Has(fact) => Insert(fact);
      case Not(inner) => CollectCondition(inner);
      case AllOf(conditions) => CollectConditions(conditions);
      case AnyOf(conditions) => CollectConditions(conditions);
    }

    method CollectConditions(conditions: seq<Condition>)
      requires Valid()
      modifies this
      ensures Valid() && Elements(facts) == old(Elements(facts)) + ConditionFacts(AllOf(conditions))
      decreases conditions, 0
    {
      ghost var before := Elements(facts);
      for i := 0 to |conditions|
        invariant Valid() && Elements(facts) == before + ConditionFacts(AllOf(conditions[..i]))
      {
        CollectCondition(conditions[i]);
        ConditionsStep(conditions, i);
      }
      assert conditions[..|conditions|] == conditions;
    }

    method CollectPolicy<O>(policy: Policy<O>)
      requires Valid()
      modifies this
      ensures Valid() && Elements(facts) == old(Elements(facts)) + PolicyFacts(policy)
      decreases policy, 1
    {
      match policy
      case Permit(_) =>
      case Deny =>
      case Grant(clause) => CollectCondition(clause.condition);
      case All(policies) => CollectPolicies(policies);
      case Any(policies) => CollectPolicies(policies);
      case OrElse(primary, fallback) =>
        CollectPolicy(primary);
        CollectPolicy(fallback);
    }

    method CollectPolicies<O>(policies: seq<Policy<O>>)
      requires Valid()
      modifies this
      ensures Valid() && Elements(facts) == old(Elements(facts)) + PolicyFacts(Policy.All(policies))
      decreases policies, 0
    {
      ghost var before := Elements(facts);
      for i := 0 to |policies|
        invariant Valid() && Elements(facts) == before + PolicyFacts(Policy.All(policies[..i]))
      {
        CollectPolicy(policies[i]);
        PoliciesStep(policies, i);
      }
      assert policies[..|policies|] == policies;
    }
  }

  lemma ConditionsStep(conditions: seq<Condition>, i: nat)
    requires i < |conditions|
    ensures ConditionFacts(AllOf(conditions[..i + 1])) ==
      ConditionFacts(AllOf(conditions[..i])) + ConditionFacts(conditions[i])
  {
    assert conditions[..i + 1] == conditions[..i] + [conditions[i]];
    assert conditions[..i + 1][i] == conditions[i];
  }

  lemma PoliciesStep<O>(policies: seq<Policy<O>>, i: nat)
    requires i < |policies|
    ensures PolicyFacts(Policy.All(policies[..i + 1])) ==
      PolicyFacts(Policy.All(policies[..i])) + PolicyFacts(policies[i])
  {
    assert policies[..i + 1] == policies[..i] + [policies[i]];
    assert policies[..i + 1][i] == policies[i];
  }

  // The required facts of a policy, each once, in identity order.
  method RequiredFacts<O>(policy: Policy<O>) returns (required: seq<FactId>)
    ensures Sorted(required) && Elements(required) == PolicyFacts(policy)
  {
    var collected := new FactSet();
    collected.CollectPolicy(policy);
    required := collected.facts;
  }
}
