/** The explicit-stack policy inspector, against a recursive left-to-right walk. */
module Inspection {
  import opened Wrappers
  import opened Policies

  datatype Advice =
    | UnlabeledGrant
    | DuplicateLabel(duplicate: Label)
    | MissingReason

  // ----- the traversal -----

  // The grants of a policy, from left to right.
  function Grants<O>(policy: Policy<O>): seq<Clause<O>>
    decreases policy, 1
  {
    match policy
    case Grant(clause) => [clause]
    case All(arms) => GrantsOf(arms)
    case Any(arms) => GrantsOf(arms)
    case OrElse(primary, fallback) => Grants(primary) + Grants(fallback)
    case _ => []
  }

  function GrantsOf<O>(policies: seq<Policy<O>>): seq<Clause<O>>
    decreases policies, 0
  {
    if policies == [] then [] else Grants(policies[0]) + GrantsOf(policies[1..])
  }

  // A stack is popped from its end, so it is walked from last to first.
  function StackGrants<O>(stack: seq<Policy<O>>): seq<Clause<O>> {
    if stack == [] then [] else Grants(stack[|stack| - 1]) + StackGrants(stack[..|stack| - 1])
  }

  function Nodes<O>(policy: Policy<O>): (n: nat)
    ensures n >= 1
    decreases policy, 1
  {
    match policy
    case All(arms) => 1 + NodesOf(arms)
    case Any(arms) => 1 + NodesOf(arms)
    case OrElse(primary, fallback) => 1 + Nodes(primary) + Nodes(fallback)
    case _ => 1
  }

  function NodesOf<O>(policies: seq<Policy<O>>): nat
    decreases policies, 0
  {
    if policies == [] then 0 else Nodes(policies[0]) + NodesOf(policies[1..])
  }

  function StackNodes<O>(stack: seq<Policy<O>>): nat {
    if stack == [] then 0 else Nodes(stack[|stack| - 1]) + StackNodes(stack[..|stack| - 1])
  }

  function Reversed<O>(policies: seq<Policy<O>>): (r: seq<Policy<O>>)
    ensures |r| == |policies|
  {
    if policies == [] then [] else Reversed(policies[1..]) + [policies[0]]
  }

  // ----- what is collected -----

  function LabelsIn<O>(grants: seq<Clause<O>>): set<Label> {
    set i | 0 <= i < |grants| && grants[i].clauseLabel.Some? :: grants[i].clauseLabel.value
  }

  // An explicit reason, or the label standing in for one.
  function ReasonOf<O>(clause: Clause<O>): Option<string> {
    if clause.reason.Some? then clause.reason else clause.clauseLabel
  }

  // The reason a clause gives: its own, or its label without one.
  predicate GivesReason<O>(clause: Clause<O>, text: string) {
    clause.reason == Some(text) || (clause.reason == None && clause.clauseLabel == Some(text))
  }

  predicate Owes<O>(clause: Clause<O>, obligation: ObligationId) {
    obligation in clause.obligations
  }

  function ReasonsIn<O>(grants: seq<Clause<O>>): set<string> {
    set i | 0 <= i < |grants| && ReasonOf(grants[i]).Some? :: ReasonOf(grants[i]).value
  }

  function ObligationsIn<O>(grants: seq<Clause<O>>): set<ObligationId> {
    set i, o | 0 <= i < |grants| && o in grants[i].obligations :: o
  }

  function LabelAdvice<O>(seen: set<Label>, clause: Clause<O>): seq<Advice> {
    match clause.clauseLabel
    case None => [UnlabeledGrant]
    case Some(value) => if value in seen then [DuplicateLabel(value)] else []
  }

  function ReasonAdvice<O>(clause: Clause<O>): seq<Advice> {
    if ReasonOf(clause).None? then [MissingReason] else []
  }

  function AdviceIn<O>(grants: seq<Clause<O>>): seq<Advice> {
    if grants == [] then []
    else
      var earlier, last := grants[..|grants| - 1], grants[|grants| - 1];
      AdviceIn(earlier) + LabelAdvice(LabelsIn(earlier), last) + ReasonAdvice(last)
  }

  // What ends up in the three sets, read off the grants' own fields.
  lemma InventoryContents<O>(grants: seq<Clause<O>>, text: string)
    ensures text in LabelsIn(grants) <==> exists clause | clause in grants :: clause.clauseLabel == Some(text)
    ensures text in ReasonsIn(grants) <==>
      exists clause | clause in grants :: GivesReason(clause, text)
    ensures text in ObligationsIn(grants) <==> exists clause | clause in grants :: Owes(clause, text)
  {
    if clause :| clause in grants && clause.clauseLabel == Some(text) {
      var i :| 0 <= i < |grants| && grants[i] == clause;
    }
    if clause :| clause in grants && GivesReason(clause, text) {
      var i :| 0 <= i < |grants| && grants[i] == clause;
      assert ReasonOf(grants[i]) == Some(text);
    }
    if clause :| clause in grants && Owes(clause, text) {
      var i :| 0 <= i < |grants| && grants[i] == clause;
      assert text in ObligationsIn(grants);
    }
    if text in ReasonsIn(grants) {
      var i :| 0 <= i < |grants| && ReasonOf(grants[i]) == Some(text);
      assert grants[i] in grants && GivesReason(grants[i], text);
    }
    if text in ObligationsIn(grants) {
      var i :| 0 <= i < |grants| && text in grants[i].obligations;
      assert grants[i] in grants && Owes(grants[i], text);
    }
  }

  // ----- the inspector -----

  class PolicyInspection {
    var labels: set<Label>
    var reasons: set<string>
    var obligations: set<ObligationId>
    var advice: seq<Advice>

    ghost predicate Inventories<O>(grants: seq<Clause<O>>)
      reads this
    {
      && labels == LabelsIn(grants)
      && reasons == ReasonsIn(grants)
      && obligations == ObligationsIn(grants)
      && advice == AdviceIn(grants)
    }

    constructor ()
      ensures labels == {} && reasons == {} && obligations == {} && advice == []
    {
      labels, reasons, obligations, advice := {}, {}, {}, [];
    }

    method Grant<O>(clause: Clause<O>, ghost earlier: seq<Clause<O>>)
      requires Inventories(earlier)
      modifies this
      ensures Inventories(earlier + [clause])
    {
      InventoryStep(earlier, clause);
      match clause.clauseLabel {
        case None => advice := advice + [UnlabeledGrant];
        case Some(value) =>
          if value in labels {
            advice := advice + [DuplicateLabel(value)];
          }
          labels := labels + {value};
      }
      match ReasonOf(clause) {
        case Some(reason) => reasons := reasons + {reason};
        case None => advice := advice + [MissingReason];
      }
      obligations := obligations + (set o | o in clause.obligations);
    }
  }

  method Inspect<O>(policy: Policy<O>) returns (inspection: PolicyInspection)
    ensures fresh(inspection) && inspection.Inventories(Grants(policy))
  {
    inspection := new PolicyInspection();
    var pending := [policy];
    ghost var seen: seq<Clause<O>> := [];
    OnePushed([], policy);
    assert [] + [policy] == pending;
    while pending != []
      invariant fresh(inspection) && inspection.Inventories(seen)
      invariant Walked(seen, pending, policy)
      decreases StackNodes(pending)
    {
      var next, rest := pending[|pending| - 1], pending[..|pending| - 1];
      PopKeepsOrder(next, rest);
      PopWalks(seen, pending, policy);
      match next {
        case Grant(clause) =>
          inspection.Grant(clause, seen);
          seen := seen + [clause];
          pending := rest;
        case All(arms) => pending := rest + Reversed(arms);
        case Any(arms) => pending := rest + Reversed(arms);
        case OrElse(primary, fallback) => pending := rest + [fallback, primary];
        case _ => pending := rest;
      }
    }
    assert seen + [] == seen;
  }

  // ----- steps -----

  lemma InventoryStep<O>(grants: seq<Clause<O>>, clause: Clause<O>)
    ensures LabelsIn(grants + [clause]) ==
      LabelsIn(grants) + (if clause.clauseLabel.Some? then {clause.clauseLabel.value} else {})
    ensures ReasonsIn(grants + [clause]) ==
      ReasonsIn(grants) + (if ReasonOf(clause).Some? then {ReasonOf(clause).value} else {})
    ensures ObligationsIn(grants + [clause]) == ObligationsIn(grants) + (set o | o in clause.obligations)
    ensures AdviceIn(grants + [clause]) ==
      AdviceIn(grants) + LabelAdvice(LabelsIn(grants), clause) + ReasonAdvice(clause)
  {
    var all := grants + [clause];
    assert all[..|all| - 1] == grants;
    assert forall i | 0 <= i < |grants| :: all[i] == grants[i];
    assert all[|grants|] == clause;
  }

  // The grants already inventoried, then those still on the stack, are the whole walk.
  ghost predicate Walked<O>(seen: seq<Clause<O>>, pending: seq<Policy<O>>, policy: Policy<O>) {
    seen + StackGrants(pending) == Grants(policy)
  }

  lemma PopWalks<O>(seen: seq<Clause<O>>, pending: seq<Policy<O>>, policy: Policy<O>)
    requires pending != [] && Walked(seen, pending, policy)
    ensures var next, rest := pending[|pending| - 1], pending[..|pending| - 1];
      && seen + (Grants(next) + StackGrants(rest)) == Grants(policy)
      && (next.Grant? ==> Walked(seen + [next.clause], rest, policy))
      && (Grants(next) == [] ==> Walked(seen, rest, policy))
      && StackNodes(rest) < StackNodes(pending)
  {
    var next, rest := pending[|pending| - 1], pending[..|pending| - 1];
    Regrouped(seen, Grants(next), StackGrants(rest));
    assert [] + StackGrants(rest) == StackGrants(rest);
  }

  // What replaces the popped policy walks to the same grants, with fewer nodes left.
  ghost predicate Replaces<O>(pushed: seq<Policy<O>>, next: Policy<O>, rest: seq<Policy<O>>) {
    && StackGrants(rest + pushed) == Grants(next) + StackGrants(rest)
    && StackNodes(rest + pushed) == Nodes(next) - 1 + StackNodes(rest)
  }

  lemma OnePushed<O>(rest: seq<Policy<O>>, policy: Policy<O>)
    ensures StackGrants(rest + [policy]) == Grants(policy) + StackGrants(rest)
    ensures StackNodes(rest + [policy]) == Nodes(policy) + StackNodes(rest)
  {
    assert (rest + [policy])[..|rest + [policy]| - 1] == rest;
  }

  lemma Regrouped<T>(a: seq<T>, b: seq<T>, c: seq<T>)
    ensures a + (b + c) == a + b + c
  {
  }

  // Pushing the children in reverse makes the stack yield them from left to right.
  lemma {:induction false} PushedReversed<O>(arms: seq<Policy<O>>, rest: seq<Policy<O>>)
    ensures StackGrants(rest + Reversed(arms)) == GrantsOf(arms) + StackGrants(rest)
  {
    if arms == [] {
      assert rest + Reversed(arms) == rest;
      assert GrantsOf(arms) + StackGrants(rest) == StackGrants(rest);
    } else {
      var first, others := arms[0], arms[1..];
      PushedReversed(others, rest);
      OnePushed(rest + Reversed(others), first);
      Regrouped(rest, Reversed(others), [first]);
      Regrouped(Grants(first), GrantsOf(others), StackGrants(rest));
    }
  }

  lemma {:induction false} PushedNodes<O>(arms: seq<Policy<O>>, rest: seq<Policy<O>>)
    ensures StackNodes(rest + Reversed(arms)) == NodesOf(arms) + StackNodes(rest)
  {
    if arms == [] {
      assert rest + Reversed(arms) == rest;
    } else {
      var first, others := arms[0], arms[1..];
      PushedNodes(others, rest);
      OnePushed(rest + Reversed(others), first);
      Regrouped(rest, Reversed(others), [first]);
    }
  }

  lemma PopKeepsOrder<O>(next: Policy<O>, rest: seq<Policy<O>>)
    ensures next.All? ==> Replaces(Reversed(next.arms), next, rest)
    ensures next.Any? ==> Replaces(Reversed(next.arms), next, rest)
    ensures next.OrElse? ==> Replaces([next.fallback, next.primary], next, rest)
  {
    match next
    case All(arms) =>
      PushedReversed(arms, rest);
      PushedNodes(arms, rest);
    case Any(arms) =>
      PushedReversed(arms, rest);
      PushedNodes(arms, rest);
    case OrElse(primary, fallback) =>
      OnePushed(rest, fallback);
      OnePushed(rest + [fallback], primary);
      assert rest + [fallback, primary] == (rest + [fallback]) + [primary];
    case _ =>
  }

  // ----- what the advice says -----

  function Occurrences<O>(grants: seq<Clause<O>>, value: Label): nat {
    if grants == [] then 0
    else
      var here := if grants[|grants| - 1].clauseLabel == Some(value) then 1 else 0;
      Occurrences(grants[..|grants| - 1], value) + here
  }

  lemma {:induction false} LabelOccurs<O>(grants: seq<Clause<O>>, value: Label)
    ensures value in LabelsIn(grants) <==> Occurrences(grants, value) > 0
  {
    if grants != [] {
      var earlier, last := grants[..|grants| - 1], grants[|grants| - 1];
      LabelOccurs(earlier, value);
      InventoryStep(earlier, last);
      assert grants == earlier + [last];
    }
  }

  // How often a finding is reported so far, plus its reports for the last grant.
  lemma AdviceCount<O>(grants: seq<Clause<O>>, finding: Advice)
    requires grants != []
    ensures var earlier, last := grants[..|grants| - 1], grants[|grants| - 1];
      multiset(AdviceIn(grants))[finding] ==
        multiset(AdviceIn(earlier))[finding]
        + (if finding in LabelAdvice(LabelsIn(earlier), last) then 1 else 0)
        + (if finding in ReasonAdvice(last) then 1 else 0)
  {
    var earlier, last := grants[..|grants| - 1], grants[|grants| - 1];
    var labels, reasons := LabelAdvice(LabelsIn(earlier), last), ReasonAdvice(last);
    assert multiset(AdviceIn(grants)) == multiset(AdviceIn(earlier)) + multiset(labels) + multiset(reasons);
  }

  // A label is reported once for each of its uses after the first.
  lemma {:induction false} DuplicateReportedPerRepeat<O>(grants: seq<Clause<O>>, value: Label)
    ensures multiset(AdviceIn(grants))[DuplicateLabel(value)] ==
      if Occurrences(grants, value) == 0 then 0 else Occurrences(grants, value) - 1
  {
    if grants != [] {
      var earlier, last := grants[..|grants| - 1], grants[|grants| - 1];
      DuplicateReportedPerRepeat(earlier, value);
      LabelOccurs(earlier, value);
      AdviceCount(grants, DuplicateLabel(value));
    }
  }

  function Unlabeled<O>(grants: seq<Clause<O>>): nat {
    if grants == [] then 0
    else Unlabeled(grants[..|grants| - 1]) + (if grants[|grants| - 1].clauseLabel.None? then 1 else 0)
  }

  function Unexplained<O>(grants: seq<Clause<O>>): nat {
    if grants == [] then 0
    else
      var clause := grants[|grants| - 1];
      var here := if clause.clauseLabel.None? && clause.reason.None? then 1 else 0;
      Unexplained(grants[..|grants| - 1]) + here
  }

  // Every grant without a label is reported once.
  lemma {:induction false} UnlabeledReported<O>(grants: seq<Clause<O>>)
    ensures multiset(AdviceIn(grants))[UnlabeledGrant] == Unlabeled(grants)
  {
    if grants != [] {
      UnlabeledReported(grants[..|grants| - 1]);
      AdviceCount(grants, UnlabeledGrant);
    }
  }

  // Every grant with neither label nor reason is reported once.
  lemma {:induction false} UnexplainedReported<O>(grants: seq<Clause<O>>)
    ensures multiset(AdviceIn(grants))[MissingReason] == Unexplained(grants)
  {
    if grants != [] {
      UnexplainedReported(grants[..|grants| - 1]);
      AdviceCount(grants, MissingReason);
    }
  }
}
