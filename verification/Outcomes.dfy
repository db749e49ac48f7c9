/** Outcomes as a fold over effects, and what the lattice laws make of it. */
module Outcomes {
  import opened Wrappers
  import opened Facts
  import opened Policies
  import opened Conditions
  import opened Evaluation
  import opened Semantics

  // ----- effects alone -----

  function Effects<O>(arms: seq<Arm<O>>): (effects: seq<Effect<O>>)
    ensures |effects| == |arms|
    ensures forall i | 0 <= i < |arms| :: effects[i] == arms[i].result.effect
  {
    seq(|arms|, i requires 0 <= i < |arms| => arms[i].result.effect)
  }

  // Denial absorbs; no effect at all is the identity.
  function MeetEffects<O>(lattice: Lattice<O>, left: Option<Effect<O>>, right: Option<Effect<O>>)
    : Option<Effect<O>>
  {
    if left.None? then right
    else if right.None? then left
    else if left.value.Deny? || right.value.Deny? then Some(Effect.Deny)
    else Some(Effect.Permit(lattice.meet(left.value.outcome, right.value.outcome)))
  }

  // Denial is the identity.
  function JoinEffects<O>(lattice: Lattice<O>, left: Effect<O>, right: Effect<O>): Effect<O> {
    if left.Deny? then right
    else if right.Deny? then left
    else Effect.Permit(lattice.join(left.outcome, right.outcome))
  }

  function MeetAll<O>(lattice: Lattice<O>, effects: seq<Effect<O>>): Option<Effect<O>> {
    if effects == [] then None
    else MeetEffects(lattice, MeetAll(lattice, effects[..|effects| - 1]), Some(effects[|effects| - 1]))
  }

  function JoinAll<O>(lattice: Lattice<O>, effects: seq<Effect<O>>): Effect<O> {
    if effects == [] then Effect.Deny
    else JoinEffects(lattice, JoinAll(lattice, effects[..|effects| - 1]), effects[|effects| - 1])
  }

  function Settled<O>(effect: Option<Effect<O>>): Effect<O> {
    if effect.None? then Effect.Deny else effect.value
  }

  lemma {:induction false} AnyFolds<O>(lattice: Lattice<O>, arms: seq<Arm<O>>)
    ensures AnyOfArms(lattice, arms).result.effect == JoinAll(lattice, Effects(arms))
  {
    if arms != [] {
      var n := |arms| - 1;
      AnyFolds(lattice, arms[..n]);
      assert Effects(arms)[..n] == Effects(arms[..n]);
    }
  }

  lemma {:induction false} MeetFolds<O>(lattice: Lattice<O>, arms: seq<Arm<O>>)
    requires forall i | 0 <= i < |arms| :: Permits(arms[i])
    ensures MeetAll(lattice, Effects(arms)) ==
      match FoldPermits(lattice, ByMeet, arms)
      case None => None
      case Some(permit) => Some(Effect.Permit(permit.outcome))
  {
    if arms != [] {
      var n := |arms| - 1;
      assert forall i | 0 <= i < n :: arms[..n][i] == arms[i];
      MeetFolds(lattice, arms[..n]);
      assert Effects(arms)[..n] == Effects(arms[..n]);
      assert Permits(arms[n]);
    }
  }

  lemma {:induction false} DenialAbsorbs<O>(lattice: Lattice<O>, effects: seq<Effect<O>>, k: nat)
    requires k < |effects| && effects[k].Deny?
    ensures MeetAll(lattice, effects) == Some(Effect.Deny)
  {
    if k < |effects| - 1 {
      DenialAbsorbs(lattice, effects[..|effects| - 1], k);
    }
  }

  lemma AllFolds<O>(lattice: Lattice<O>, arms: seq<Arm<O>>)
    ensures AllOfArms(lattice, arms).result.effect == Settled(MeetAll(lattice, Effects(arms)))
  {
    var k := FirstDeny(arms);
    if k < |arms| {
      DenialAbsorbs(lattice, Effects(arms), k);
    } else {
      MeetFolds(lattice, arms);
    }
  }

  // ----- order of the outcomes -----

  lemma BelowReflexive<O(!new)>(lattice: Lattice<O>, a: O)
    requires LatticeLaws(lattice)
    ensures Below(lattice, a, a)
  {
    assert Idempotent(lattice.meet, a);
  }

  lemma BelowAntisymmetric<O(!new)>(lattice: Lattice<O>, a: O, b: O)
    requires LatticeLaws(lattice) && Below(lattice, a, b) && Below(lattice, b, a)
    ensures a == b
  {
    assert Commutes(lattice.meet, a, b);
  }

  lemma BelowTransitive<O(!new)>(lattice: Lattice<O>, a: O, b: O, c: O)
    requires LatticeLaws(lattice) && Below(lattice, a, b) && Below(lattice, b, c)
    ensures Below(lattice, a, c)
  {
    assert Associates(lattice.meet, a, b, c);
  }

  lemma BelowByJoin<O(!new)>(lattice: Lattice<O>, a: O, b: O)
    requires LatticeLaws(lattice)
    ensures Below(lattice, a, b) <==> lattice.join(a, b) == b
  {
    assert Commutes(lattice.meet, a, b) && Commutes(lattice.join, a, b);
    assert Absorbs(lattice, a, b) && Absorbs(lattice, b, a);
  }

  lemma MeetIsBelow<O(!new)>(lattice: Lattice<O>, a: O, b: O)
    requires LatticeLaws(lattice)
    ensures Below(lattice, lattice.meet(a, b), a) && Below(lattice, lattice.meet(a, b), b)
  {
    assert Associates(lattice.meet, a, b, b) && Idempotent(lattice.meet, b);
    assert Associates(lattice.meet, b, a, a) && Idempotent(lattice.meet, a);
    assert Commutes(lattice.meet, a, b);
  }

  lemma JoinIsAbove<O(!new)>(lattice: Lattice<O>, a: O, b: O)
    requires LatticeLaws(lattice)
    ensures Below(lattice, a, lattice.join(a, b)) && Below(lattice, b, lattice.join(a, b))
  {
    assert Absorbs(lattice, a, b) && Absorbs(lattice, b, a);
    assert Commutes(lattice.join, a, b);
  }

  lemma MeetIsGreatestBelow<O(!new)>(lattice: Lattice<O>, a: O, b: O, c: O)
    requires LatticeLaws(lattice)
    ensures Below(lattice, c, lattice.meet(a, b)) <==> Below(lattice, c, a) && Below(lattice, c, b)
  {
    assert Associates(lattice.meet, c, a, b);
    MeetIsBelow(lattice, a, b);
    if Below(lattice, c, lattice.meet(a, b)) {
      BelowTransitive(lattice, c, lattice.meet(a, b), a);
      BelowTransitive(lattice, c, lattice.meet(a, b), b);
    }
  }

  lemma JoinIsLeastAbove<O(!new)>(lattice: Lattice<O>, a: O, b: O, c: O)
    requires LatticeLaws(lattice)
    ensures Below(lattice, lattice.join(a, b), c) <==> Below(lattice, a, c) && Below(lattice, b, c)
  {
    assert Associates(lattice.join, a, b, c);
    BelowByJoin(lattice, lattice.join(a, b), c);
    BelowByJoin(lattice, a, c);
    BelowByJoin(lattice, b, c);
    JoinIsAbove(lattice, a, b);
    if Below(lattice, lattice.join(a, b), c) {
      BelowTransitive(lattice, a, lattice.join(a, b), c);
      BelowTransitive(lattice, b, lattice.join(a, b), c);
    }
  }

  // An `all` permit carries the greatest outcome below every arm's outcome.
  lemma AllIsGreatestLowerBound<O(!new)>(lattice: Lattice<O>, arms: seq<Arm<O>>, bound: O)
    requires LatticeLaws(lattice) && Permits(AllOfArms(lattice, arms))
    ensures Below(lattice, bound, AllOfArms(lattice, arms).result.effect.outcome) <==>
      forall i | 0 <= i < |arms| :: Permits(arms[i]) && Below(lattice, bound, arms[i].result.effect.outcome)
  {
    AllPermitsIff(lattice, arms);
    AllFolds(lattice, arms);
    MeetAllBound(lattice, Effects(arms), bound);
  }

  lemma {:induction false} MeetAllBound<O(!new)>(lattice: Lattice<O>, effects: seq<Effect<O>>, bound: O)
    requires LatticeLaws(lattice) && effects != []
    requires forall i | 0 <= i < |effects| :: effects[i].Permit?
    ensures var all := MeetAll(lattice, effects);
      && all.Some? && all.value.Permit?
      && (Below(lattice, bound, all.value.outcome) <==>
          forall i | 0 <= i < |effects| :: Below(lattice, bound, effects[i].outcome))
  {
    var n := |effects| - 1;
    if n > 0 {
      MeetAllBound(lattice, effects[..n], bound);
      MeetIsGreatestBelow(lattice, MeetAll(lattice, effects[..n]).value.outcome, effects[n].outcome, bound);
      assert effects == effects[..n] + [effects[n]];
    }
  }

  // An `any` permit carries the least outcome above every permitting arm's outcome.
  lemma AnyIsLeastUpperBound<O(!new)>(lattice: Lattice<O>, arms: seq<Arm<O>>, bound: O)
    requires LatticeLaws(lattice) && Permits(AnyOfArms(lattice, arms))
    ensures Below(lattice, AnyOfArms(lattice, arms).result.effect.outcome, bound) <==>
      forall i | 0 <= i < |arms| && Permits(arms[i]) :: Below(lattice, arms[i].result.effect.outcome, bound)
  {
    AnyFolds(lattice, arms);
    JoinAllBound(lattice, Effects(arms), bound);
  }

  lemma {:induction false} JoinAllBound<O(!new)>(lattice: Lattice<O>, effects: seq<Effect<O>>, bound: O)
    requires LatticeLaws(lattice)
    ensures var any := JoinAll(lattice, effects);
      (any.Permit? ==> Below(lattice, any.outcome, bound)) <==>
      forall i | 0 <= i < |effects| && effects[i].Permit? :: Below(lattice, effects[i].outcome, bound)
  {
    if effects != [] {
      var n := |effects| - 1;
      JoinAllBound(lattice, effects[..n], bound);
      var before := JoinAll(lattice, effects[..n]);
      if before.Permit? && effects[n].Permit? {
        JoinIsLeastAbove(lattice, before.outcome, effects[n].outcome, bound);
      }
      assert effects == effects[..n] + [effects[n]];
    }
  }

  // ----- monotone outcomes -----

  ghost predicate NoHigher<O>(lattice: Lattice<O>, low: Effect<O>, high: Effect<O>) {
    low.Permit? ==> high.Permit? && Below(lattice, low.outcome, high.outcome)
  }

  lemma {:induction false} MeetAllMonotone<O(!new)>(
      lattice: Lattice<O>, low: seq<Effect<O>>, high: seq<Effect<O>>)
    requires LatticeLaws(lattice) && |low| == |high|
    requires forall i | 0 <= i < |low| :: NoHigher(lattice, low[i], high[i])
    ensures NoHigher(lattice, Settled(MeetAll(lattice, low)), Settled(MeetAll(lattice, high)))
  {
    if low != [] {
      var n := |low| - 1;
      MeetAllMonotone(lattice, low[..n], high[..n]);
      assert NoHigher(lattice, low[n], high[n]);
      var l, h := MeetAll(lattice, low[..n]), MeetAll(lattice, high[..n]);
      if n > 0 && l.value.Permit? && low[n].Permit? {
        var m := lattice.meet(l.value.outcome, low[n].outcome);
        MeetIsBelow(lattice, l.value.outcome, low[n].outcome);
        BelowTransitive(lattice, m, l.value.outcome, h.value.outcome);
        BelowTransitive(lattice, m, low[n].outcome, high[n].outcome);
        MeetIsGreatestBelow(lattice, h.value.outcome, high[n].outcome, m);
      }
    }
  }

  lemma JoinAllMonotone<O(!new)>(
      lattice: Lattice<O>, low: seq<Effect<O>>, high: seq<Effect<O>>)
    requires LatticeLaws(lattice) && |low| == |high|
    requires forall i | 0 <= i < |low| :: NoHigher(lattice, low[i], high[i])
    ensures NoHigher(lattice, JoinAll(lattice, low), JoinAll(lattice, high))
  {
    var top := JoinAll(lattice, high);
    if top.Permit? {
      BelowReflexive(lattice, top.outcome);
      JoinAllBound(lattice, high, top.outcome);
      forall i | 0 <= i < |low| && low[i].Permit? ensures Below(lattice, low[i].outcome, top.outcome) {
        assert NoHigher(lattice, low[i], high[i]);
        BelowTransitive(lattice, low[i].outcome, high[i].outcome, top.outcome);
      }
      JoinAllBound(lattice, low, top.outcome);
    }
    JoinAllDenies(lattice, low);
    JoinAllDenies(lattice, high);
    if k :| 0 <= k < |low| && low[k].Permit? {
      assert NoHigher(lattice, low[k], high[k]);
    }
  }

  lemma {:induction false} JoinAllDenies<O>(lattice: Lattice<O>, effects: seq<Effect<O>>)
    ensures JoinAll(lattice, effects).Deny? <==> forall i | 0 <= i < |effects| :: effects[i].Deny?
  {
    if effects != [] {
      var n := |effects| - 1;
      JoinAllDenies(lattice, effects[..n]);
      assert effects == effects[..n] + [effects[n]];
    }
  }

  // ----- what a policy can grant -----

  // The least of the permitted outcomes; denials do not count.
  function LeastOf<O>(lattice: Lattice<O>, effects: seq<Effect<O>>): Effect<O> {
    if effects == [] then Effect.Deny
    else
      var earlier, last := LeastOf(lattice, effects[..|effects| - 1]), effects[|effects| - 1];
      if last.Deny? then earlier
      else if earlier.Deny? then last
      else Effect.Permit(lattice.meet(earlier.outcome, last.outcome))
  }

  // An outcome above everything the policy can grant; a denial if it can grant nothing.
  function Ceiling<O>(lattice: Lattice<O>, policy: Policy<O>): Effect<O>
    decreases policy, 1
  {
    match policy
    case Permit(outcome) => Effect.Permit(outcome)
    case Deny => Effect.Deny
    case Grant(clause) => Effect.Permit(clause.outcome)
    case All(arms) => Settled(MeetAll(lattice, Ceilings(lattice, arms)))
    case Any(arms) => JoinAll(lattice, Ceilings(lattice, arms))
    case OrElse(primary, fallback) => JoinEffects(lattice, Ceiling(lattice, primary), Ceiling(lattice, fallback))
  }

  function Ceilings<O>(lattice: Lattice<O>, policies: seq<Policy<O>>): (effects: seq<Effect<O>>)
    ensures |effects| == |policies|
    ensures forall i | 0 <= i < |policies| :: effects[i] == Ceiling(lattice, policies[i])
    decreases policies, 0
  {
    if policies == [] then [] else [Ceiling(lattice, policies[0])] + Ceilings(lattice, policies[1..])
  }

  // An outcome below everything the policy can grant; a denial if it can grant nothing.
  function Floor<O>(lattice: Lattice<O>, policy: Policy<O>): Effect<O>
    decreases policy, 1
  {
    match policy
    case Permit(outcome) => Effect.Permit(outcome)
    case Deny => Effect.Deny
    case Grant(clause) => Effect.Permit(clause.outcome)
    case All(arms) => Settled(MeetAll(lattice, Floors(lattice, arms)))
    case Any(arms) => LeastOf(lattice, Floors(lattice, arms))
    case OrElse(primary, fallback) => LeastOf(lattice, [Floor(lattice, primary), Floor(lattice, fallback)])
  }

  function Floors<O>(lattice: Lattice<O>, policies: seq<Policy<O>>): (effects: seq<Effect<O>>)
    ensures |effects| == |policies|
    ensures forall i | 0 <= i < |policies| :: effects[i] == Floor(lattice, policies[i])
    decreases policies, 0
  {
    if policies == [] then [] else [Floor(lattice, policies[0])] + Floors(lattice, policies[1..])
  }

  lemma EffectReflexive<O(!new)>(lattice: Lattice<O>, effect: Effect<O>)
    requires LatticeLaws(lattice)
    ensures NoHigher(lattice, effect, effect) && NotUnder(lattice, effect, effect)
  {
    if effect.Permit? {
      BelowReflexive(lattice, effect.outcome);
    }
  }

  lemma JoinEffectsAbove<O(!new)>(lattice: Lattice<O>, left: Effect<O>, right: Effect<O>)
    requires LatticeLaws(lattice)
    ensures NoHigher(lattice, left, JoinEffects(lattice, left, right))
    ensures NoHigher(lattice, right, JoinEffects(lattice, left, right))
  {
    EffectReflexive(lattice, left);
    EffectReflexive(lattice, right);
    if left.Permit? && right.Permit? {
      JoinIsAbove(lattice, left.outcome, right.outcome);
    }
  }

  lemma NoHigherTransitive<O(!new)>(lattice: Lattice<O>, a: Effect<O>, b: Effect<O>, c: Effect<O>)
    requires LatticeLaws(lattice) && NoHigher(lattice, a, b) && NoHigher(lattice, b, c)
    ensures NoHigher(lattice, a, c)
  {
    if a.Permit? {
      BelowTransitive(lattice, a.outcome, b.outcome, c.outcome);
    }
  }

  // Whatever the facts, a policy grants nothing above its ceiling.
  lemma {:induction false} GrantsUnderCeiling<O(!new)>(lattice: Lattice<O>, policy: Policy<O>, facts: KnownFacts)
    requires LatticeLaws(lattice)
    ensures NoHigher(lattice, EvalPolicy(lattice, policy, facts).result.effect, Ceiling(lattice, policy))
  {
    match policy
    case Permit(outcome) => BelowReflexive(lattice, outcome);
    case Deny =>
    case Grant(clause) => BelowReflexive(lattice, clause.outcome);
    case All(ps) =>
      var arms, ceilings := EvalPolicies(lattice, ps, facts), Ceilings(lattice, ps);
      forall i | 0 <= i < |ps| ensures NoHigher(lattice, Effects(arms)[i], ceilings[i]) {
        GrantsUnderCeiling(lattice, ps[i], facts);
      }
      AllFolds(lattice, arms);
      MeetAllMonotone(lattice, Effects(arms), ceilings);
    case Any(ps) =>
      var arms, ceilings := EvalPolicies(lattice, ps, facts), Ceilings(lattice, ps);
      forall i | 0 <= i < |ps| ensures NoHigher(lattice, Effects(arms)[i], ceilings[i]) {
        GrantsUnderCeiling(lattice, ps[i], facts);
      }
      AnyFolds(lattice, arms);
      JoinAllMonotone(lattice, Effects(arms), ceilings);
    case OrElse(primary, fallback) =>
      var left, right := Ceiling(lattice, primary), Ceiling(lattice, fallback);
      GrantsUnderCeiling(lattice, primary, facts);
      GrantsUnderCeiling(lattice, fallback, facts);
      JoinEffectsAbove(lattice, left, right);
      var first := EvalPolicy(lattice, primary, facts).result.effect;
      var second := EvalPolicy(lattice, fallback, facts).result.effect;
      NoHigherTransitive(lattice, first, left, JoinEffects(lattice, left, right));
      NoHigherTransitive(lattice, second, right, JoinEffects(lattice, left, right));
  }

  // If the effect permits, it permits something not below `floor`'s outcome.
  ghost predicate NotUnder<O>(lattice: Lattice<O>, floor: Effect<O>, effect: Effect<O>) {
    effect.Permit? ==> floor.Permit? && Below(lattice, floor.outcome, effect.outcome)
  }

  lemma {:induction false} LeastIsUnder<O(!new)>(lattice: Lattice<O>, effects: seq<Effect<O>>)
    requires LatticeLaws(lattice)
    ensures forall i | 0 <= i < |effects| :: NotUnder(lattice, LeastOf(lattice, effects), effects[i])
  {
    if effects != [] {
      var n := |effects| - 1;
      var earlier, last, least := LeastOf(lattice, effects[..n]), effects[n], LeastOf(lattice, effects);
      LeastIsUnder(lattice, effects[..n]);
      EffectReflexive(lattice, last);
      if last.Permit? && earlier.Permit? {
        MeetIsBelow(lattice, earlier.outcome, last.outcome);
      }
      forall i | 0 <= i < n ensures NotUnder(lattice, least, effects[i]) {
        assert NotUnder(lattice, earlier, effects[..n][i]);
        if effects[i].Permit? && last.Permit? {
          BelowTransitive(lattice, least.outcome, earlier.outcome, effects[i].outcome);
        }
      }
    }
  }

  lemma NotUnderTransitive<O(!new)>(lattice: Lattice<O>, a: Effect<O>, b: Effect<O>, c: Effect<O>)
    requires LatticeLaws(lattice) && NotUnder(lattice, a, b) && NotUnder(lattice, b, c)
    ensures NotUnder(lattice, a, c)
  {
    if c.Permit? {
      BelowTransitive(lattice, a.outcome, b.outcome, c.outcome);
    }
  }

  lemma MeetKeepsFloors<O(!new)>(lattice: Lattice<O>, floors: seq<Effect<O>>, effects: seq<Effect<O>>)
    requires LatticeLaws(lattice) && |floors| == |effects|
    requires forall i | 0 <= i < |effects| :: NotUnder(lattice, floors[i], effects[i])
    ensures NotUnder(lattice, Settled(MeetAll(lattice, floors)), Settled(MeetAll(lattice, effects)))
  {
    if Settled(MeetAll(lattice, effects)).Permit? {
      forall i | 0 <= i < |effects| ensures effects[i].Permit? && floors[i].Permit? {
        if effects[i].Deny? {
          DenialAbsorbs(lattice, effects, i);
        }
        assert NotUnder(lattice, floors[i], effects[i]);
      }
      MeetAllBound(lattice, floors, lattice.bottom);
      var low := MeetAll(lattice, floors).value.outcome;
      BelowReflexive(lattice, low);
      MeetAllBound(lattice, floors, low);
      forall i | 0 <= i < |effects| ensures Below(lattice, low, effects[i].outcome) {
        assert NotUnder(lattice, floors[i], effects[i]);
        BelowTransitive(lattice, low, floors[i].outcome, effects[i].outcome);
      }
      MeetAllBound(lattice, effects, low);
    }
  }

  lemma JoinKeepsFloors<O(!new)>(lattice: Lattice<O>, floors: seq<Effect<O>>, effects: seq<Effect<O>>)
    requires LatticeLaws(lattice) && |floors| == |effects|
    requires forall i | 0 <= i < |effects| :: NotUnder(lattice, floors[i], effects[i])
    ensures NotUnder(lattice, LeastOf(lattice, floors), JoinAll(lattice, effects))
  {
    var top := JoinAll(lattice, effects);
    if top.Permit? {
      JoinAllDenies(lattice, effects);
      var k :| 0 <= k < |effects| && effects[k].Permit?;
      LeastIsUnder(lattice, floors);
      assert NotUnder(lattice, floors[k], effects[k]);
      NotUnderTransitive(lattice, LeastOf(lattice, floors), floors[k], effects[k]);
      BelowReflexive(lattice, top.outcome);
      JoinAllBound(lattice, effects, top.outcome);
      BelowTransitive(lattice, LeastOf(lattice, floors).outcome, effects[k].outcome, top.outcome);
    }
  }

  // Whatever the facts, a policy grants nothing below its floor.
  lemma {:induction false} GrantsOverFloor<O(!new)>(lattice: Lattice<O>, policy: Policy<O>, facts: KnownFacts)
    requires LatticeLaws(lattice)
    ensures NotUnder(lattice, Floor(lattice, policy), EvalPolicy(lattice, policy, facts).result.effect)
  {
    match policy
    case Permit(outcome) => BelowReflexive(lattice, outcome);
    case Deny =>
    case Grant(clause) => BelowReflexive(lattice, clause.outcome);
    case All(ps) =>
      var arms, floors := EvalPolicies(lattice, ps, facts), Floors(lattice, ps);
      forall i | 0 <= i < |ps| ensures NotUnder(lattice, floors[i], Effects(arms)[i]) {
        GrantsOverFloor(lattice, ps[i], facts);
      }
      AllFolds(lattice, arms);
      MeetKeepsFloors(lattice, floors, Effects(arms));
    case Any(ps) =>
      var arms, floors := EvalPolicies(lattice, ps, facts), Floors(lattice, ps);
      forall i | 0 <= i < |ps| ensures NotUnder(lattice, floors[i], Effects(arms)[i]) {
        GrantsOverFloor(lattice, ps[i], facts);
      }
      AnyFolds(lattice, arms);
      JoinKeepsFloors(lattice, floors, Effects(arms));
    case OrElse(primary, fallback) =>
      var floors := [Floor(lattice, primary), Floor(lattice, fallback)];
      GrantsOverFloor(lattice, primary, facts);
      GrantsOverFloor(lattice, fallback, facts);
      LeastIsUnder(lattice, floors);
      var first := EvalPolicy(lattice, primary, facts).result.effect;
      var second := EvalPolicy(lattice, fallback, facts).result.effect;
      assert NotUnder(lattice, LeastOf(lattice, floors), floors[0]);
      assert NotUnder(lattice, LeastOf(lattice, floors), floors[1]);
      NotUnderTransitive(lattice, LeastOf(lattice, floors), floors[0], first);
      NotUnderTransitive(lattice, LeastOf(lattice, floors), floors[1], second);
  }

  // ----- more facts -----

  ghost predicate MorePresent(fewer: KnownFacts, more: KnownFacts) {
    forall f | IsPresent(fewer, f) :: IsPresent(more, f)
  }

  // Everything a fallback can grant is below everything its primary can grant.
  ghost predicate FallbacksBelow<O>(lattice: Lattice<O>, policy: Policy<O>) {
    match policy
    case All(arms) => forall i | 0 <= i < |arms| :: FallbacksBelow(lattice, arms[i])
    case Any(arms) => forall i | 0 <= i < |arms| :: FallbacksBelow(lattice, arms[i])
    case OrElse(primary, fallback) =>
      && FallbacksBelow(lattice, primary) && FallbacksBelow(lattice, fallback)
      && var high, low := Ceiling(lattice, fallback), Floor(lattice, primary);
         high.Permit? && low.Permit? ==> Below(lattice, high.outcome, low.outcome)
    case _ => true
  }

  // For one fallback whose parts never drop, the outcome drops exactly when the primary starts to
  // permit and what it grants is not above what the fallback granted before.
  lemma OrElseDropsIff<O>(
      lattice: Lattice<O>, primary: Policy<O>, fallback: Policy<O>, fewer: KnownFacts, more: KnownFacts)
    requires NoHigher(
      lattice, EvalPolicy(lattice, primary, fewer).result.effect, EvalPolicy(lattice, primary, more).result.effect)
    requires NoHigher(
      lattice, EvalPolicy(lattice, fallback, fewer).result.effect, EvalPolicy(lattice, fallback, more).result.effect)
    ensures
      var before := EvalPolicy(lattice, primary, fewer).result.effect;
      var after := EvalPolicy(lattice, primary, more).result.effect;
      var granted := EvalPolicy(lattice, fallback, fewer).result.effect;
      var policy := Policy.OrElse(primary, fallback);
      !NoHigher(
        lattice, EvalPolicy(lattice, policy, fewer).result.effect, EvalPolicy(lattice, policy, more).result.effect)
      <==> before.Deny? && after.Permit? && granted.Permit? && !Below(lattice, granted.outcome, after.outcome)
  {
  }

  // Without negation, and with fallbacks below their primaries, more present facts never lower the
  // outcome.
  lemma {:induction false} MoreFactsNeverLower<O(!new)>(
      lattice: Lattice<O>, policy: Policy<O>, fewer: KnownFacts, more: KnownFacts)
    requires LatticeLaws(lattice)
    requires PolicyNegationFree(policy) && FallbacksBelow(lattice, policy)
    requires MorePresent(fewer, more)
    ensures NoHigher(
      lattice, EvalPolicy(lattice, policy, fewer).result.effect, EvalPolicy(lattice, policy, more).result.effect)
  {
    match policy
    case Permit(outcome) => BelowReflexive(lattice, outcome);
    case Deny =>
    case Grant(clause) =>
      BelowReflexive(lattice, clause.outcome);
      ReadingHolds(clause.condition, fewer);
      ReadingHolds(clause.condition, more);
      if Holds(clause.condition, fewer) {
        MoreFactsHold(clause.condition, fewer, more);
      }
    case All(ps) =>
      var low, high := EvalPolicies(lattice, ps, fewer), EvalPolicies(lattice, ps, more);
      forall i | 0 <= i < |ps| ensures NoHigher(lattice, Effects(low)[i], Effects(high)[i]) {
        MoreFactsNeverLower(lattice, ps[i], fewer, more);
      }
      AllFolds(lattice, low);
      AllFolds(lattice, high);
      MeetAllMonotone(lattice, Effects(low), Effects(high));
    case Any(ps) =>
      var low, high := EvalPolicies(lattice, ps, fewer), EvalPolicies(lattice, ps, more);
      forall i | 0 <= i < |ps| ensures NoHigher(lattice, Effects(low)[i], Effects(high)[i]) {
        MoreFactsNeverLower(lattice, ps[i], fewer, more);
      }
      AnyFolds(lattice, low);
      AnyFolds(lattice, high);
      JoinAllMonotone(lattice, Effects(low), Effects(high));
    case OrElse(primary, fallback) =>
      MoreFactsNeverLower(lattice, primary, fewer, more);
      MoreFactsNeverLower(lattice, fallback, fewer, more);
      OrElseDropsIff(lattice, primary, fallback, fewer, more);
      FallbackIsBelow(lattice, primary, fallback, fewer, more);
  }

  lemma FallbackIsBelow<O(!new)>(
      lattice: Lattice<O>, primary: Policy<O>, fallback: Policy<O>, fewer: KnownFacts, more: KnownFacts)
    requires LatticeLaws(lattice) && FallbacksBelow(lattice, Policy.OrElse(primary, fallback))
    ensures
      var after := EvalPolicy(lattice, primary, more).result.effect;
      var granted := EvalPolicy(lattice, fallback, fewer).result.effect;
      after.Permit? && granted.Permit? ==> Below(lattice, granted.outcome, after.outcome)
  {
    var after := EvalPolicy(lattice, primary, more).result.effect;
    var granted := EvalPolicy(lattice, fallback, fewer).result.effect;
    var high, low := Ceiling(lattice, fallback), Floor(lattice, primary);
    GrantsUnderCeiling(lattice, fallback, fewer);
    GrantsOverFloor(lattice, primary, more);
    if after.Permit? && granted.Permit? {
      BelowTransitive(lattice, granted.outcome, high.outcome, low.outcome);
      BelowTransitive(lattice, granted.outcome, low.outcome, after.outcome);
    }
  }

  function GrantOrConstant<O>(clause: Clause<O>, constant: O): Policy<O> {
    Policy.OrElse(Policy.Grant(clause), Policy.Permit(constant))
  }

  // With a fallback the outcome can drop: the primary's lower outcome replaces the fallback's.
  lemma FallbackCanLower<O(!new)>(lattice: Lattice<O>, clause: Clause<O>, constant: O, fact: FactId)
    requires clause.condition == Has(fact)
    ensures var policy := GrantOrConstant(clause, constant);
      && PolicyNegationFree(policy) && MorePresent(map[], map[fact := Present])
      && EvalPolicy(lattice, policy, map[]).result.effect == Effect.Permit(constant)
      && EvalPolicy(lattice, policy, map[fact := Present]).result.effect == Effect.Permit(clause.outcome)
  {
    assert PresenceOf(map[fact := Present], fact) == Present;
  }

  // A grant on one fact with a constant fallback never drops exactly when the constant is below it.
  lemma FallbackNeverLowersIff<O(!new)>(lattice: Lattice<O>, clause: Clause<O>, constant: O, fact: FactId)
    requires LatticeLaws(lattice) && clause.condition == Has(fact)
    ensures
      var policy := GrantOrConstant(clause, constant);
      (forall fewer: KnownFacts, more: KnownFacts | MorePresent(fewer, more) ::
         NoHigher(
           lattice, EvalPolicy(lattice, policy, fewer).result.effect, EvalPolicy(lattice, policy, more).result.effect))
      <==> Below(lattice, constant, clause.outcome)
  {
    var policy := GrantOrConstant(clause, constant);
    if Below(lattice, constant, clause.outcome) {
      forall fewer: KnownFacts, more: KnownFacts | MorePresent(fewer, more)
        ensures NoHigher(
          lattice, EvalPolicy(lattice, policy, fewer).result.effect, EvalPolicy(lattice, policy, more).result.effect)
      {
        MoreFactsNeverLower(lattice, policy, fewer, more);
      }
    } else {
      FallbackCanLower(lattice, clause, constant, fact);
    }
  }
}
