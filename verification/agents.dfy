/** The first predator-prey variant (assignment2/agents.py): a `Predator`
    with a 30-tick feeding cooldown, a `PredatorWithEnergy` that also keeps
    an energy ledger, and a `Prey` that only reproduces at random.

    Energy is held in quarter units, so 100 units is 400 and the per-tick
    decrement of 0.25 is exactly 1.
 */
module Agents {
  import opened Common

  const PredatorCooldown: nat := 30
  const PredatorReproduceChance: real := 0.374
  const PredatorDeathChance: real := 0.0088

  const EnergyCooldown: nat := 20
  const EnergyReproduceChance: real := 0.01
  /** 100 energy units, in quarters. */
  const MaxEnergy: int := 400
  /** 30 energy units, in quarters. */
  const EnergyGain: int := 120

  const PreyReproduceChance: real := 0.008

  const SpeedFloor: real := 0.7
  /** Speed is energy / 75; with energy in quarters that is energy / 300. */
  const SpeedScale: real := 300.0

  datatype Kind = Prey | Predator | PredatorWithEnergy

  type Neighbours = seq<Neighbour<Kind>>

  datatype PredatorState = PredatorState(ate: Option<int>)

  datatype EnergyState = EnergyState(ate: Option<int>, energy: int)

  /** A freshly spawned predator with energy: may eat, full energy. */
  const Newborn: EnergyState := EnergyState(None, MaxEnergy)

  /** A neighbour a predator may eat: a prey within eating distance. */
  predicate Edible(n: Neighbour<Kind>) {
    n.kind == Prey && n.distance <= EatDistance
  }

  /** The first edible neighbour at or after position `i`, if any. */
  function FirstEdible(nbrs: Neighbours, i: nat): (r: Option<nat>)
    requires i <= |nbrs|
    ensures r.Some? ==> i <= r.value < |nbrs| && Edible(nbrs[r.value])
    ensures r.Some? ==> forall k :: i <= k < r.value ==> !Edible(nbrs[k])
    ensures r.None? ==> forall k :: i <= k < |nbrs| ==> !Edible(nbrs[k])
    decreases |nbrs| - i
  {
    if i == |nbrs| then None
    else if Edible(nbrs[i]) then Some(i)
    else FirstEdible(nbrs, i + 1)
  }

  /** The effects of eating neighbour `j`: kill it, then reproduce when the
      draw falls below the reproduction chance. */
  function Meal(j: nat, draw: real, chance: real): seq<Effect> {
    [KillNeighbour(j)] + (if draw < chance then [Reproduce] else [])
  }

  datatype Feed = Feed(ate: Option<int>, effects: seq<Effect>)

  /** The neighbour loop of both predators, from position `i` on. Every meal
      sets the marker to the (non-negative) counter, which closes the
      `ate < 0` guard for the rest of the loop: the loop eats the first
      edible neighbour if the marker allows it, and nothing else. */
  function EatLoop(nbrs: Neighbours, i: nat, counter: nat, ate: Option<int>,
                   repDraws: seq<real>, chance: real): (r: Feed)
    requires i <= |nbrs| == |repDraws|
    ensures MayEat(ate) && FirstEdible(nbrs, i).Some? ==>
              var j := FirstEdible(nbrs, i).value;
              r == Feed(Some(counter), Meal(j, repDraws[j], chance))
    ensures !(MayEat(ate) && FirstEdible(nbrs, i).Some?) ==> r == Feed(ate, [])
    decreases |nbrs| - i
  {
    if i == |nbrs| then Feed(ate, [])
    else if nbrs[i].distance <= EatDistance && nbrs[i].kind == Prey && MayEat(ate) then
      var rest := EatLoop(nbrs, i + 1, counter, Some(counter), repDraws, chance);
      Feed(rest.ate, Meal(i, repDraws[i], chance) + rest.effects)
    else
      EatLoop(nbrs, i + 1, counter, ate, repDraws, chance)
  }

  /** What the whole neighbour loop kills and whether it reproduces. */
  lemma MealsOfLoop(nbrs: Neighbours, counter: nat, ate: Option<int>, repDraws: seq<real>, chance: real)
    requires |nbrs| == |repDraws|
    ensures var r := EatLoop(nbrs, 0, counter, ate, repDraws, chance);
            KilledIndices(r.effects) == if MayEat(ate) && FirstEdible(nbrs, 0).Some? then [FirstEdible(nbrs, 0).value] else []
    ensures var r := EatLoop(nbrs, 0, counter, ate, repDraws, chance);
            Reproduce in r.effects <==> MayEat(ate) && FirstEdible(nbrs, 0).Some? && repDraws[FirstEdible(nbrs, 0).value] < chance
    ensures var r := EatLoop(nbrs, 0, counter, ate, repDraws, chance);
            NewAgents(r.effects) == if MayEat(ate) && FirstEdible(nbrs, 0).Some? && repDraws[FirstEdible(nbrs, 0).value] < chance then 1 else 0
    ensures KillSelf !in EatLoop(nbrs, 0, counter, ate, repDraws, chance).effects
  {
    if MayEat(ate) && FirstEdible(nbrs, 0).Some? {
      var j := FirstEdible(nbrs, 0).value;
      var tail := if repDraws[j] < chance then [Reproduce] else [];
      KilledIndicesAppend([KillNeighbour(j)], tail);
      NewAgentsAppend([KillNeighbour(j)], tail);
      assert KilledIndices([KillNeighbour(j)]) == [j];
      assert NewAgents([KillNeighbour(j)]) == 0;
      assert NewAgents(tail) == if repDraws[j] < chance then 1 else 0;
    } else {
      assert EatLoop(nbrs, 0, counter, ate, repDraws, chance).effects == [];
    }
  }

  /** The neighbour an update at `counter` eats, if any: on an action tick
      whose expired-or-not marker allows eating, the first edible
      neighbour; otherwise none. */
  function Target(ate: Option<int>, window: nat, counter: nat, nbrs: Neighbours): Option<nat> {
    if IsActionTick(counter) && MayEat(Expire(ate, counter, window)) then FirstEdible(nbrs, 0) else None
  }

  /** `Predator.update`: on an action tick, clear an expired marker, eat at
      most one prey in reach, then die at random. */
  function PredatorStep(s: PredatorState, counter: nat, nbrs: Neighbours, draws: Draws): (r: Outcome<PredatorState>)
    requires |draws.reproduce| == |nbrs|
    ensures !IsActionTick(counter) ==> r == Outcome(s, [])
    ensures var t := Target(s.ate, PredatorCooldown, counter, nbrs);
            KilledIndices(r.effects) == if t.Some? then [t.value] else []
    ensures var t := Target(s.ate, PredatorCooldown, counter, nbrs);
            Reproduce in r.effects <==> t.Some? && draws.reproduce[t.value] < PredatorReproduceChance
    ensures var t := Target(s.ate, PredatorCooldown, counter, nbrs);
            NewAgents(r.effects) == if t.Some? && draws.reproduce[t.value] < PredatorReproduceChance then 1 else 0
    ensures IsActionTick(counter) ==>
              r.state.ate == if Target(s.ate, PredatorCooldown, counter, nbrs).Some? then Some(counter)
                             else Expire(s.ate, counter, PredatorCooldown)
    ensures KillSelf in r.effects <==> IsActionTick(counter) && draws.death < PredatorDeathChance
    ensures FeedingEffects(r.effects)
  {
    if !IsActionTick(counter) then Outcome(s, [])
    else
      var ate := Expire(s.ate, counter, PredatorCooldown);
      var feed := EatLoop(nbrs, 0, counter, ate, draws.reproduce, PredatorReproduceChance);
      var death := if draws.death < PredatorDeathChance then [KillSelf] else [];
      KilledIndicesAppend(feed.effects, death);
      NewAgentsAppend(feed.effects, death);
      assert NewAgents(death) == 0;
      MealsOfLoop(nbrs, counter, ate, draws.reproduce, PredatorReproduceChance);
      Outcome(PredatorState(feed.ate), feed.effects + death)
  }

  /** A `Predator` kills at most one neighbour per update, and only a prey
      within eating distance. */
  lemma PredatorEatsOnlyPreyInReach(s: PredatorState, counter: nat, nbrs: Neighbours, draws: Draws)
    requires |draws.reproduce| == |nbrs|
    ensures var eaten := KilledIndices(PredatorStep(s, counter, nbrs, draws).effects);
            |eaten| <= 1 && forall j :: j in eaten ==> j < |nbrs| && Edible(nbrs[j])
  {
  }

  /** One energy refill: `min(100, energy + 30)`. */
  function Refill(energy: int): (r: int)
    ensures r <= MaxEnergy
    ensures r <= energy + EnergyGain
    ensures r == energy + EnergyGain || r == MaxEnergy
  {
    Min(MaxEnergy, energy + EnergyGain)
  }

  /** `meals` refills in a row; the energy loop refills once per prey eaten. */
  function RefillTimes(energy: int, meals: nat): int
    decreases meals
  {
    if meals == 0 then energy else RefillTimes(Refill(energy), meals - 1)
  }

  /** `PredatorWithEnergy.update`. On an action tick the energy drops by a
      quarter and the predator kills itself when it hits exactly zero; the
      update then carries on: it may still eat (20-tick cooldown), refill
      its energy, reproduce, and draw against `deathChance` of the energy it
      ends with. `deathChance` stands for the exponential death curve. */
  function EnergyStep(s: EnergyState, counter: nat, nbrs: Neighbours, draws: Draws,
                      deathChance: int -> real): (r: Outcome<EnergyState>)
    requires |draws.reproduce| == |nbrs|
    ensures !IsActionTick(counter) ==> r == Outcome(s, [])
    ensures s.energy <= MaxEnergy ==> r.state.energy <= MaxEnergy
    ensures var t := Target(s.ate, EnergyCooldown, counter, nbrs);
            KilledIndices(r.effects) == if t.Some? then [t.value] else []
  {
    if !IsActionTick(counter) then Outcome(s, [])
    else
      var energy := s.energy - 1;
      var starved := if energy == 0 then [KillSelf] else [];
      var ate := Expire(s.ate, counter, EnergyCooldown);
      var feed := EatLoop(nbrs, 0, counter, ate, draws.reproduce, EnergyReproduceChance);
      var fed := RefillTimes(energy, |KilledIndices(feed.effects)|);
      var death := if draws.death < deathChance(fed) then [KillSelf] else [];
      KilledIndicesAppend(starved, feed.effects);
      KilledIndicesAppend(starved + feed.effects, death);
      MealsOfLoop(nbrs, counter, ate, draws.reproduce, EnergyReproduceChance);
      Outcome(EnergyState(feed.ate, fed), starved + feed.effects + death)
  }

  /** The rest of an action tick of `PredatorWithEnergy`: a quarter unit is
      spent and 30 units (capped at 100) are regained if a prey is eaten;
      the marker moves to the current tick exactly when a prey is eaten;
      reproduction needs a meal and a successful draw; and the predator
      kills itself when its energy hits exactly zero (first of all its
      effects) or when the death draw falls below the death chance of the
      energy it ends with. */
  lemma EnergyBookkeeping(s: EnergyState, counter: nat, nbrs: Neighbours, draws: Draws,
                          deathChance: int -> real)
    requires IsActionTick(counter)
    requires |draws.reproduce| == |nbrs|
    ensures var r := EnergyStep(s, counter, nbrs, draws, deathChance);
            var t := Target(s.ate, EnergyCooldown, counter, nbrs);
            r.state.energy == if t.Some? then Min(MaxEnergy, s.energy - 1 + EnergyGain) else s.energy - 1
    ensures var r := EnergyStep(s, counter, nbrs, draws, deathChance);
            var t := Target(s.ate, EnergyCooldown, counter, nbrs);
            r.state.ate == if t.Some? then Some(counter) else Expire(s.ate, counter, EnergyCooldown)
    ensures var r := EnergyStep(s, counter, nbrs, draws, deathChance);
            var t := Target(s.ate, EnergyCooldown, counter, nbrs);
            Reproduce in r.effects <==> t.Some? && draws.reproduce[t.value] < EnergyReproduceChance
    ensures var r := EnergyStep(s, counter, nbrs, draws, deathChance);
            KillSelf in r.effects <==> s.energy == 1 || draws.death < deathChance(r.state.energy)
    ensures var r := EnergyStep(s, counter, nbrs, draws, deathChance);
            s.energy == 1 ==> |r.effects| > 0 && r.effects[0] == KillSelf
  {
    var ate := Expire(s.ate, counter, EnergyCooldown);
    MealsOfLoop(nbrs, counter, ate, draws.reproduce, EnergyReproduceChance);
  }

  /** An action tick of `PredatorWithEnergy` creates exactly one offspring
      after a meal whose draw succeeds, and none otherwise. */
  lemma EnergyOffspring(s: EnergyState, counter: nat, nbrs: Neighbours, draws: Draws,
                        deathChance: int -> real)
    requires IsActionTick(counter)
    requires |draws.reproduce| == |nbrs|
    ensures var r := EnergyStep(s, counter, nbrs, draws, deathChance);
            var t := Target(s.ate, EnergyCooldown, counter, nbrs);
            NewAgents(r.effects) == if t.Some? && draws.reproduce[t.value] < EnergyReproduceChance then 1 else 0
  {
    var ate := Expire(s.ate, counter, EnergyCooldown);
    MealsOfLoop(nbrs, counter, ate, draws.reproduce, EnergyReproduceChance);
    var feed := EatLoop(nbrs, 0, counter, ate, draws.reproduce, EnergyReproduceChance);
    var starved := if s.energy - 1 == 0 then [KillSelf] else [];
    var fed := RefillTimes(s.energy - 1, |KilledIndices(feed.effects)|);
    var death := if draws.death < deathChance(fed) then [KillSelf] else [];
    assert EnergyStep(s, counter, nbrs, draws, deathChance).effects == starved + feed.effects + death;
    NewAgentsAppend(starved, feed.effects);
    NewAgentsAppend(starved + feed.effects, death);
    assert NewAgents(starved) == 0 && NewAgents(death) == 0;
  }

  /** A `PredatorWithEnergy` asks for nothing but kills, offspring and its
      own death: it never freezes and never batch-spawns. */
  lemma EnergyEffectKinds(s: EnergyState, counter: nat, nbrs: Neighbours, draws: Draws,
                          deathChance: int -> real)
    requires |draws.reproduce| == |nbrs|
    ensures FeedingEffects(EnergyStep(s, counter, nbrs, draws, deathChance).effects)
  {
  }

  /** A `PredatorWithEnergy` also kills at most one neighbour per update,
      and only a prey within eating distance. */
  lemma EnergyEatsOnlyPreyInReach(s: EnergyState, counter: nat, nbrs: Neighbours, draws: Draws,
                                  deathChance: int -> real)
    requires |draws.reproduce| == |nbrs|
    ensures var eaten := KilledIndices(EnergyStep(s, counter, nbrs, draws, deathChance).effects);
            |eaten| <= 1 && forall j :: j in eaten ==> j < |nbrs| && Edible(nbrs[j])
  {
  }

  /** `PredatorWithEnergy.change_position`'s speed: `max(0.7, energy / 75)`. */
  function Speed(energy: int): (r: real)
    ensures r >= SpeedFloor
    ensures r >= energy as real / SpeedScale
    ensures r == SpeedFloor || r == energy as real / SpeedScale
  {
    var scaled := energy as real / SpeedScale;
    if SpeedFloor >= scaled then SpeedFloor else scaled
  }

  /** At 52.5 energy units (210 quarters) and above the floor no longer
      matters: speed is energy / 75. Speed never falls as energy rises. */
  lemma SpeedAboveThreshold(energy: int, more: int)
    requires 210 <= energy
    requires energy <= more
    ensures Speed(energy) == energy as real / SpeedScale
    ensures Speed(energy) <= Speed(more)
  {
  }

  /** `PredatorWithEnergy._get_closest_target`: the nearest prey, at any
      distance, with the earlier one winning a tie (the scan only replaces
      its candidate on a strictly smaller distance). */
  method ClosestTarget(nbrs: Neighbours) returns (r: Option<nat>)
    ensures r.None? <==> forall k :: 0 <= k < |nbrs| ==> nbrs[k].kind != Prey
    ensures r.Some? ==> r.value < |nbrs| && nbrs[r.value].kind == Prey
    ensures r.Some? ==> forall k :: 0 <= k < |nbrs| && nbrs[k].kind == Prey ==>
                          nbrs[r.value].distance <= nbrs[k].distance
    ensures r.Some? ==> forall k :: 0 <= k < r.value && nbrs[k].kind == Prey ==>
                          nbrs[r.value].distance < nbrs[k].distance
  {
    r := None;
    var i := 0;
    while i < |nbrs|
      invariant 0 <= i <= |nbrs|
      invariant r.None? <==> forall k :: 0 <= k < i ==> nbrs[k].kind != Prey
      invariant r.Some? ==> r.value < i && nbrs[r.value].kind == Prey
      invariant r.Some? ==> forall k :: 0 <= k < i && nbrs[k].kind == Prey ==>
                              nbrs[r.value].distance <= nbrs[k].distance
      invariant r.Some? ==> forall k :: 0 <= k < r.value && nbrs[k].kind == Prey ==>
                              nbrs[r.value].distance < nbrs[k].distance
    {
      if nbrs[i].kind == Prey && (r.None? || nbrs[i].distance < nbrs[r.value].distance) {
        r := Some(i);
      }
      i := i + 1;
    }
  }

  /** `Prey.update`: reproduce at random, on action ticks only. */
  function PreyStep(counter: nat, draw: real): (r: seq<Effect>)
    ensures Reproduce in r <==> IsActionTick(counter) && draw < PreyReproduceChance
    ensures NewAgents(r) == if IsActionTick(counter) && draw < PreyReproduceChance then 1 else 0
    ensures forall e :: e in r ==> e == Reproduce
  {
    if IsActionTick(counter) && draw < PreyReproduceChance then
      var r := [Reproduce];
      assert r[1..] == [];
      r
    else []
  }

  /** After a meal at action tick `t`, a `Predator` eats nothing and keeps
      its marker at every action tick up to t+30; the marker is cleared, and
      the first edible neighbour is eaten again, from the action tick t+36. */
  lemma PredatorCooldownWindow(t: nat, c: nat, nbrs: Neighbours, draws: Draws)
    requires IsActionTick(t) && IsActionTick(c) && t < c
    requires |draws.reproduce| == |nbrs|
    ensures var r := PredatorStep(PredatorState(Some(t)), c, nbrs, draws);
            c < t + 36 ==> KilledIndices(r.effects) == [] && r.state.ate == Some(t)
    ensures var r := PredatorStep(PredatorState(Some(t)), c, nbrs, draws);
            c >= t + 36 ==> KilledIndices(r.effects) == if FirstEdible(nbrs, 0).Some? then [FirstEdible(nbrs, 0).value] else []
  {
    CooldownClearsAt(t, c, PredatorCooldown);
    assert FirstActionTickAfter(t + PredatorCooldown) == t + 36;
  }

  /** The same for `PredatorWithEnergy`, whose window is 20 ticks: the
      earliest action tick at which it eats again is t+24. */
  lemma EnergyCooldownWindow(t: nat, c: nat, s: EnergyState, nbrs: Neighbours, draws: Draws,
                             deathChance: int -> real)
    requires IsActionTick(t) && IsActionTick(c) && t < c
    requires s.ate == Some(t)
    requires |draws.reproduce| == |nbrs|
    ensures var r := EnergyStep(s, c, nbrs, draws, deathChance);
            c < t + 24 ==> KilledIndices(r.effects) == [] && r.state.ate == Some(t)
    ensures var r := EnergyStep(s, c, nbrs, draws, deathChance);
            c >= t + 24 ==> KilledIndices(r.effects) == if FirstEdible(nbrs, 0).Some? then [FirstEdible(nbrs, 0).value] else []
  {
    CooldownClearsAt(t, c, EnergyCooldown);
    assert FirstActionTickAfter(t + EnergyCooldown) == t + 24;
    EnergyBookkeeping(s, c, nbrs, draws, deathChance);
  }
}
