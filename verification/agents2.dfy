/** The second predator-prey-grass variant (assignment2/agents2.py). Its
    `Predator` and `Prey` share one feeding rule and differ only in what
    they eat: a predator eats prey, a prey eats grass. `Grass` never moves
    and multiplies at random.

    In this variant the feeding marker is set only when the reproduction
    draw after a meal succeeds, so a meal whose draw fails leaves the
    forager hungry and it can eat again further down the same proximity
    list. Velocity is reset to 1 by every meal and lowered by 0.01 for
    every neighbour that is not eaten.
 */
module Agents2 {
  import opened Common

  /** Both foragers clear their marker 45 ticks after it was set. */
  const ForagerCooldown: nat := 45
  const ForagerReproduceChance: real := 0.5
  const ForagerDeathChance: real := 0.01
  const VelocityStep: real := 0.01

  const GrassReproduceChance: real := 0.0072
  /** Grass that multiplies also batch-spawns this many extra grass agents. */
  const GrassBatch: nat := 2

  datatype Kind = Predator | Prey | Grass

  type Neighbours = seq<Neighbour<Kind>>

  datatype ForagerState = ForagerState(ate: Option<int>, velocity: real)

  /** A neighbour of the kind `food` within eating distance. */
  predicate InReach(n: Neighbour<Kind>, food: Kind) {
    n.distance <= EatDistance && n.kind == food
  }

  /** No food in reach between positions `i` (inclusive) and `j` (exclusive)
      came with a successful reproduction draw, so a forager that may eat at
      `i` still may at `j`. */
  predicate StillHungry(nbrs: Neighbours, food: Kind, repDraws: seq<real>, i: nat, j: nat)
    requires j <= |nbrs| == |repDraws|
  {
    forall k :: i <= k < j && InReach(nbrs[k], food) ==> repDraws[k] >= ForagerReproduceChance
  }

  /** Some food in reach from position `i` on came with a successful draw. */
  predicate Sated(nbrs: Neighbours, food: Kind, repDraws: seq<real>, i: nat)
    requires i <= |nbrs| == |repDraws|
  {
    exists k :: i <= k < |nbrs| && InReach(nbrs[k], food) && repDraws[k] < ForagerReproduceChance
  }

  /** The food a forager takes from position `i` on when it may eat at
      `i`: each food in reach in turn, up to and including the first one
      whose reproduction draw succeeds (that draw sets the marker). */
  function Eaten(nbrs: Neighbours, food: Kind, repDraws: seq<real>, i: nat): seq<nat>
    requires i <= |nbrs| == |repDraws|
    decreases |nbrs| - i
  {
    if i == |nbrs| then []
    else if InReach(nbrs[i], food) then
      if repDraws[i] < ForagerReproduceChance then [i] else [i] + Eaten(nbrs, food, repDraws, i + 1)
    else Eaten(nbrs, food, repDraws, i + 1)
  }

  /** A neighbour is eaten exactly when it is food in reach and no earlier
      food in reach came with a successful draw. */
  lemma {:induction false} EatenMembers(nbrs: Neighbours, food: Kind, repDraws: seq<real>, i: nat)
    requires i <= |nbrs| == |repDraws|
    ensures forall j :: j in Eaten(nbrs, food, repDraws, i) <==>
              i <= j < |nbrs| && InReach(nbrs[j], food) && StillHungry(nbrs, food, repDraws, i, j)
    decreases |nbrs| - i
  {
    if i < |nbrs| {
      EatenMembers(nbrs, food, repDraws, i + 1);
      if InReach(nbrs[i], food) && repDraws[i] < ForagerReproduceChance {
        forall j | i < j < |nbrs|
          ensures !StillHungry(nbrs, food, repDraws, i, j)
        {
          assert InReach(nbrs[i], food);
        }
      } else {
        forall j | i < j <= |nbrs|
          ensures StillHungry(nbrs, food, repDraws, i, j) == StillHungry(nbrs, food, repDraws, i + 1, j)
        {
        }
      }
    }
  }

  datatype Forage = Forage(ate: Option<int>, velocity: real, effects: seq<Effect>)

  /** The neighbour loop of both foragers, from position `i` on. What it
      kills, when it reproduces and where its velocity ends are stated by
      the three lemmas after it. */
  function ForageLoop(nbrs: Neighbours, food: Kind, i: nat, counter: nat, ate: Option<int>,
                      velocity: real, repDraws: seq<real>): (r: Forage)
    requires i <= |nbrs| == |repDraws|
    ensures FeedingEffects(r.effects) && KillSelf !in r.effects
    decreases |nbrs| - i
  {
    if i == |nbrs| then Forage(ate, velocity, [])
    else if nbrs[i].distance <= EatDistance && nbrs[i].kind == food && MayEat(ate) then
      if repDraws[i] < ForagerReproduceChance then
        var rest := ForageLoop(nbrs, food, i + 1, counter, Some(counter), 1.0, repDraws);
        Forage(rest.ate, rest.velocity, [KillNeighbour(i), Reproduce] + rest.effects)
      else
        var rest := ForageLoop(nbrs, food, i + 1, counter, ate, 1.0, repDraws);
        Forage(rest.ate, rest.velocity, [KillNeighbour(i)] + rest.effects)
    else
      ForageLoop(nbrs, food, i + 1, counter, ate, velocity - VelocityStep, repDraws)
  }

  /** The loop kills what `Eaten` lists when the marker allows eating, and
      nothing otherwise. */
  lemma {:induction false} ForageKills(nbrs: Neighbours, food: Kind, i: nat, counter: nat, ate: Option<int>,
                                       velocity: real, repDraws: seq<real>)
    requires i <= |nbrs| == |repDraws|
    ensures KilledIndices(ForageLoop(nbrs, food, i, counter, ate, velocity, repDraws).effects) ==
            if MayEat(ate) then Eaten(nbrs, food, repDraws, i) else []
    decreases |nbrs| - i
  {
    if i < |nbrs| {
      if InReach(nbrs[i], food) && MayEat(ate) {
        var success := repDraws[i] < ForagerReproduceChance;
        var ate' := if success then Some(counter) else ate;
        var meal := if success then [KillNeighbour(i), Reproduce] else [KillNeighbour(i)];
        var rest := ForageLoop(nbrs, food, i + 1, counter, ate', 1.0, repDraws);
        assert ForageLoop(nbrs, food, i, counter, ate, velocity, repDraws).effects == meal + rest.effects;
        ForageKills(nbrs, food, i + 1, counter, ate', 1.0, repDraws);
        KilledIndicesAppend(meal, rest.effects);
        assert KilledIndices(meal) == [i];
      } else {
        ForageKills(nbrs, food, i + 1, counter, ate, velocity - VelocityStep, repDraws);
      }
    }
  }

  /** The loop reproduces exactly when it is allowed to eat and meets food in
      reach with a successful draw; only then does it set the marker, to the
      current tick. */
  lemma {:induction false} ForageSated(nbrs: Neighbours, food: Kind, i: nat, counter: nat, ate: Option<int>,
                                       velocity: real, repDraws: seq<real>)
    requires i <= |nbrs| == |repDraws|
    ensures var r := ForageLoop(nbrs, food, i, counter, ate, velocity, repDraws);
            Reproduce in r.effects <==> MayEat(ate) && Sated(nbrs, food, repDraws, i)
    ensures var r := ForageLoop(nbrs, food, i, counter, ate, velocity, repDraws);
            r.ate == if Reproduce in r.effects then Some(counter) else ate
    decreases |nbrs| - i
  {
    if i < |nbrs| {
      if InReach(nbrs[i], food) && MayEat(ate) {
        if repDraws[i] < ForagerReproduceChance {
          ForageSated(nbrs, food, i + 1, counter, Some(counter), 1.0, repDraws);
        } else {
          ForageSated(nbrs, food, i + 1, counter, ate, 1.0, repDraws);
          assert Sated(nbrs, food, repDraws, i) == Sated(nbrs, food, repDraws, i + 1);
        }
      } else {
        ForageSated(nbrs, food, i + 1, counter, ate, velocity - VelocityStep, repDraws);
        assert MayEat(ate) ==> Sated(nbrs, food, repDraws, i) == Sated(nbrs, food, repDraws, i + 1);
      }
    }
  }

  /** The loop creates at most one offspring: the successful draw that sets
      the marker to the (non-negative) counter also closes the `ate < 0`
      guard, so no later neighbour is eaten or reproduces on. */
  lemma {:induction false} ForageOffspring(nbrs: Neighbours, food: Kind, i: nat, counter: nat, ate: Option<int>,
                                           velocity: real, repDraws: seq<real>)
    requires i <= |nbrs| == |repDraws|
    ensures var r := ForageLoop(nbrs, food, i, counter, ate, velocity, repDraws);
            NewAgents(r.effects) == if MayEat(ate) && Sated(nbrs, food, repDraws, i) then 1 else 0
    decreases |nbrs| - i
  {
    ForageSated(nbrs, food, i, counter, ate, velocity, repDraws);
    if i < |nbrs| {
      if InReach(nbrs[i], food) && MayEat(ate) {
        if repDraws[i] < ForagerReproduceChance {
          var rest := ForageLoop(nbrs, food, i + 1, counter, Some(counter), 1.0, repDraws);
          ForageOffspring(nbrs, food, i + 1, counter, Some(counter), 1.0, repDraws);
          NewAgentsAppend([KillNeighbour(i), Reproduce], rest.effects);
          assert NewAgents([KillNeighbour(i), Reproduce]) == 1 by {
            assert [KillNeighbour(i), Reproduce][1..][1..] == [];
          }
        } else {
          var rest := ForageLoop(nbrs, food, i + 1, counter, ate, 1.0, repDraws);
          ForageOffspring(nbrs, food, i + 1, counter, ate, 1.0, repDraws);
          NewAgentsAppend([KillNeighbour(i)], rest.effects);
          assert NewAgents([KillNeighbour(i)]) == 0;
          assert Sated(nbrs, food, repDraws, i) == Sated(nbrs, food, repDraws, i + 1);
        }
      } else {
        ForageOffspring(nbrs, food, i + 1, counter, ate, velocity - VelocityStep, repDraws);
        assert MayEat(ate) ==> Sated(nbrs, food, repDraws, i) == Sated(nbrs, food, repDraws, i + 1);
      }
    }
  }

  /** Velocity after the loop: 1 minus 0.01 for every neighbour after the
      last meal, or, without a meal, the old velocity minus 0.01 for every
      neighbour visited. */
  lemma {:induction false} ForageVelocity(nbrs: Neighbours, food: Kind, i: nat, counter: nat, ate: Option<int>,
                                          velocity: real, repDraws: seq<real>)
    requires i <= |nbrs| == |repDraws|
    ensures !MayEat(ate) || Eaten(nbrs, food, repDraws, i) == [] ==>
              ForageLoop(nbrs, food, i, counter, ate, velocity, repDraws).velocity
              == velocity - (|nbrs| - i) as real * VelocityStep
    ensures var eaten := Eaten(nbrs, food, repDraws, i);
            MayEat(ate) && eaten != [] ==>
              ForageLoop(nbrs, food, i, counter, ate, velocity, repDraws).velocity
              == 1.0 - (|nbrs| - 1 - eaten[|eaten| - 1]) as real * VelocityStep
    decreases |nbrs| - i
  {
    if i < |nbrs| {
      var n := |nbrs|;
      if InReach(nbrs[i], food) && MayEat(ate) {
        if repDraws[i] < ForagerReproduceChance {
          ForageVelocity(nbrs, food, i + 1, counter, Some(counter), 1.0, repDraws);
          assert ForageLoop(nbrs, food, i, counter, ate, velocity, repDraws).velocity
              == ForageLoop(nbrs, food, i + 1, counter, Some(counter), 1.0, repDraws).velocity;
          assert Eaten(nbrs, food, repDraws, i) == [i];
        } else {
          ForageVelocity(nbrs, food, i + 1, counter, ate, 1.0, repDraws);
          assert ForageLoop(nbrs, food, i, counter, ate, velocity, repDraws).velocity
              == ForageLoop(nbrs, food, i + 1, counter, ate, 1.0, repDraws).velocity;
          var later := Eaten(nbrs, food, repDraws, i + 1);
          var eaten := [i] + later;
          assert Eaten(nbrs, food, repDraws, i) == eaten;
          assert eaten[|eaten| - 1] == if later == [] then i else later[|later| - 1];
        }
      } else {
        var v := velocity - VelocityStep;
        ForageVelocity(nbrs, food, i + 1, counter, ate, v, repDraws);
        assert ForageLoop(nbrs, food, i, counter, ate, velocity, repDraws).velocity
            == ForageLoop(nbrs, food, i + 1, counter, ate, v, repDraws).velocity;
        assert MayEat(ate) ==> Eaten(nbrs, food, repDraws, i) == Eaten(nbrs, food, repDraws, i + 1);
        assert v - (n - (i + 1)) as real * VelocityStep == velocity - (n - i) as real * VelocityStep;
      }
    }
  }

  /** Whether an update at `counter` may eat at all: an action tick whose
      marker, once expired, allows eating. */
  predicate Hungry(ate: Option<int>, counter: nat) {
    IsActionTick(counter) && MayEat(Expire(ate, counter, ForagerCooldown))
  }

  /** `Predator.update` and `Prey.update` of this variant, for a forager
      eating `food`: on an action tick, clear an expired marker, run the
      neighbour loop, then die at random. */
  function ForagerStep(food: Kind, s: ForagerState, counter: nat, nbrs: Neighbours, draws: Draws): (r: Outcome<ForagerState>)
    requires |draws.reproduce| == |nbrs|
    ensures !IsActionTick(counter) ==> r == Outcome(s, [])
    ensures KilledIndices(r.effects) ==
            if Hungry(s.ate, counter) then Eaten(nbrs, food, draws.reproduce, 0) else []
    ensures KillSelf in r.effects <==> IsActionTick(counter) && draws.death < ForagerDeathChance
    ensures FeedingEffects(r.effects)
  {
    if !IsActionTick(counter) then Outcome(s, [])
    else
      var ate := Expire(s.ate, counter, ForagerCooldown);
      var forage := ForageLoop(nbrs, food, 0, counter, ate, s.velocity, draws.reproduce);
      var death := if draws.death < ForagerDeathChance then [KillSelf] else [];
      KilledIndicesAppend(forage.effects, death);
      ForageKills(nbrs, food, 0, counter, ate, s.velocity, draws.reproduce);
      Outcome(ForagerState(forage.ate, forage.velocity), forage.effects + death)
  }

  /** The bookkeeping of a forager's action tick: it reproduces exactly when
      some food in reach comes with a successful draw while it may eat, and
      only then moves its marker to the current tick; its velocity ends at
      1 minus 0.01 per neighbour after the last meal, or at the old velocity
      minus 0.01 per neighbour when nothing is eaten. */
  lemma ForagerBookkeeping(food: Kind, s: ForagerState, counter: nat, nbrs: Neighbours, draws: Draws)
    requires IsActionTick(counter)
    requires |draws.reproduce| == |nbrs|
    ensures var r := ForagerStep(food, s, counter, nbrs, draws);
            Reproduce in r.effects <==> Hungry(s.ate, counter) && Sated(nbrs, food, draws.reproduce, 0)
    ensures var r := ForagerStep(food, s, counter, nbrs, draws);
            r.state.ate == if Reproduce in r.effects then Some(counter) else Expire(s.ate, counter, ForagerCooldown)
    ensures var r := ForagerStep(food, s, counter, nbrs, draws);
            var eaten := KilledIndices(r.effects);
            r.state.velocity == if eaten == [] then s.velocity - |nbrs| as real * VelocityStep
                                else 1.0 - (|nbrs| - 1 - eaten[|eaten| - 1]) as real * VelocityStep
  {
    var ate := Expire(s.ate, counter, ForagerCooldown);
    ForageSated(nbrs, food, 0, counter, ate, s.velocity, draws.reproduce);
    ForageVelocity(nbrs, food, 0, counter, ate, s.velocity, draws.reproduce);
  }

  /** A forager's action tick creates exactly one offspring when it may eat
      and meets food in reach with a successful draw, and none otherwise. */
  lemma ForagerOffspring(food: Kind, s: ForagerState, counter: nat, nbrs: Neighbours, draws: Draws)
    requires IsActionTick(counter)
    requires |draws.reproduce| == |nbrs|
    ensures var r := ForagerStep(food, s, counter, nbrs, draws);
            NewAgents(r.effects) == if Hungry(s.ate, counter) && Sated(nbrs, food, draws.reproduce, 0) then 1 else 0
  {
    var ate := Expire(s.ate, counter, ForagerCooldown);
    var forage := ForageLoop(nbrs, food, 0, counter, ate, s.velocity, draws.reproduce);
    var death := if draws.death < ForagerDeathChance then [KillSelf] else [];
    ForageOffspring(nbrs, food, 0, counter, ate, s.velocity, draws.reproduce);
    NewAgentsAppend(forage.effects, death);
    assert NewAgents(death) == 0;
  }

  /** `Predator.update`: a predator only ever kills prey within reach. */
  function PredatorStep(s: ForagerState, counter: nat, nbrs: Neighbours, draws: Draws): (r: Outcome<ForagerState>)
    requires |draws.reproduce| == |nbrs|
    ensures forall j :: j in KilledIndices(r.effects) ==>
              j < |nbrs| && nbrs[j].kind == Prey && nbrs[j].distance <= EatDistance
    ensures KillSelf in r.effects <==> IsActionTick(counter) && draws.death < ForagerDeathChance
  {
    EatenMembers(nbrs, Prey, draws.reproduce, 0);
    ForagerStep(Prey, s, counter, nbrs, draws)
  }

  /** `Prey.update`: a prey only ever kills grass within reach. */
  function PreyStep(s: ForagerState, counter: nat, nbrs: Neighbours, draws: Draws): (r: Outcome<ForagerState>)
    requires |draws.reproduce| == |nbrs|
    ensures forall j :: j in KilledIndices(r.effects) ==>
              j < |nbrs| && nbrs[j].kind == Grass && nbrs[j].distance <= EatDistance
    ensures KillSelf in r.effects <==> IsActionTick(counter) && draws.death < ForagerDeathChance
  {
    EatenMembers(nbrs, Grass, draws.reproduce, 0);
    ForagerStep(Grass, s, counter, nbrs, draws)
  }

  /** `Grass.update`: always freeze; on an action tick with a successful
      draw, reproduce once and batch-spawn two more, three new grass agents
      in all. Grass never kills anything. */
  function GrassStep(counter: nat, draw: real): (r: seq<Effect>)
    ensures Freeze in r
    ensures Reproduce in r <==> IsActionTick(counter) && draw < GrassReproduceChance
    ensures SpawnGrass(GrassBatch) in r <==> IsActionTick(counter) && draw < GrassReproduceChance
    ensures NewAgents(r) == if IsActionTick(counter) && draw < GrassReproduceChance then 3 else 0
    ensures KilledIndices(r) == [] && KillSelf !in r
  {
    if IsActionTick(counter) && draw < GrassReproduceChance then
      var r := [Freeze, Reproduce, SpawnGrass(GrassBatch)];
      assert r == [Freeze] + [Reproduce] + [SpawnGrass(GrassBatch)];
      NewAgentsAppend([Freeze], [Reproduce]);
      NewAgentsAppend([Freeze] + [Reproduce], [SpawnGrass(GrassBatch)]);
      KilledIndicesAppend([Freeze], [Reproduce]);
      KilledIndicesAppend([Freeze] + [Reproduce], [SpawnGrass(GrassBatch)]);
      r
    else [Freeze]
  }

  /** After the marker is set at action tick `t`, a forager eats nothing and
      keeps its marker at every action tick up to t+45; from the action tick
      t+48 on the marker is cleared and it eats as a fresh forager would. */
  lemma ForagerCooldownWindow(food: Kind, t: nat, c: nat, velocity: real, nbrs: Neighbours, draws: Draws)
    requires IsActionTick(t) && IsActionTick(c) && t < c
    requires |draws.reproduce| == |nbrs|
    ensures var r := ForagerStep(food, ForagerState(Some(t), velocity), c, nbrs, draws);
            c < t + 48 ==> KilledIndices(r.effects) == [] && r.state.ate == Some(t)
    ensures var r := ForagerStep(food, ForagerState(Some(t), velocity), c, nbrs, draws);
            c >= t + 48 ==> KilledIndices(r.effects) == Eaten(nbrs, food, draws.reproduce, 0)
  {
    CooldownClearsAt(t, c, ForagerCooldown);
    assert FirstActionTickAfter(t + ForagerCooldown) == t + 48;
    ForagerBookkeeping(food, ForagerState(Some(t), velocity), c, nbrs, draws);
  }

  /** Unlike the first variant, one update can kill several neighbours:
      two prey in reach whose draws both fail are both eaten, the marker
      stays clear, and velocity ends at 1. */
  lemma SeveralKillsInOneTick(counter: nat)
    requires IsActionTick(counter)
    ensures var nbrs := [Neighbour(Prey, 3.0), Neighbour(Prey, 5.0)];
            var r := PredatorStep(ForagerState(None, 1.0), counter, nbrs, Draws([0.9, 0.9], 0.5));
            KilledIndices(r.effects) == [0, 1] && r.state.ate == None && r.state.velocity == 1.0
  {
    var nbrs := [Neighbour(Prey, 3.0), Neighbour(Prey, 5.0)];
    var draws := Draws([0.9, 0.9], 0.5);
    ForagerBookkeeping(Prey, ForagerState(None, 1.0), counter, nbrs, draws);
    assert Eaten(nbrs, Prey, draws.reproduce, 0) == [0, 1];
    assert !Sated(nbrs, Prey, draws.reproduce, 0);
  }
}
