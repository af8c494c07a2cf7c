/** Several consecutive updates of a `PredatorWithEnergy`: the energy cap
    holds along any run, and a predator that never eats starves on exactly
    its 400th action tick, whatever its neighbours.
 */
module EnergyRuns {
  import opened Common
  import opened Agents

  /** One call of the update: the counter, the proximity list and the draws. */
  datatype Tick = Tick(counter: nat, nbrs: Neighbours, draws: Draws)

  predicate WellFormed(t: Tick) {
    |t.draws.reproduce| == |t.nbrs|
  }

  /** The state after applying the update for every tick in turn. */
  function Run(s: EnergyState, ticks: seq<Tick>, deathChance: int -> real): EnergyState
    requires forall k :: 0 <= k < |ticks| ==> WellFormed(ticks[k])
    decreases |ticks|
  {
    if |ticks| == 0 then s
    else
      var t := ticks[0];
      assert WellFormed(t);
      Run(EnergyStep(s, t.counter, t.nbrs, t.draws, deathChance).state, ticks[1..], deathChance)
  }

  /** Energy never rises above 100 units along any run that starts at or
      below it, whatever the predator meets and whatever it draws. */
  lemma {:induction false} EnergyStaysCapped(s: EnergyState, ticks: seq<Tick>, deathChance: int -> real)
    requires s.energy <= MaxEnergy
    requires forall k :: 0 <= k < |ticks| ==> WellFormed(ticks[k])
    ensures Run(s, ticks, deathChance).energy <= MaxEnergy
    decreases |ticks|
  {
    if |ticks| > 0 {
      var t := ticks[0];
      EnergyStaysCapped(EnergyStep(s, t.counter, t.nbrs, t.draws, deathChance).state, ticks[1..], deathChance);
    }
  }

  /** The predator kills nobody on any update of the run: whatever its
      neighbours, nothing edible is in reach whenever its marker allows
      eating. */
  predicate NeverEats(s: EnergyState, ticks: seq<Tick>, deathChance: int -> real)
    requires forall k :: 0 <= k < |ticks| ==> WellFormed(ticks[k])
    decreases |ticks|
  {
    if |ticks| == 0 then true
    else
      var t := ticks[0];
      assert WellFormed(t);
      var r := EnergyStep(s, t.counter, t.nbrs, t.draws, deathChance);
      KilledIndices(r.effects) == [] && NeverEats(r.state, ticks[1..], deathChance)
  }

  /** How many ticks of the run are action ticks. */
  function ActionTicks(ticks: seq<Tick>): nat
    decreases |ticks|
  {
    if |ticks| == 0 then 0
    else (if IsActionTick(ticks[0].counter) then 1 else 0) + ActionTicks(ticks[1..])
  }

  /** A predator that eats nothing loses exactly a quarter unit per action
      tick, and nothing on the other ticks. */
  lemma {:induction false} UnfedLosesOnePerTick(s: EnergyState, ticks: seq<Tick>, deathChance: int -> real)
    requires forall k :: 0 <= k < |ticks| ==> WellFormed(ticks[k])
    requires NeverEats(s, ticks, deathChance)
    ensures Run(s, ticks, deathChance).energy == s.energy - ActionTicks(ticks)
    decreases |ticks|
  {
    if |ticks| > 0 {
      var t := ticks[0];
      var next := EnergyStep(s, t.counter, t.nbrs, t.draws, deathChance).state;
      if IsActionTick(t.counter) {
        EnergyBookkeeping(s, t.counter, t.nbrs, t.draws, deathChance);
        assert next.energy == s.energy - 1;
      }
      UnfedLosesOnePerTick(next, ticks[1..], deathChance);
    }
  }

  /** A predator with `e` quarter units that eats nothing keeps positive
      energy through any run of fewer than `e` action ticks, so the
      exact-zero test does not fire on any of them. */
  lemma UnfedStaysPositive(s: EnergyState, ticks: seq<Tick>, deathChance: int -> real)
    requires forall k :: 0 <= k < |ticks| ==> WellFormed(ticks[k])
    requires NeverEats(s, ticks, deathChance)
    requires ActionTicks(ticks) < s.energy
    ensures Run(s, ticks, deathChance).energy > 0
  {
    UnfedLosesOnePerTick(s, ticks, deathChance);
  }

  /** ... and on the action tick after `e` - 1 action ticks without food it
      kills itself for starvation, before anything else it does on that
      tick; if it eats nothing then either, its energy ends at exactly 0. */
  lemma StarvesOnTick(s: EnergyState, ticks: seq<Tick>, t: Tick, deathChance: int -> real)
    requires forall k :: 0 <= k < |ticks| ==> WellFormed(ticks[k])
    requires WellFormed(t) && IsActionTick(t.counter)
    requires NeverEats(s, ticks, deathChance)
    requires ActionTicks(ticks) == s.energy - 1
    ensures var r := EnergyStep(Run(s, ticks, deathChance), t.counter, t.nbrs, t.draws, deathChance);
            |r.effects| > 0 && r.effects[0] == KillSelf &&
            (KilledIndices(r.effects) == [] ==> r.state.energy == 0)
  {
    UnfedLosesOnePerTick(s, ticks, deathChance);
    EnergyBookkeeping(Run(s, ticks, deathChance), t.counter, t.nbrs, t.draws, deathChance);
  }

  /** A newborn predator (100 units) that eats nothing does not starve in
      any run of up to 399 action ticks, and starves on its 400th. */
  lemma Starvation(ticks: seq<Tick>, t: Tick, deathChance: int -> real)
    requires forall k :: 0 <= k < |ticks| ==> WellFormed(ticks[k])
    requires WellFormed(t)
    requires NeverEats(Newborn, ticks, deathChance)
    ensures ActionTicks(ticks) < 400 ==> Run(Newborn, ticks, deathChance).energy > 0
    ensures ActionTicks(ticks) == 399 && IsActionTick(t.counter) ==>
              var r := EnergyStep(Run(Newborn, ticks, deathChance), t.counter, t.nbrs, t.draws, deathChance);
              |r.effects| > 0 && r.effects[0] == KillSelf && (KilledIndices(r.effects) == [] ==> r.state.energy == 0)
  {
    if ActionTicks(ticks) < 400 {
      UnfedStaysPositive(Newborn, ticks, deathChance);
    }
    if ActionTicks(ticks) == 399 && IsActionTick(t.counter) {
      StarvesOnTick(Newborn, ticks, t, deathChance);
    }
  }
}
