# Predator–prey–grass agents: a Dafny model of the per-tick update rules

This project models the per-tick `update` rules of the agents in the
predator–prey–grass ecosystem simulation. There are two variants:

- `assignment2/agents.py`: a `Predator` with a 30-tick feeding cooldown, a
  `PredatorWithEnergy` that also keeps an energy ledger and whose speed
  depends on it, and a `Prey` that only reproduces at random.
- `assignment2/agents2.py`: a `Predator` and a `Prey` that share one
  feeding rule with a 45-tick cooldown and a velocity ledger, and a `Grass`
  that never moves and multiplies.

Each update is a pure function. Its inputs are:

- the agent's bookkeeping record;
- the engine's tick counter;
- the proximity list, as a sequence of `(kind, distance)` pairs;
- the random draws the update consumes.

It returns the new record plus the list of effects the update asks the
simulation engine to perform, in order:

- `KillNeighbour(i)`: kill the neighbour at position `i` of the proximity list;
- `Reproduce`;
- `KillSelf`;
- `SpawnGrass(n)`: batch-spawn `n` new grass agents;
- `Freeze`: stop the agent's own movement.

Representation choices:

- The feeding marker `ate` is an `Option<int>`. `None` stands for the
  `-float('inf')` sentinel. The `ate < 0` guard is modelled exactly as
  "`None`, or a negative tick".
- Energy is held in integer quarter-units, so the `== 0` test is exact:
  100 becomes 400, the 0.25 step becomes 1, and the gain of 30 becomes 120.
- Velocity and distances are `real`.
- The tick counter is a `nat`, because the engine's frame counter starts at
  0. The "at most one kill per update" rule of `agents.py` depends on this:
  the marker is set to the counter, and a non-negative marker closes the
  `ate < 0` guard.
- Random draws are injected as `Draws(reproduce, death)`:
  - `reproduce[j]` is the draw taken right after neighbour `j` is eaten.
    It is consulted only then. This matches the order in which the source
    draws from its random stream.
  - `death` is the draw taken for the random self-death at the end of the update.

Files:

- `common.dfy` (module `Common`): the tick cadence, the eating distance, the
  cooldown marker and its expiry, the effects, and helpers over effect lists.
- `agents.dfy` (module `Agents`): `assignment2/agents.py`.
- `energy_runs.dfy` (module `EnergyRuns`): runs of several
  `PredatorWithEnergy` updates, covering the energy cap and starvation.
- `agents2.dfy` (module `Agents2`): `assignment2/agents2.py`.

The code as written does the following, and the model keeps it:

- The starvation test is the exact comparison `energy == 0`. It fires
  because the 0.25 steps from 100 land on 0 exactly.
- In `agents2.py` one update can kill several neighbours, and the marker
  is set only when the reproduction draw succeeds.
- In `agents.py`, `PredatorWithEnergy.update` does not stop after its
  starvation `kill()`. On that same tick it may still eat, refill, reproduce
  and take its random-death draw. The model keeps this: the starvation
  `KillSelf` is the first effect, and the rest of the update follows it.
- The code comment in `Predator.update` of `agents.py` speaks of 45 frames,
  but the code uses a 30-tick window. The model uses 30.

## Model

| member | source | states |
|---|---|---|
| `Agents.EatLoop` | assignment2/agents.py:70-80 | The neighbour loop of either predator eats the first prey within 12 if the marker allows eating, and no other neighbour. It then sets the marker to the current tick and reproduces if that meal's draw is below the chance. Without an allowed meal, the loop changes nothing and emits nothing. |
| `Agents.FirstEdible` | assignment2/agents.py:71-73 | The candidate is a prey within eating distance, and no earlier neighbour is one. If there is none, no neighbour is one. |
| `Agents.MealsOfLoop` | assignment2/agents.py:70-80 | The loop kills exactly the first edible neighbour, or nobody. It reproduces only after that kill and a successful draw. It never kills itself. |
| `Agents.PredatorStep` | assignment2/agents.py:61-84 | On a non-action tick the state and effects are unchanged. On an action tick the update works as follows. It kills exactly the first edible neighbour, provided the expired-or-not 30-tick marker allows eating. The marker becomes the current tick after a meal and otherwise is the expired marker. Reproduction follows a meal with a draw below 0.374. It creates exactly one offspring in that case and none otherwise. `KillSelf` is emitted exactly on an action tick with a death draw below 0.0088. It asks for nothing else: no `Freeze` and no `SpawnGrass`. |
| `Agents.PredatorEatsOnlyPreyInReach` | assignment2/agents.py:71-75 | A `Predator` kills at most one neighbour per update, and only a prey at distance at most 12. |
| `Agents.Refill` | assignment2/agents.py:110 | Feeding energy is `min(100, energy + 30)`: it exceeds neither 100 nor energy + 30, and it equals one of the two. |
| `Agents.EnergyStep` | assignment2/agents.py:92-120 | On a non-action tick nothing changes. Energy never rises above 100 when it starts at or below 100. At most one prey is killed, and only the first edible one, when the 20-tick marker allows eating. |
| `Agents.EnergyBookkeeping` | assignment2/agents.py:96-120 | On an action tick the update works as follows. Energy drops by 0.25, then is raised to `min(100, e + 30)` exactly when a prey is eaten. The marker moves to the tick exactly on a meal. Reproduction needs a meal and a draw below 0.01. `KillSelf` is emitted exactly when energy hits 0 or the death draw falls below the death chance of the final energy. The starvation kill comes first among the effects. |
| `Agents.EnergyOffspring` | assignment2/agents.py:106-116 | An action tick of a `PredatorWithEnergy` creates exactly one offspring after a meal with a draw below 0.01, and none otherwise. |
| `Agents.EnergyEffectKinds` | assignment2/agents.py:92-120 | A `PredatorWithEnergy` update asks only for kills, offspring and its own death. It never freezes and never batch-spawns. |
| `Agents.EnergyEatsOnlyPreyInReach` | assignment2/agents.py:106-111 | A `PredatorWithEnergy` also kills at most one neighbour per update, and only a prey at distance at most 12. |
| `Agents.Speed` | assignment2/agents.py:149 | Speed is at least 0.7 and at least energy/75, and it equals one of the two. |
| `Agents.SpeedAboveThreshold` | assignment2/agents.py:149 | From energy 52.5 upward, speed is exactly energy/75, and it does not fall as energy rises. |
| `Agents.ClosestTarget` | assignment2/agents.py:154-166 | The result is none exactly when no neighbour is a prey. Otherwise it is a prey at minimal distance, and every earlier prey is strictly farther, so ties go to the first one in list order. |
| `Agents.PreyStep` | assignment2/agents.py:46-51 | The prey creates exactly one offspring on an action tick with a draw below 0.008, and none otherwise. It emits no other effect. |
| `Agents.PredatorCooldownWindow` | assignment2/agents.py:65-68 | After a meal at action tick t, a `Predator` eats nothing and keeps its marker at every action tick up to t+30. From t+36 on, it eats the first edible neighbour again. |
| `Agents.EnergyCooldownWindow` | assignment2/agents.py:101-103 | After a meal at action tick t, a `PredatorWithEnergy` eats nothing and keeps its marker before t+24. From t+24 on, it eats the first edible neighbour again. |
| `Common.Expire` | assignment2/agents.py:67-68 | The cooldown reset. Every agent with a feeding cooldown uses the same shape (agents.py:102-103, agents2.py:58-59). A marker set at tick t is cleared exactly when the counter is strictly past t + window, and is kept otherwise. A cleared marker stays cleared, and a marker that allows eating still does after the reset. |
| `Common.CooldownClearsAt` | assignment2/agents.py:67-68 | A marker set at tick t is cleared at an action tick c exactly when c is at or past the first action tick after t + window. |
| `EnergyRuns.EnergyStaysCapped` | assignment2/agents.py:96-111 | Along any sequence of updates that starts at or below 100 energy, energy never exceeds 100, whatever the predator meets and draws. |
| `EnergyRuns.UnfedLosesOnePerTick` | assignment2/agents.py:96-97 | Along any run in which the predator kills nobody, whatever its neighbours and its marker, energy drops by exactly a quarter unit per action tick and not at all on other ticks. |
| `EnergyRuns.UnfedStaysPositive` | assignment2/agents.py:97-99 | A predator with e quarter units that kills nobody keeps positive energy through any run of fewer than e action ticks, so the exact-zero test does not fire. |
| `EnergyRuns.StarvesOnTick` | assignment2/agents.py:97-99 | After e-1 action ticks without a kill, a predator that had e quarter units kills itself for starvation on its next action tick, as the first of that tick's effects. If it kills nobody on that tick either, its energy ends at exactly 0. |
| `EnergyRuns.Starvation` | assignment2/agents.py:90-99 | A newborn predator (energy 100) that kills nobody, whatever its neighbours, does not starve in any run of up to 399 action ticks: its energy stays positive. On the 400th action tick its first effect is the starvation `KillSelf`. Without a kill on that tick, its energy is exactly 0. |
| `Agents2.EatenMembers` | assignment2/agents2.py:62-70 | A neighbour is eaten exactly when it is food within 12 and every earlier food within 12 came with a failed reproduction draw. |
| `Agents2.ForageLoop` | assignment2/agents2.py:61-73 | The neighbour loop emits only kills and `Reproduce`. It never kills the agent itself, never freezes and never batch-spawns. |
| `Agents2.ForageKills` | assignment2/agents2.py:61-73 | The loop kills exactly the neighbours `Eaten` lists, in order, when the marker allows eating. Otherwise it kills nothing. |
| `Agents2.ForageSated` | assignment2/agents2.py:64-70 | The loop reproduces exactly when it may eat and meets food in reach with a draw below 0.5. Only then does it move the marker to the current tick. A meal with a failed draw leaves the marker clear. |
| `Agents2.ForageOffspring` | assignment2/agents2.py:64-70 | The loop creates exactly one offspring when it may eat and meets food in reach with a draw below 0.5, and none otherwise. The success that sets the marker closes the loop to further meals. |
| `Agents2.ForageVelocity` | assignment2/agents2.py:61-73 | After the loop, velocity is 1 − 0.01 × (neighbours after the last meal). Without a meal, it is the old velocity − 0.01 × (neighbours visited). |
| `Agents2.ForagerStep` | assignment2/agents2.py:52-77 | On a non-action tick nothing changes. On an action tick the forager kills exactly the food `Eaten` lists when the 45-tick marker, once expired, allows eating. `KillSelf` is emitted exactly on an action tick with a death draw below 0.01. It asks for nothing else: no `Freeze` and no `SpawnGrass`. |
| `Agents2.ForagerBookkeeping` | assignment2/agents2.py:56-73 | On an action tick: reproduction happens exactly when the forager may eat and meets food in reach with a successful draw. The marker moves to the tick only then. Velocity ends at 1 − 0.01 × (neighbours after the last meal), or at the old velocity − 0.01 × (all neighbours) without a meal. |
| `Agents2.ForagerOffspring` | assignment2/agents2.py:56-73 | A forager's action tick creates exactly one offspring when the expired-or-not 45-tick marker allows eating and some food in reach has a successful draw. Otherwise it creates none. |
| `Agents2.PredatorStep` | assignment2/agents2.py:52-77 | A `Predator` only kills prey within 12, and it kills itself exactly on an action tick with a death draw below 0.01. |
| `Agents2.PreyStep` | assignment2/agents2.py:91-116 | A `Prey` only kills grass within 12, and it kills itself exactly on an action tick with a death draw below 0.01. |
| `Agents2.GrassStep` | assignment2/agents2.py:137-144 | Grass always freezes. On an action tick with a draw below 0.0072 it reproduces once and batch-spawns 2 more grass agents, three new agents in all. Otherwise it does neither and creates none. It never kills anything. |
| `Agents2.ForagerCooldownWindow` | assignment2/agents2.py:56-59 | After the marker is set at action tick t, a forager eats nothing and keeps its marker up to t+45. From t+48 on, it eats exactly as a forager with a clear marker would. |
| `Agents2.SeveralKillsInOneTick` | assignment2/agents2.py:62-73 | Two prey in reach whose draws both fail are both eaten in one update. The marker stays clear, and velocity ends at 1. |

## Left out

- `PredatorWithEnergy._calculate_death_probability` (`e^(-0.4·energy)`) is
  transcendental floating point. It is the parameter `deathChance`, which is
  only compared against the injected death draw.
- All `change_position` steering in both files is out of scope. This covers
  random direction jitter, normalisation and the 0.03 blend towards the
  target. It is floating-point 2-D vector work done by the framework's
  movement step. Only the speed formula and the target choice of
  `PredatorWithEnergy` are modelled.
- `save_data('type', …)` recording is external reporting and is not modelled.
- The engine's side is treated as effects or inputs, because it lives in the
  framework:
  - the proximity query (an input);
  - `kill`, `reproduce`, `batch_spawn_agents` and `freeze_movement` (effects);
  - where new agents are placed.
- `Agents2.ForageVelocity`: does not model the floating-point rounding of
  repeated `- 0.01` steps. Velocity is an exact `real`.
- `Agents.Speed`: does not model the floating-point rounding of
  `energy / 75`. Speed is an exact `real`, and no stated property depends
  on the rounding.
- Distances are finite reals. NaN and infinite distances are not modelled.
- Randomness is injected. The draws are not constrained to `[0, 1)`,
  because no rule depends on that range.
- The commented-out `Prey` class in `agents2.py` and the unused constant
  `TIME_SINCE_KILL` are not modelled, because they have no behaviour.
- `assignment0/flocking.py`, `assignment1/aggregation.py`, `plotting.py`,
  `main.py`, `main2.py`, `sim.py` and `predator.py` are not part of this
  model. They are flocking movement, a framework call, plotting, entry
  points, an image-loading wrapper and an empty subclass.
