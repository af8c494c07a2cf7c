/** Vocabulary shared by both agent variants of the predator-prey-grass
    ecosystem: the tick cadence, the eating reach, the feeding-cooldown
    marker, the random draws an update consumes and the effects it asks
    the simulation engine to carry out.
 */
module Common {

  /** Agents act only on ticks whose counter is a multiple of this. */
  const TimestepInterval: nat := 6

  /** A neighbour at most this far away can be eaten. */
  const EatDistance: real := 12.0

  datatype Option<T> = None | Some(value: T)

  /** One entry of the engine's proximity query: the neighbour's kind and
      its distance from the agent being updated. */
  datatype Neighbour<K> = Neighbour(kind: K, distance: real)

  /** The uniform draws an update consumes. `reproduce[j]` is the draw taken
      right after neighbour `j` is eaten (it is consulted only then), and
      `death` is the draw taken for the random self-death at the end. */
  datatype Draws = Draws(reproduce: seq<real>, death: real)

  /** What an update asks the engine to do, in the order it asks. */
  datatype Effect =
    | KillNeighbour(index: nat)  // kill the neighbour at this position of the proximity list
    | Reproduce                  // spawn one copy of the agent itself
    | KillSelf
    | SpawnGrass(count: nat)     // batch-spawn this many fresh grass agents
    | Freeze                     // stop the agent's own movement

  /** The agent's new bookkeeping together with the effects of the update. */
  datatype Outcome<S> = Outcome(state: S, effects: seq<Effect>)

  predicate IsActionTick(counter: int) {
    counter % TimestepInterval == 0
  }

  /** The `ate` marker holds the tick of the last meal; `None` stands for
      minus infinity. The agent may eat while the marker is negative. */
  predicate MayEat(ate: Option<int>) {
    ate.None? || ate.value < 0
  }

  /** The cooldown test at the start of an action tick: the marker is
      cleared once the counter is strictly past `ate + window`. Minus
      infinity plus the window stays minus infinity, which the counter
      always exceeds, so a cleared marker stays cleared. */
  function Expire(ate: Option<int>, counter: int, window: nat): (r: Option<int>)
    ensures r == None || r == ate
    ensures ate.Some? ==> (r.None? <==> counter > ate.value + window)
    ensures MayEat(ate) ==> MayEat(r)
  {
    match ate
    case None => None
    case Some(t) => if counter > t + window then None else ate
  }

  /** The first action tick strictly after tick `x`. */
  function FirstActionTickAfter(x: int): (r: int)
    ensures IsActionTick(r)
    ensures x < r <= x + TimestepInterval
    ensures forall c :: x < c < r ==> !IsActionTick(c)
  {
    var base := x - x % TimestepInterval;
    assert base == TimestepInterval * (x / TimestepInterval);
    assert forall c :: x < c < base + TimestepInterval ==> c / TimestepInterval == x / TimestepInterval;
    base + TimestepInterval
  }

  /** A marker set at action tick `t` is cleared at an action tick `c`
      exactly when `c` is at or after the first action tick past the
      cooldown window. */
  lemma CooldownClearsAt(t: int, c: int, window: nat)
    requires IsActionTick(c)
    ensures Expire(Some(t), c, window).None? <==> c >= FirstActionTickAfter(t + window)
  {
  }

  /** The positions of the neighbours an effect list kills, in order. */
  function KilledIndices(effects: seq<Effect>): seq<nat> {
    if |effects| == 0 then []
    else
      var head := if effects[0].KillNeighbour? then [effects[0].index] else [];
      head + KilledIndices(effects[1..])
  }

  lemma {:induction false} KilledIndicesAppend(a: seq<Effect>, b: seq<Effect>)
    ensures KilledIndices(a + b) == KilledIndices(a) + KilledIndices(b)
    decreases |a|
  {
    if |a| == 0 {
      assert a + b == b;
    } else {
      assert (a + b)[0] == a[0];
      assert (a + b)[1..] == a[1..] + b;
      KilledIndicesAppend(a[1..], b);
      var head := if a[0].KillNeighbour? then [a[0].index] else [];
      calc {
        KilledIndices(a + b);
        head + KilledIndices(a[1..] + b);
        head + (KilledIndices(a[1..]) + KilledIndices(b));
        (head + KilledIndices(a[1..])) + KilledIndices(b);
      }
    }
  }

  /** Every effect is a kill, an offspring or the agent's own death: all
      that a feeding agent ever asks of the engine. */
  predicate FeedingEffects(effects: seq<Effect>) {
    forall e :: e in effects ==> e.KillNeighbour? || e == Reproduce || e == KillSelf
  }

  /** How many new agents an effect list creates: one per `Reproduce`
      and `count` per `SpawnGrass`. */
  function NewAgents(effects: seq<Effect>): nat {
    if |effects| == 0 then 0
    else
      var head := match effects[0]
        case Reproduce => 1
        case SpawnGrass(n) => n
        case _ => 0;
      head + NewAgents(effects[1..])
  }

  lemma {:induction false} NewAgentsAppend(a: seq<Effect>, b: seq<Effect>)
    ensures NewAgents(a + b) == NewAgents(a) + NewAgents(b)
    decreases |a|
  {
    if |a| == 0 {
      assert a + b == b;
    } else {
      assert (a + b)[0] == a[0];
      assert (a + b)[1..] == a[1..] + b;
      NewAgentsAppend(a[1..], b);
    }
  }

  function Min(a: int, b: int): int {
    if a <= b then a else b
  }
}
