/** The daemon as a step machine: several pipelines sharing one ledger, driven by handled
    clients, roam checks, reloads and restarts. Wire and insert failures are part of a handle. */
module World {
  import opened Config
  import L = Ledger
  import R = Rationale
  import A = Actor

  /** `wall` and `mono` are the latest clock readings and `used` the attempt groups drawn so
      far: history that no step reads. */
  datatype World = World(
    pipes: seq<A.Pipe>, ledger: L.Rows, wall: real, mono: real, used: set<L.Group>)

  datatype Event =
    | Handle(pipe: nat, client: Client, decision: R.Decision, env: A.Env)
    | CheckOutcome(pipe: nat, client: Client)
    | Reload(config: Config)
    | Restart(config: Config, pipeCount: nat, notifier: bool, mono: real)

  function NewPipes(config: Config, n: nat, notifier: bool): (r: seq<A.Pipe>)
    ensures |r| == n && forall i :: 0 <= i < n ==> r[i] == A.NewPipe(config, notifier)
  {
    if n == 0 then [] else NewPipes(config, n - 1, notifier) + [A.NewPipe(config, notifier)]
  }

  function ReloadAll(pipes: seq<A.Pipe>, config: Config): (r: seq<A.Pipe>)
    ensures |r| == |pipes|
    ensures forall i :: 0 <= i < |r| ==> r[i] == A.ReloadedPipe(pipes[i], config)
  {
    if pipes == [] then [] else
      ReloadAll(pipes[..|pipes| - 1], config) + [A.ReloadedPipe(pipes[|pipes| - 1], config)]
  }

  function EffectOf(w: World, e: Event): A.Effect
    requires e.Handle? && e.pipe < |w.pipes|
  {
    A.HandleEffect(w.pipes[e.pipe], w.ledger, e.client, e.decision, e.env)
  }

  function Step(w: World, e: Event): World {
    match e
    case Handle(i, c, d, env) =>
      if i >= |w.pipes| then w else
        var effect := EffectOf(w, e);
        World(w.pipes[i := effect.pipe], w.ledger + effect.rows, env.wallRow, env.monoRecord,
              w.used + {env.group})
    case CheckOutcome(i, c) =>
      if i >= |w.pipes| then w else w.(pipes := w.pipes[i := A.Checked(w.pipes[i], c)])
    case Reload(config) => w.(pipes := ReloadAll(w.pipes, config))
    case Restart(config, n, notifier, mono) =>
      w.(pipes := NewPipes(config, n, notifier), mono := mono)
  }

  predicate StepsTo(w: World, e: Event, next: World) { next == Step(w, e) }

  /** A run: every world follows from the one before it by its event. Every statement about
      `ws[k]` for all runs is a statement about every reachable world. */
  ghost predicate Run(ws: seq<World>, events: seq<Event>) {
    |ws| == |events| + 1
    && forall k :: 0 <= k < |events| ==> StepsTo(ws[k], events[k], ws[k + 1])
  }

  /** Both clocks read no earlier than before, and after the wire call no earlier than at the
      gate. The monotonic clock may restart with the process. */
  predicate ClocksAdvance(w: World, e: Event) {
    e.Handle? ==>
      && w.wall <= e.env.wallGate <= e.env.wallRow
      && w.mono <= e.env.monoGate <= e.env.monoRecord
  }

  ghost predicate ClocksAdvanceAlong(ws: seq<World>, events: seq<Event>) {
    |ws| == |events| + 1 && forall k :: 0 <= k < |events| ==> ClocksAdvance(ws[k], events[k])
  }

  /** uuid4 draws do not collide. */
  predicate GroupIsFresh(w: World, e: Event) { e.Handle? ==> e.env.group !in w.used }

  predicate Acts(w: World, e: Event) { e.Handle? && e.pipe < |w.pipes| }

  /** The pipe an acting event runs in. */
  function ActingPipe(w: World, e: Event): A.Pipe
    requires Acts(w, e)
  {
    w.pipes[e.pipe]
  }
}
