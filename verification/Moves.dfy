/** The three things a `handle` can do to a pipe: nothing that reaches the wire, a fresh kick,
    or the fallback of a pending BTM. Whole-run proofs argue about these, not about the code. */
module Moves {
  import opened Config
  import opened World
  import opened Actor
  import Resolution
  import R = Rationale
  import L = Ledger
  import B = Backoff
  import RL = RateLimit
  import P = Pending

  function Count(p: Pipe, mac: Mac): nat { B.Entry(p.states, mac).kickCount }

  ghost predicate SameKnobs(p: Pipe, p': Pipe) {
    p'.config == p.config && p'.notifier == p.notifier && p'.quarantineAfter == p.quarantineAfter
  }

  ghost predicate SameCounts(p: Pipe, p': Pipe) {
    forall mac :: Count(p', mac) == Count(p, mac)
  }

  function Kind(p: Pipe, mac: Mac): L.RowMechanism {
    SentMechanism(Resolution.MechanismFor(mac, p.config))
  }

  function Call(p: Pipe, c: Client, kind: L.RowMechanism, group: L.Group, env: Env): WireCall {
    WireCall(c.mac, c.apId, kind, group, env.monoRecord, p.limiter.rails.minSecondsBetweenKicks,
             !kind.RowFallback? && p.limiter.rails.maxKicksPerApPerWindow > 0, env.insertOk)
  }

  /** Deferred, quarantined, dry-run, or a wire call that raised. */
  ghost predicate IdleMove(p: Pipe, ef: Effect, c: Client, env: Env) {
    && SameKnobs(p, ef.pipe) && SameCounts(p, ef.pipe)
    && ef.pipe.wire == p.wire && ef.pipe.pending == p.pending
    && (ef.pipe.limiter == p.limiter
        || ef.pipe.limiter == RL.AfterCanKick(p.limiter, c.apId, env.monoGate))
    && (ef.rows == [] || (|ef.rows| == 1 && ef.rows[0].dryRun && ef.rows[0].attemptGroup.None?))
  }

  ghost predicate FreshMove(p: Pipe, ef: Effect, c: Client, d: R.Decision, env: Env) {
    var kind := Kind(p, c.mac);
    && SameKnobs(p, ef.pipe)
    && !Quarantined(p, c.mac) && !FallsBack(p, c)
    && RL.KickGate(p.limiter, c.apId, env.monoGate).Open?
    && ef.pipe.wire == p.wire + [Call(p, c, kind, env.group, env)]
    && ef.pipe.limiter == RL.RecordedKick(RL.AfterCanKick(p.limiter, c.apId, env.monoGate), c.apId, env.monoRecord)
    && (forall mac :: Count(ef.pipe, mac) == Count(p, mac) + (if mac == c.mac then 1 else 0))
    && ef.pipe.pending.btm == (if kind.RowBtm? then p.pending.btm[c.mac := P.PendingBtm(env.group, c.apId)]
                               else p.pending.btm)
    && ef.pipe.pending.outcome == (if env.insertOk
                                   then p.pending.outcome[c.mac := P.Outcome(c.apId, kind, env.group)]
                                   else p.pending.outcome)
    && ef.rows == (if env.insertOk then [FreshRow(c, d, p.config, env)] else [])
  }

  ghost predicate FallbackMove(p: Pipe, ef: Effect, c: Client, d: R.Decision, env: Env) {
    && SameKnobs(p, ef.pipe) && SameCounts(p, ef.pipe)
    && !Quarantined(p, c.mac) && FallsBack(p, c)
    && RL.GlobalGate(p.limiter, env.monoGate).Open?
    && var group := p.pending.btm[c.mac].group;
    && ef.pipe.wire == p.wire + [Call(p, c, L.RowFallback, group, env)]
    && ef.pipe.limiter == RL.RecordedWireCall(p.limiter, env.monoRecord)
    && ef.pipe.pending == (if env.insertOk
                           then P.InFlight(p.pending.btm - {c.mac},
                                           p.pending.outcome[c.mac := P.Outcome(c.apId, L.RowFallback, group)])
                           else p.pending)
    && ef.rows == (if env.insertOk then [FallbackRow(c, d, group, env.wallRow)] else [])
  }

  ghost predicate Moved(p: Pipe, ef: Effect, c: Client, d: R.Decision, env: Env) {
    IdleMove(p, ef, c, env) || FreshMove(p, ef, c, d, env) || FallbackMove(p, ef, c, d, env)
  }

  lemma {:induction false} FreshHandleMoves(p: Pipe, ledger: L.Rows, c: Client, d: R.Decision, env: Env)
    requires !FallsBack(p, c) && !Quarantined(p, c.mac)
    ensures Moved(p, FreshHandle(p, ledger, c, d, env), c, d, env)
  {
    var ef := FreshHandle(p, ledger, c, d, env);
    if !BackoffAllows(p, ledger, c.mac, env.wallGate)
       || RL.KickGate(p.limiter, c.apId, env.monoGate).Deferred? || !env.wireOk {
      assert IdleMove(p, ef, c, env);
    } else {
      var gated := p.(limiter := RL.AfterCanKick(p.limiter, c.apId, env.monoGate));
      assert ef == FreshSend(gated, c, d, env);
      FreshSendMoves(p, c, d, env);
    }
  }

  lemma {:induction false} FreshSendMoves(p: Pipe, c: Client, d: R.Decision, env: Env)
    requires !FallsBack(p, c) && !Quarantined(p, c.mac) && env.wireOk
    requires RL.KickGate(p.limiter, c.apId, env.monoGate).Open?
    ensures var gated := p.(limiter := RL.AfterCanKick(p.limiter, c.apId, env.monoGate));
            FreshMove(p, FreshSend(gated, c, d, env), c, d, env)
  {
  }

  /** Touching an entry changes no count, so the live path moves as its branches do. */
  lemma {:induction false} HandleMoves(p: Pipe, ledger: L.Rows, c: Client, d: R.Decision, env: Env)
    ensures Moved(p, HandleEffect(p, ledger, c, d, env), c, d, env)
  {
    if p.config.scanner.dryRun {
    } else {
      var t := Touched(p, c.mac);
      assert SameCounts(p, t);
      if Quarantined(p, c.mac) {
      } else if FallsBack(t, c) {
      } else {
        FreshHandleMoves(t, ledger, c, d, env);
      }
      MovesFromTouched(p, c.mac, LiveHandle(p, ledger, c, d, env), c, d, env);
    }
  }

  lemma {:induction false} MovesFromTouched(p: Pipe, mac: Mac, ef: Effect, c: Client, d: R.Decision, env: Env)
    requires Moved(Touched(p, mac), ef, c, d, env)
    ensures Moved(p, ef, c, d, env)
  {
    if IdleMove(Touched(p, mac), ef, c, env) {
      assert IdleMove(p, ef, c, env);
    } else if FreshMove(Touched(p, mac), ef, c, d, env) {
      FreshFromTouched(p, mac, ef, c, d, env);
    } else {
      assert FallbackMove(p, ef, c, d, env);
    }
  }

  lemma {:induction false} FreshFromTouched(p: Pipe, mac: Mac, ef: Effect, c: Client, d: R.Decision, env: Env)
    requires FreshMove(Touched(p, mac), ef, c, d, env)
    ensures FreshMove(p, ef, c, d, env)
  {
  }

  // ---- what one world step does to one pipe ----

  ghost predicate PipeMoves(w: World, e: Event, next: World, i: nat)
    requires i < |next.pipes|
  {
    match e
    case Handle(j, c, d, env) =>
      i < |w.pipes|
      && (if i == j then exists ef :: HandledTo(w, e, next, ef)
          else next.pipes[i] == w.pipes[i])
    case CheckOutcome(j, c) =>
      i < |w.pipes| && next.pipes[i] == if i == j then Checked(w.pipes[i], c) else w.pipes[i]
    case Reload(config) => i < |w.pipes| && next.pipes[i] == ReloadedPipe(w.pipes[i], config)
    case Restart(config, _, notifier, _) => next.pipes[i] == NewPipe(config, notifier)
  }

  ghost predicate HandledTo(w: World, e: Event, next: World, ef: Effect) {
    && Acts(w, e) && e.pipe < |next.pipes|
    && next.pipes[e.pipe] == ef.pipe && next.ledger == w.ledger + ef.rows
    && Moved(w.pipes[e.pipe], ef, e.client, e.decision, e.env)
  }

  ghost predicate WorldMoves(w: World, e: Event, next: World) {
    && (forall i: nat :: i < |next.pipes| ==> PipeMoves(w, e, next, i))
    && (!e.Restart? ==> |next.pipes| == |w.pipes|)
    && (Acts(w, e) ==>
          && next.wall == e.env.wallRow && next.mono == e.env.monoRecord
          && next.used == w.used + {e.env.group} && exists ef :: HandledTo(w, e, next, ef))
    && (!Acts(w, e) ==> next.ledger == w.ledger && next.used == w.used && next.wall == w.wall)
    && (!Acts(w, e) && !e.Restart? ==> next.mono == w.mono)
  }

  lemma {:induction false} StepMoves(w: World, e: Event)
    ensures WorldMoves(w, e, Step(w, e))
  {
    if Acts(w, e) {
      HandleMoves(w.pipes[e.pipe], w.ledger, e.client, e.decision, e.env);
      assert HandledTo(w, e, Step(w, e), EffectOf(w, e));
    }
  }

  ghost predicate MovesAlong(ws: seq<World>, events: seq<Event>) {
    |ws| == |events| + 1 && forall k :: 0 <= k < |events| ==> WorldMoves(ws[k], events[k], ws[k + 1])
  }

  lemma {:induction false} RunMoves(ws: seq<World>, events: seq<Event>)
    requires Run(ws, events)
    ensures MovesAlong(ws, events)
  {
    forall k | 0 <= k < |events| ensures WorldMoves(ws[k], events[k], ws[k + 1]) {
      assert StepsTo(ws[k], events[k], ws[k + 1]);
      StepMoves(ws[k], events[k]);
    }
  }
}
