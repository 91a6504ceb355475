/** Exactly when a handle puts a call on the wire, and which: over whole runs, a statement about
    the ledger, the calls already made and the configuration, in which no gate is left. */
module AdmissionRuns {
  import opened Config
  import opened Resolution
  import opened Windows
  import opened World
  import opened Moves
  import A = Actor
  import B = Backoff
  import L = Ledger
  import LR = LedgerRuns
  import R = Rationale
  import RL = RateLimit
  import WR = WireRuns
  import XR = WindowRuns

  // ---- one handle ----

  /** The gates of a fresh kick, in the order they are tried. */
  predicate FreshAdmitted(p: A.Pipe, ledger: L.Rows, c: Client, env: A.Env) {
    && !p.config.scanner.dryRun && !A.Quarantined(p, c.mac) && !A.FallsBack(p, c)
    && A.BackoffAllows(p, ledger, c.mac, env.wallGate)
    && RL.KickGate(p.limiter, c.apId, env.monoGate).Open? && env.wireOk
  }

  predicate FallbackAdmitted(p: A.Pipe, c: Client, env: A.Env) {
    && !p.config.scanner.dryRun && !A.Quarantined(p, c.mac) && A.FallsBack(p, c)
    && RL.GlobalGate(p.limiter, env.monoGate).Open? && env.wireOk
  }

  /** The calls a handle adds to the wire log. */
  function Added(p: A.Pipe, ledger: L.Rows, c: Client, env: A.Env): seq<A.WireCall> {
    if FreshAdmitted(p, ledger, c, env) then [Call(p, c, Kind(p, c.mac), env.group, env)]
    else if FallbackAdmitted(p, c, env) then [Call(p, c, L.RowFallback, p.pending.btm[c.mac].group, env)]
    else []
  }

  lemma {:induction false} FallbackAdds(p: A.Pipe, c: Client, d: R.Decision, env: A.Env)
    requires !p.config.scanner.dryRun && !A.Quarantined(p, c.mac) && A.FallsBack(p, c)
    ensures A.FallbackHandle(p, c, d, env).pipe.wire
         == p.wire + (if FallbackAdmitted(p, c, env)
                      then [Call(p, c, L.RowFallback, p.pending.btm[c.mac].group, env)] else [])
  {
    assert p.wire + [] == p.wire;
  }

  lemma {:induction false} FreshAdds(p: A.Pipe, ledger: L.Rows, c: Client, d: R.Decision, env: A.Env)
    requires !p.config.scanner.dryRun && !A.Quarantined(p, c.mac) && !A.FallsBack(p, c)
    ensures A.FreshHandle(p, ledger, c, d, env).pipe.wire
         == p.wire + (if FreshAdmitted(p, ledger, c, env) then [Call(p, c, Kind(p, c.mac), env.group, env)] else [])
  {
    assert p.wire + [] == p.wire;
  }

  lemma {:induction false} HandleAdds(p: A.Pipe, ledger: L.Rows, c: Client, d: R.Decision, env: A.Env)
    ensures A.HandleEffect(p, ledger, c, d, env).pipe.wire == p.wire + Added(p, ledger, c, env)
  {
    assert p.wire + [] == p.wire;
    if !p.config.scanner.dryRun && !A.Quarantined(p, c.mac) {
      var t := A.Touched(p, c.mac);
      TouchedAdmits(p, ledger, c, env);
      if A.FallsBack(t, c) {
        FallbackAdds(t, c, d, env);
      } else {
        FreshAdds(t, ledger, c, d, env);
      }
    }
  }

  lemma {:induction false} TouchedAdmits(p: A.Pipe, ledger: L.Rows, c: Client, env: A.Env)
    ensures var t := A.Touched(p, c.mac);
            && (FreshAdmitted(t, ledger, c, env) <==> FreshAdmitted(p, ledger, c, env))
            && (FallbackAdmitted(t, c, env) <==> FallbackAdmitted(p, c, env))
            && !A.Quarantined(t, c.mac) == !A.Quarantined(p, c.mac)
  {
  }

  // ---- the gates, said of history and configuration ----

  /** What a reload sets and a handle never touches. */
  ghost predicate KnobsInForce(p: A.Pipe) {
    p.limiter.rails == p.config.rails && p.quarantineAfter == p.config.backoff.quarantineAfterKicks
  }

  lemma {:induction false} RunKeepsKnobs(ws: seq<World>, events: seq<Event>, k: nat)
    requires MovesAlong(ws, events) && WR.AllBooted(ws[0]) && k < |ws|
    ensures forall i :: 0 <= i < |ws[k].pipes| ==> KnobsInForce(ws[k].pipes[i])
  {
    if k > 0 {
      RunKeepsKnobs(ws, events, k - 1);
      forall i | 0 <= i < |ws[k].pipes| ensures KnobsInForce(ws[k].pipes[i]) {
        StepKeepsKnobs(ws[k - 1], events[k - 1], ws[k], i);
      }
    }
  }

  lemma {:induction false} StepKeepsKnobs(w: World, e: Event, next: World, i: nat)
    requires WorldMoves(w, e, next) && i < |next.pipes|
    requires forall j :: 0 <= j < |w.pipes| ==> KnobsInForce(w.pipes[j])
    ensures KnobsInForce(next.pipes[i])
  {
    assert PipeMoves(w, e, next, i);
    if e.Handle? && e.pipe == i {
      var ef :| HandledTo(w, e, next, ef);
    }
  }

  /** Room under the MAC's configured day and hour, and the ladder cooled down. */
  ghost predicate HistoryAllows(config: Config, mac: Mac, history: seq<real>, now: real) {
    && (forall limit: nat :: LR.CapConfigured(config, mac, LR.Daily, limit) ==> B.RoomIn(history, now, 86400.0, limit))
    && (forall limit: nat :: LR.CapConfigured(config, mac, LR.Hourly, limit) ==> B.RoomIn(history, now, 3600.0, limit))
    && B.CooledDown(history, now, config.backoff.cooldowns)
  }

  lemma {:induction false} BackoffOnHistory(p: A.Pipe, ledger: L.Rows, mac: Mac, now: real)
    requires Ascending(L.LogicalTs(ledger, mac)) && NoneAfter(L.LogicalTs(ledger, mac), now)
    ensures A.BackoffAllows(p, ledger, mac, now) <==> HistoryAllows(p.config, mac, L.LogicalTs(ledger, mac), now)
  {
    var policy := A.PolicyFor(mac, p.config);
    LR.PolicyTakesConfigured(p.config, mac, LR.Daily);
    LR.PolicyTakesConfigured(p.config, mac, LR.Hourly);
    B.TruncatedLookupIsExact(ledger, mac, now, policy);
    L.AscendingIsSorted(L.LogicalTs(ledger, mac));
    B.VerdictIff(L.LogicalTs(ledger, mac), now, policy);
  }

  /** The minimum is off, or the pipeline's last call, of whatever kind and MAC, is that long ago. */
  predicate LastCallAged(wire: seq<A.WireCall>, minimum: Seconds, now: real) {
    wire == [] || minimum == 0.0 || now - wire[|wire| - 1].at >= minimum
  }

  /** A BTM of this client waits for its fallback at the AP it is still on. */
  predicate BtmWaitsHere(p: A.Pipe, c: Client) {
    c.mac in p.pending.btm && p.pending.btm[c.mac].apId == c.apId
  }

  /** The pipeline acts on this MAC: live, and below the quarantine limit by the calls it made. */
  ghost predicate Acting(p: A.Pipe, mac: Mac) {
    !p.config.scanner.dryRun && WR.FreshCalls(p.wire, mac) < p.config.backoff.quarantineAfterKicks
  }

  ghost predicate MayKick(w: World, p: A.Pipe, c: Client, env: A.Env) {
    var rails := p.config.rails;
    && Acting(p, c.mac) && !BtmWaitsHere(p, c)
    && HistoryAllows(p.config, c.mac, LR.Logical(w, c.mac), env.wallGate)
    && LastCallAged(p.wire, rails.minSecondsBetweenKicks, env.monoGate)
    && (rails.maxKicksPerApPerWindow == 0
        || CountIn(XR.CountedAt(p.wire, c.apId), env.monoGate - rails.perApWindowSeconds, env.monoGate)
           < rails.maxKicksPerApPerWindow)
  }

  ghost predicate MayFallBack(p: A.Pipe, c: Client, env: A.Env) {
    && Acting(p, c.mac) && BtmWaitsHere(p, c)
    && LastCallAged(p.wire, p.config.rails.minSecondsBetweenKicks, env.monoGate)
  }

  /** What is known of a pipe in a run: its knobs, its counter and what its gate sees. */
  ghost predicate Understood(w: World, p: A.Pipe, c: Client, env: A.Env) {
    && KnobsInForce(p) && Count(p, c.mac) == WR.FreshCalls(p.wire, c.mac)
    && Ascending(LR.Logical(w, c.mac)) && NoneAfter(LR.Logical(w, c.mac), env.wallGate)
    && (RL.TimerPassed(p.limiter, env.monoGate) <==> XR.SinceLastCall(p, env.monoGate))
    && (RL.KickGate(p.limiter, c.apId, env.monoGate).Open? <==>
          && XR.SinceLastCall(p, env.monoGate)
          && (p.limiter.rails.maxKicksPerApPerWindow == 0
              || CountIn(XR.CountedAt(p.wire, c.apId), env.monoGate - p.limiter.rails.perApWindowSeconds, env.monoGate)
                 < p.limiter.rails.maxKicksPerApPerWindow))
  }

  lemma {:induction false} AdmittedIff(w: World, p: A.Pipe, c: Client, env: A.Env)
    requires Understood(w, p, c, env)
    ensures FreshAdmitted(p, w.ledger, c, env) <==> MayKick(w, p, c, env) && env.wireOk
    ensures FallbackAdmitted(p, c, env) <==> MayFallBack(p, c, env) && env.wireOk
  {
    BackoffOnHistory(p, w.ledger, c.mac, env.wallGate);
    RL.GateOpensIff(p.limiter, c.apId, env.monoGate);
  }

  lemma {:induction false} RunIsUnderstood(ws: seq<World>, events: seq<Event>, k: nat, most: nat)
    requires Run(ws, events) && ClocksAdvanceAlong(ws, events) && WR.AllBooted(ws[0])
    requires XR.RailsOnlyNarrow(ws, events, most) && k < |events| && Acts(ws[k], events[k])
    requires LR.Ordered(ws[0], events[k].client.mac)
    ensures Understood(ws[k], ActingPipe(ws[k], events[k]), events[k].client, events[k].env)
  {
    var e, i := events[k], events[k].pipe;
    assert ClocksAdvance(ws[k], e);
    RunMoves(ws, events);
    RunKeepsKnobs(ws, events, k);
    WR.KickCountIsFreshCalls(ws, events, k, i, e.client.mac);
    LR.RunGrows(ws, events, e.client.mac);
    OrderAlong(ws, events, k, e.client.mac);
    XR.TimerIsLastCall(ws, events, k, i);
    XR.GateOpensOnHistoryIff(ws, events, k, i, e.client.apId, most, e.env.monoGate);
  }

  lemma {:induction false} OrderAlong(ws: seq<World>, events: seq<Event>, k: nat, mac: Mac)
    requires LR.GrowsAlong(ws, events, mac) && LR.Ordered(ws[0], mac) && k < |ws|
    ensures LR.Ordered(ws[k], mac)
  {
    if k > 0 {
      OrderAlong(ws, events, k - 1, mac);
      LR.GrowthKeepsOrder(ws[k - 1], events[k - 1], ws[k], mac);
    }
  }

  /** The one call a handle can make, as the configuration in force shapes it. */
  function CallBy(p: A.Pipe, c: Client, kind: L.RowMechanism, group: L.Group, env: A.Env): A.WireCall {
    A.WireCall(c.mac, c.apId, kind, group, env.monoRecord, p.config.rails.minSecondsBetweenKicks,
               kind != L.RowFallback && p.config.rails.maxKicksPerApPerWindow > 0, env.insertOk)
  }

  /** How the MAC's configured mechanism goes out: auto starts with a BTM. */
  ghost predicate SentAs(config: Config, mac: Mac, kind: L.RowMechanism) {
    || (kind == L.RowDeauth && MechanismFor(mac, config) == Deauth)
    || (kind == L.RowBtm && MechanismFor(mac, config) in {Btm, Auto})
  }

  /** This handle sends a fresh kick; a fallback of the waiting BTM, under its group; or nothing. */
  ghost predicate Sends(w: World, p: A.Pipe, c: Client, env: A.Env, wire: seq<A.WireCall>) {
    if env.wireOk && MayKick(w, p, c, env) then
      exists kind :: SentAs(p.config, c.mac, kind) && wire == p.wire + [CallBy(p, c, kind, env.group, env)]
    else if env.wireOk && MayFallBack(p, c, env) then
      wire == p.wire + [CallBy(p, c, L.RowFallback, p.pending.btm[c.mac].group, env)]
    else wire == p.wire
  }

  lemma {:induction false} UnderstoodSends(w: World, p: A.Pipe, c: Client, d: R.Decision, env: A.Env)
    requires Understood(w, p, c, env)
    ensures Sends(w, p, c, env, A.HandleEffect(p, w.ledger, c, d, env).pipe.wire)
  {
    AdmittedIff(w, p, c, env);
    HandleAdds(p, w.ledger, c, d, env);
    if FreshAdmitted(p, w.ledger, c, env) {
      assert SentAs(p.config, c.mac, Kind(p, c.mac));
    }
  }

  /** Over whole runs: a handle sends a fresh kick if and only if it is not a dry run, the MAC's fresh
      calls are below its limit, no BTM of it waits at this AP, its logical rows leave room under
      its configured day and hour and have cooled down, the pipeline's last call is the minimum
      ago, the AP's counted kicks leave room in the window, and the call goes out. It sends the
      fallback of a waiting BTM if and only if the MAC is below its limit and the minimum has
      passed. It sends nothing else. */
  lemma {:induction false} HandleCallsIff(ws: seq<World>, events: seq<Event>, k: nat, most: nat)
    requires Run(ws, events) && ClocksAdvanceAlong(ws, events) && WR.AllBooted(ws[0])
    requires XR.RailsOnlyNarrow(ws, events, most) && k < |events| && Acts(ws[k], events[k])
    requires LR.Ordered(ws[0], events[k].client.mac)
    ensures events[k].pipe < |ws[k + 1].pipes|
    ensures Sends(ws[k], ActingPipe(ws[k], events[k]), events[k].client, events[k].env,
                  ws[k + 1].pipes[events[k].pipe].wire)
  {
    assert StepsTo(ws[k], events[k], ws[k + 1]);
    RunIsUnderstood(ws, events, k, most);
    UnderstoodSends(ws[k], ActingPipe(ws[k], events[k]), events[k].client, events[k].decision, events[k].env);
  }
}
