/** Whole-run guarantees of the wire: how many calls a MAC can get before quarantine, and how
    far apart calls are. */
module WireRuns {
  import opened Config
  import opened World
  import opened Moves
  import A = Actor
  import L = Ledger
  import R = Rationale
  import RL = RateLimit

  /** A pipeline as build_pipeline leaves it. */
  predicate Booted(p: A.Pipe) { p == A.NewPipe(p.config, p.notifier) }

  ghost predicate AllBooted(w: World) {
    forall i :: 0 <= i < |w.pipes| ==> Booted(w.pipes[i])
  }

  // ---- quarantine ----

  function FreshCalls(wire: seq<A.WireCall>, mac: Mac): nat {
    if wire == [] then 0 else
      var last := wire[|wire| - 1];
      FreshCalls(wire[..|wire| - 1], mac) + (if last.mac == mac && !last.kind.RowFallback? then 1 else 0)
  }

  function RecordedFallbacks(wire: seq<A.WireCall>, mac: Mac): nat {
    if wire == [] then 0 else
      var last := wire[|wire| - 1];
      RecordedFallbacks(wire[..|wire| - 1], mac)
      + (if last.mac == mac && last.kind.RowFallback? && last.recorded then 1 else 0)
  }

  /** Fallback calls whose row could not be written. */
  function UnrecordedFallbacks(wire: seq<A.WireCall>, mac: Mac): nat {
    if wire == [] then 0 else
      var last := wire[|wire| - 1];
      UnrecordedFallbacks(wire[..|wire| - 1], mac)
      + (if last.mac == mac && last.kind.RowFallback? && !last.recorded then 1 else 0)
  }

  function CallsTo(wire: seq<A.WireCall>, mac: Mac): nat {
    if wire == [] then 0 else
      CallsTo(wire[..|wire| - 1], mac) + (if wire[|wire| - 1].mac == mac then 1 else 0)
  }

  /** The counter is the number of fresh calls; each recorded fallback and the pending BTM
      use up one fresh call of their own. */
  ghost predicate Tally(p: A.Pipe, mac: Mac) {
    && Count(p, mac) == FreshCalls(p.wire, mac)
    && RecordedFallbacks(p.wire, mac) + (if mac in p.pending.btm then 1 else 0) <= FreshCalls(p.wire, mac)
  }

  ghost predicate Bounded(p: A.Pipe, mac: Mac, most: nat) {
    && FreshCalls(p.wire, mac) <= most
    && (RecordedFallbacks(p.wire, mac) > 0 ==> RecordedFallbacks(p.wire, mac) < most)
  }

  predicate LimitInForce(w: World, e: Event, mac: Mac, most: nat) {
    Acts(w, e) && e.client.mac == mac ==> ActingPipe(w, e).quarantineAfter <= most
  }

  lemma {:induction false} MoveKeepsTally(p: A.Pipe, ef: A.Effect, e: Event, mac: Mac, most: nat)
    requires e.Handle? && Moved(p, ef, e.client, e.decision, e.env) && Tally(p, mac)
    ensures Tally(ef.pipe, mac)
    ensures Bounded(p, mac, most) && (e.client.mac == mac ==> p.quarantineAfter <= most)
            ==> Bounded(ef.pipe, mac, most)
  {
    if FreshMove(p, ef, e.client, e.decision, e.env) {
      FreshKeepsTally(p, ef, e, mac, most);
    }
  }

  lemma {:induction false} FreshKeepsTally(p: A.Pipe, ef: A.Effect, e: Event, mac: Mac, most: nat)
    requires e.Handle? && FreshMove(p, ef, e.client, e.decision, e.env) && Tally(p, mac)
    ensures Tally(ef.pipe, mac)
    ensures Bounded(p, mac, most) && (e.client.mac == mac ==> p.quarantineAfter <= most)
            ==> Bounded(ef.pipe, mac, most)
  {
    if e.client.mac != mac {
      assert mac in ef.pipe.pending.btm <==> mac in p.pending.btm;
    }
  }

  lemma {:induction false} StepKeepsTally(w: World, e: Event, next: World, i: nat, mac: Mac, most: nat)
    requires WorldMoves(w, e, next) && i < |next.pipes|
    requires forall j :: 0 <= j < |w.pipes| ==> Tally(w.pipes[j], mac)
    ensures Tally(next.pipes[i], mac)
    ensures (LimitInForce(w, e, mac, most) && forall j :: 0 <= j < |w.pipes| ==> Bounded(w.pipes[j], mac, most))
            ==> Bounded(next.pipes[i], mac, most)
  {
    assert PipeMoves(w, e, next, i);
    if e.Handle? && e.pipe == i {
      var ef :| HandledTo(w, e, next, ef);
      MoveKeepsTally(w.pipes[i], ef, e, mac, most);
    }
  }

  lemma {:induction false} RunKeepsTally(ws: seq<World>, events: seq<Event>, k: nat, mac: Mac, most: nat)
    requires MovesAlong(ws, events) && k < |ws| && AllBooted(ws[0])
    ensures forall i :: 0 <= i < |ws[k].pipes| ==> Tally(ws[k].pipes[i], mac)
    ensures (forall j :: 0 <= j < |events| ==> LimitInForce(ws[j], events[j], mac, most)) ==>
              forall i :: 0 <= i < |ws[k].pipes| ==> Bounded(ws[k].pipes[i], mac, most)
  {
    if k > 0 {
      RunKeepsTally(ws, events, k - 1, mac, most);
      forall i | 0 <= i < |ws[k].pipes|
        ensures Tally(ws[k].pipes[i], mac)
        ensures (forall j :: 0 <= j < |events| ==> LimitInForce(ws[j], events[j], mac, most)) ==>
                  Bounded(ws[k].pipes[i], mac, most)
      {
        StepKeepsTally(ws[k - 1], events[k - 1], ws[k], i, mac, most);
      }
    }
  }

  /** In every reachable world the quarantine counter equals the MAC's successful fresh calls,
      whatever fails and whatever is reloaded. */
  lemma {:induction false} KickCountIsFreshCalls(ws: seq<World>, events: seq<Event>, k: nat, i: nat, mac: Mac)
    requires Run(ws, events) && k < |ws| && i < |ws[k].pipes| && AllBooted(ws[0])
    ensures Count(ws[k].pipes[i], mac) == FreshCalls(ws[k].pipes[i].wire, mac)
  {
    RunMoves(ws, events);
    RunKeepsTally(ws, events, k, mac, 0);
  }

  ghost predicate AllRecorded(wire: seq<A.WireCall>) {
    forall k :: 0 <= k < |wire| ==> wire[k].recorded
  }

  lemma {:induction false} CallsSplit(wire: seq<A.WireCall>, mac: Mac)
    ensures CallsTo(wire, mac)
         == FreshCalls(wire, mac) + RecordedFallbacks(wire, mac) + UnrecordedFallbacks(wire, mac)
  {
    if wire != [] {
      CallsSplit(wire[..|wire| - 1], mac);
    }
  }

  lemma {:induction false} CallsAppend(wire: seq<A.WireCall>, call: A.WireCall, mac: Mac)
    ensures CallsTo(wire + [call], mac) == CallsTo(wire, mac) + (if call.mac == mac then 1 else 0)
  {
    assert (wire + [call])[..|wire|] == wire;
  }

  lemma {:induction false} RecordedLeavesNone(wire: seq<A.WireCall>, mac: Mac)
    requires AllRecorded(wire)
    ensures UnrecordedFallbacks(wire, mac) == 0
  {
    if wire != [] {
      RecordedLeavesNone(wire[..|wire| - 1], mac);
    }
  }

  /** With a quarantine limit of at most N >= 1 in force, one pipeline's lifetime gives a MAC
      at most N fresh calls and N - 1 recorded fallbacks: 2N - 1 calls in all, beyond its own
      fallbacks whose insert failed. */
  lemma {:induction false} QuarantineBoundsCalls(
      ws: seq<World>, events: seq<Event>, k: nat, i: nat, mac: Mac, most: nat)
    requires Run(ws, events) && k < |ws| && i < |ws[k].pipes| && AllBooted(ws[0]) && most >= 1
    requires forall j :: 0 <= j < |events| ==> LimitInForce(ws[j], events[j], mac, most)
    ensures var wire := ws[k].pipes[i].wire;
            && FreshCalls(wire, mac) <= most
            && RecordedFallbacks(wire, mac) <= most - 1
            && CallsTo(wire, mac) <= 2 * most - 1 + UnrecordedFallbacks(wire, mac)
            && (AllRecorded(wire) ==> CallsTo(wire, mac) <= 2 * most - 1)
  {
    RunMoves(ws, events);
    RunKeepsTally(ws, events, k, mac, most);
    var wire := ws[k].pipes[i].wire;
    CallsSplit(wire, mac);
    if AllRecorded(wire) {
      RecordedLeavesNone(wire, mac);
    }
  }

  /** A fallback is offered again exactly when its row could not be written: the pending BTM
      outlives the call. This is why only recorded fallbacks are bounded. */
  lemma {:induction false} FallbackRepeatsIffInsertFailed(p: A.Pipe, ef: A.Effect, e: Event)
    requires e.Handle? && FallbackMove(p, ef, e.client, e.decision, e.env)
    ensures A.FallsBack(ef.pipe, e.client) <==> !e.env.insertOk
    ensures !e.env.insertOk ==>
              ef.pipe.pending.btm[e.client.mac].group == p.pending.btm[e.client.mac].group
  {
  }

  /** After a fresh kick, the next handle of that client at that AP, a later poll's or another trigger's in
      the same scan cycle, sends the fallback exactly when a BTM was sent, the MAC is still below
      its limit, the single-flight minimum has passed since the BTM, and the call goes out. */
  lemma {:induction false} NextHandleFallsBackIff(
      p: A.Pipe, ef: A.Effect, e: Event, ledger: L.Rows, d: R.Decision, env: A.Env)
    requires e.Handle? && FreshMove(p, ef, e.client, e.decision, e.env) && e.env.monoRecord <= env.monoGate
    ensures FallbackMove(ef.pipe, A.HandleEffect(ef.pipe, ledger, e.client, d, env), e.client, d, env) <==>
            && !p.config.scanner.dryRun
            && Kind(p, e.client.mac).RowBtm? && Count(p, e.client.mac) + 1 < p.quarantineAfter
            && env.monoGate - e.env.monoRecord >= p.limiter.rails.minSecondsBetweenKicks && env.wireOk
  {
    HandleMoves(ef.pipe, ledger, e.client, d, env);
  }

  // ---- the global single-flight ----

  ghost predicate TimerTracksWire(p: A.Pipe) {
    p.limiter.lastKickAt == if p.wire == [] then None else Some(p.wire[|p.wire| - 1].at)
  }

  /** Every call is at least its own in-force spacing after every earlier one. */
  ghost predicate CallsSpaced(wire: seq<A.WireCall>) {
    forall i, k :: 0 <= i < k < |wire| ==> wire[k].at - wire[i].at >= wire[k].spacing
  }

  ghost predicate NoCallAfter(wire: seq<A.WireCall>, t: real) {
    forall k :: 0 <= k < |wire| ==> wire[k].at <= t
  }

  ghost predicate SingleFlight(p: A.Pipe, mono: real) {
    TimerTracksWire(p) && CallsSpaced(p.wire) && NoCallAfter(p.wire, mono)
  }

  lemma {:induction false} AppendKeepsSpacing(wire: seq<A.WireCall>, call: A.WireCall)
    requires CallsSpaced(wire)
    requires wire != [] ==> call.at - wire[|wire| - 1].at >= call.spacing
    ensures CallsSpaced(wire + [call])
  {
    var longer := wire + [call];
    forall i, k | 0 <= i < k < |longer| ensures longer[k].at - longer[i].at >= longer[k].spacing {
      if k == |wire| && i < |wire| - 1 {
        assert wire[|wire| - 1].at - wire[i].at >= wire[|wire| - 1].spacing;
      }
    }
  }

  lemma {:induction false} MoveKeepsSingleFlight(p: A.Pipe, ef: A.Effect, e: Event, mono: real)
    requires e.Handle? && Moved(p, ef, e.client, e.decision, e.env) && SingleFlight(p, mono)
    requires mono <= e.env.monoGate <= e.env.monoRecord
    ensures SingleFlight(ef.pipe, e.env.monoRecord)
  {
    if ef.pipe.wire != p.wire {
      assert RL.GlobalGate(p.limiter, e.env.monoGate).Open?;
      AppendKeepsSpacing(p.wire, ef.pipe.wire[|p.wire|]);
    }
  }

  lemma {:induction false} RunKeepsSingleFlight(ws: seq<World>, events: seq<Event>, k: nat)
    requires MovesAlong(ws, events) && ClocksAdvanceAlong(ws, events) && k < |ws| && AllBooted(ws[0])
    ensures forall i :: 0 <= i < |ws[k].pipes| ==> SingleFlight(ws[k].pipes[i], ws[k].mono)
  {
    if k > 0 {
      RunKeepsSingleFlight(ws, events, k - 1);
      var w, e, next := ws[k - 1], events[k - 1], ws[k];
      assert WorldMoves(w, e, next) && ClocksAdvance(w, e);
      forall i | 0 <= i < |next.pipes| ensures SingleFlight(next.pipes[i], next.mono) {
        assert PipeMoves(w, e, next, i);
        if e.Handle? && e.pipe == i {
          var ef :| HandledTo(w, e, next, ef);
          MoveKeepsSingleFlight(w.pipes[i], ef, e, w.mono);
        }
      }
    }
  }

  /** Under arbitrary reloads, every successful wire call of a pipeline, fresh or fallback, is
      at least the minimum then in force after every earlier one. */
  lemma {:induction false} WireCallsKeepTheirDistance(
      ws: seq<World>, events: seq<Event>, k: nat, i: nat, a: nat, b: nat)
    requires Run(ws, events) && ClocksAdvanceAlong(ws, events) && AllBooted(ws[0])
    requires k < |ws| && i < |ws[k].pipes| && a < b < |ws[k].pipes[i].wire|
    ensures var wire := ws[k].pipes[i].wire; wire[b].at - wire[a].at >= wire[b].spacing
  {
    RunMoves(ws, events);
    RunKeepsSingleFlight(ws, events, k);
    assert SingleFlight(ws[k].pipes[i], ws[k].mono);
  }
}
