/** How many wire calls a MAC can get in a closed hour or day, fallbacks included. */
module HourRuns {
  import opened Config
  import opened Windows
  import opened World
  import opened Moves
  import A = Actor
  import L = Ledger
  import LR = LedgerRuns
  import RR = RecordRuns

  /** This MAC's fallback rows. */
  function FallbackTs(rows: L.Rows, mac: Mac): seq<real> {
    if rows == [] then [] else
      var last := rows[|rows| - 1];
      FallbackTs(rows[..|rows| - 1], mac)
      + (if last.mac == mac && !last.dryRun && last.mechanism.RowFallback? then [last.ts] else [])
  }

  /** All its live rows: with inserts succeeding, one for every wire call. */
  function LiveTs(rows: L.Rows, mac: Mac): seq<real> {
    if rows == [] then [] else
      var last := rows[|rows| - 1];
      LiveTs(rows[..|rows| - 1], mac) + (if last.mac == mac && !last.dryRun then [last.ts] else [])
  }

  lemma {:induction false} LiveIsLogicalOrFallback(rows: L.Rows, mac: Mac, lo: real, hi: real)
    ensures CountIn(LiveTs(rows, mac), lo, hi)
         == CountIn(L.LogicalTs(rows, mac), lo, hi) + CountIn(FallbackTs(rows, mac), lo, hi)
  {
    if rows != [] {
      var n := |rows| - 1;
      LiveIsLogicalOrFallback(rows[..n], mac, lo, hi);
      CountInAppend(LiveTs(rows[..n], mac), rows[n].ts, lo, hi);
      CountInAppend(L.LogicalTs(rows[..n], mac), rows[n].ts, lo, hi);
      CountInAppend(FallbackTs(rows[..n], mac), rows[n].ts, lo, hi);
    }
  }

  /** In how many pipes a BTM of this MAC waits. */
  function Waiting(pipes: seq<A.Pipe>, mac: Mac): (n: nat)
    ensures n <= |pipes|
  {
    if pipes == [] then 0 else
      Waiting(pipes[..|pipes| - 1], mac) + (if mac in pipes[|pipes| - 1].pending.btm then 1 else 0)
  }

  function Waits(p: A.Pipe, mac: Mac): nat { if mac in p.pending.btm then 1 else 0 }

  lemma {:induction false} WaitingUpdate(pipes: seq<A.Pipe>, i: nat, p: A.Pipe, mac: Mac)
    requires i < |pipes|
    ensures Waiting(pipes[i := p], mac) + Waits(pipes[i], mac) == Waiting(pipes, mac) + Waits(p, mac)
  {
    var n := |pipes| - 1;
    if i < n {
      WaitingUpdate(pipes[..n], i, p, mac);
      assert pipes[i := p][..n] == pipes[..n][i := p];
    } else {
      assert pipes[i := p][..n] == pipes[..n];
    }
  }

  lemma {:induction false} WaitingSame(a: seq<A.Pipe>, b: seq<A.Pipe>, mac: Mac)
    requires |a| == |b| && forall i :: 0 <= i < |a| ==> Waits(a[i], mac) == Waits(b[i], mac)
    ensures Waiting(a, mac) == Waiting(b, mac)
  {
    if a != [] {
      WaitingSame(a[..|a| - 1], b[..|b| - 1], mac);
    }
  }

  lemma {:induction false} NoneWaits(pipes: seq<A.Pipe>, mac: Mac)
    requires forall i :: 0 <= i < |pipes| ==> Waits(pipes[i], mac) == 0
    ensures Waiting(pipes, mac) == 0
  {
    if pipes != [] {
      NoneWaits(pipes[..|pipes| - 1], mac);
    }
  }

  // ---- one step ----

  lemma {:induction false} RowsGrow(ledger: L.Rows, rows: L.Rows, mac: Mac)
    requires |rows| <= 1
    ensures L.LogicalTs(ledger + rows, mac) == L.LogicalTs(ledger, mac)
            + (if rows != [] && rows[0].mac == mac && L.IsLogical(rows[0]) then [rows[0].ts] else [])
    ensures FallbackTs(ledger + rows, mac) == FallbackTs(ledger, mac)
            + (if rows != [] && rows[0].mac == mac && !rows[0].dryRun && rows[0].mechanism.RowFallback?
               then [rows[0].ts] else [])
  {
    LR.LogicalOfAppended(ledger, rows, mac);
    if rows == [] {
      assert ledger + rows == ledger;
    } else {
      assert rows == [rows[0]] && (ledger + rows)[..|ledger|] == ledger;
    }
  }

  /** A kick may start a BTM's wait; only the end of a wait writes a fallback row. */
  ghost predicate Ebbs(w: World, next: World, mac: Mac) {
    var logical, fallbacks := L.LogicalTs(w.ledger, mac), FallbackTs(w.ledger, mac);
    var logical', fallbacks' := L.LogicalTs(next.ledger, mac), FallbackTs(next.ledger, mac);
    var waiting, waiting' := Waiting(w.pipes, mac), Waiting(next.pipes, mac);
    && w.wall <= next.wall
    && (|| (logical' == logical && fallbacks' == fallbacks && waiting' <= waiting)
        || (logical' == logical + [next.wall] && fallbacks' == fallbacks && waiting' <= waiting + 1)
        || (logical' == logical && fallbacks' == fallbacks + [next.wall] && waiting' + 1 == waiting))
  }

  predicate Inserts(e: Event) { e.Handle? ==> e.env.insertOk }

  /** What one move adds to this MAC's rows, and does to its wait. */
  ghost predicate MoveAdds(p: A.Pipe, ef: A.Effect, ledger: L.Rows, t: real, mac: Mac) {
    var logical, fallbacks := L.LogicalTs(ledger, mac), FallbackTs(ledger, mac);
    var logical', fallbacks' := L.LogicalTs(ledger + ef.rows, mac), FallbackTs(ledger + ef.rows, mac);
    || (logical' == logical && fallbacks' == fallbacks && Waits(ef.pipe, mac) == Waits(p, mac))
    || (logical' == logical + [t] && fallbacks' == fallbacks)
    || (logical' == logical && fallbacks' == fallbacks + [t] && Waits(ef.pipe, mac) + 1 == Waits(p, mac))
  }

  lemma {:induction false} FreshAdds(p: A.Pipe, ef: A.Effect, ledger: L.Rows, e: Event, mac: Mac)
    requires e.Handle? && e.env.insertOk && FreshMove(p, ef, e.client, e.decision, e.env)
    ensures MoveAdds(p, ef, ledger, e.env.wallRow, mac)
  {
    RowsGrow(ledger, ef.rows, mac);
    assert ef.rows == [A.FreshRow(e.client, e.decision, p.config, e.env)];
    if e.client.mac != mac {
      assert mac in ef.pipe.pending.btm <==> mac in p.pending.btm;
    }
  }

  lemma {:induction false} MoveDoesAdd(p: A.Pipe, ef: A.Effect, ledger: L.Rows, e: Event, mac: Mac)
    requires e.Handle? && e.env.insertOk && Moved(p, ef, e.client, e.decision, e.env)
    ensures MoveAdds(p, ef, ledger, e.env.wallRow, mac)
  {
    if FreshMove(p, ef, e.client, e.decision, e.env) {
      FreshAdds(p, ef, ledger, e, mac);
    } else {
      RowsGrow(ledger, ef.rows, mac);
    }
  }

  lemma {:induction false} StepEbbs(w: World, e: Event, mac: Mac)
    requires ClocksAdvance(w, e) && Inserts(e)
    ensures Ebbs(w, Step(w, e), mac)
  {
    var next := Step(w, e);
    match e
    case Handle(i, c, d, env) =>
      if i < |w.pipes| {
        var ef := EffectOf(w, e);
        HandleMoves(w.pipes[i], w.ledger, c, d, env);
        MoveDoesAdd(w.pipes[i], ef, w.ledger, e, mac);
        WaitingUpdate(w.pipes, i, ef.pipe, mac);
      }
    case CheckOutcome(i, c) =>
      if i < |w.pipes| {
        WaitingUpdate(w.pipes, i, A.Checked(w.pipes[i], c), mac);
      }
    case Reload(config) => WaitingSame(next.pipes, w.pipes, mac);
    case Restart(_, _, _, _) => NoneWaits(next.pipes, mac);
  }

  // ---- whole runs ----

  /** In [lo, hi] a fallback row either follows its kick's row, or ends a wait that was there
      when the window opened: no more than one a pipe. */
  ghost predicate Owed(w: World, mac: Mac, pipes: nat, lo: real, hi: real) {
    var fallbacks := CountIn(FallbackTs(w.ledger, mac), lo, hi);
    var logical := CountIn(L.LogicalTs(w.ledger, mac), lo, hi);
    && fallbacks <= logical + pipes
    && (w.wall <= hi ==> fallbacks + Waiting(w.pipes, mac) <= logical + pipes)
    && (w.wall < lo ==> fallbacks == 0)
  }

  lemma {:induction false} EbbKeepsOwed(w: World, next: World, mac: Mac, pipes: nat, lo: real, hi: real)
    requires Ebbs(w, next, mac) && Owed(w, mac, pipes, lo, hi) && |next.pipes| <= pipes
    ensures Owed(next, mac, pipes, lo, hi)
  {
    CountInAppend(L.LogicalTs(w.ledger, mac), next.wall, lo, hi);
    CountInAppend(FallbackTs(w.ledger, mac), next.wall, lo, hi);
  }

  lemma {:induction false} RunKeepsOwed(
      ws: seq<World>, k: nat, mac: Mac, pipes: nat, lo: real, hi: real)
    requires k < |ws| && ws[0].ledger == []
    requires forall j :: 0 <= j < |ws| ==> |ws[j].pipes| <= pipes
    requires forall j :: 0 < j < |ws| ==> Ebbs(ws[j - 1], ws[j], mac)
    ensures Owed(ws[k], mac, pipes, lo, hi)
  {
    if k > 0 {
      RunKeepsOwed(ws, k - 1, mac, pipes, lo, hi);
      EbbKeepsOwed(ws[k - 1], ws[k], mac, pipes, lo, hi);
    }
  }

  lemma {:induction false} FallbacksFollowKicks(
      ws: seq<World>, events: seq<Event>, k: nat, mac: Mac, pipes: nat, lo: real, hi: real)
    requires Run(ws, events) && ClocksAdvanceAlong(ws, events) && ws[0].ledger == [] && k < |ws|
    requires forall j :: 0 <= j < |ws| ==> |ws[j].pipes| <= pipes
    requires forall j :: 0 <= j < |events| ==> Inserts(events[j])
    ensures CountIn(FallbackTs(ws[k].ledger, mac), lo, hi)
         <= CountIn(L.LogicalTs(ws[k].ledger, mac), lo, hi) + pipes
  {
    forall j | 0 < j < |ws| ensures Ebbs(ws[j - 1], ws[j], mac) {
      assert StepsTo(ws[j - 1], events[j - 1], ws[j]);
      StepEbbs(ws[j - 1], events[j - 1], mac);
    }
    RunKeepsOwed(ws, k, mac, pipes, lo, hi);
  }

  /** In every run from an empty ledger in which no insert fails, so that every wire call has its
      row, every closed hour (day) holds at most twice the cap's number of calls to a MAC, and
      one more for each pipeline: the fallbacks it may have been waiting for when the window
      opened. The caps do not look at fallbacks at all. */
  lemma {:induction false} EveryWindowHoldsTheCalls(
      ws: seq<World>, events: seq<Event>, k: nat, mac: Mac, cap: LR.Cap, most: nat, pipes: nat, lo: real, hi: real)
    requires Run(ws, events) && ClocksAdvanceAlong(ws, events) && ws[0].ledger == [] && k < |ws| && most > 0
    requires forall j :: 0 <= j < |ws| ==> |ws[j].pipes| <= pipes
    requires forall j :: 0 <= j < |events| ==> Inserts(events[j]) && LR.CapInForce(ws[j], events[j], mac, cap, most)
    requires hi <= lo + LR.Span(cap)
    ensures RR.LiveKeys(ws[k].ledger) == RR.CallKeys(RR.Sent(ws, events, k))
    ensures CountIn(LiveTs(ws[k].ledger, mac), lo, hi) <= 2 * most + pipes
  {
    assert forall j :: 0 <= j < |events| ==> Inserts(events[j]);
    RR.InsertsSucceedingRecordAll(ws, events, k);
    LR.EveryWindowHoldsTheCap(ws, events, k, mac, cap, most);
    FallbacksFollowKicks(ws, events, k, mac, pipes, lo, hi);
    LiveIsLogicalOrFallback(ws[k].ledger, mac, lo, hi);
  }
}
