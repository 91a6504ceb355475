/** Dry-run steps are inert: erasing them from a run changes nothing live, and their ledger
    rows are throttled. */
module DryRuns {
  import opened Config
  import opened World
  import WR = WireRuns
  import A = Actor
  import B = Backoff
  import L = Ledger
  import R = Rationale

  predicate IsDryStep(w: World, e: Event) {
    Acts(w, e) && ActingPipe(w, e).config.scanner.dryRun
  }

  /** Everything of a pipe but its dry-run throttle and history. */
  function LivePart(p: A.Pipe): A.Pipe { p.(dryLast := map[], dryWrites := []) }

  ghost predicate SameLive(w: World, v: World) {
    && |w.pipes| == |v.pipes|
    && (forall i :: 0 <= i < |w.pipes| ==> LivePart(w.pipes[i]) == LivePart(v.pipes[i]))
    && L.LiveRows(w.ledger) == L.LiveRows(v.ledger)
  }

  // ---- a dry step is invisible ----

  lemma {:induction false} DryHandleIsInvisible(p: A.Pipe, ledger: L.Rows, c: Client, d: R.Decision, env: A.Env)
    ensures var ef := A.DryHandle(p, c, d, env);
            LivePart(ef.pipe) == LivePart(p) && L.LiveRows(ledger + ef.rows) == L.LiveRows(ledger)
  {
    var ef := A.DryHandle(p, c, d, env);
    if ef.rows == [] {
      assert ledger + ef.rows == ledger;
    } else {
      assert ef.rows == [ef.rows[0]];
    }
  }

  lemma {:induction false} DryStepIsInvisible(w: World, e: Event)
    requires IsDryStep(w, e)
    ensures SameLive(Step(w, e), w)
  {
    var p := w.pipes[e.pipe];
    DryHandleIsInvisible(p, w.ledger, e.client, e.decision, e.env);
    assert EffectOf(w, e) == A.DryHandle(p, e.client, e.decision, e.env);
  }

  // ---- a live step sees only what is live ----

  lemma {:induction false} GateIgnoresDryRuns(l1: L.Rows, l2: L.Rows, mac: Mac, now: real, p: B.Policy)
    requires L.LiveRows(l1) == L.LiveRows(l2)
    ensures B.GateVerdict(l1, mac, now, p) == B.GateVerdict(l2, mac, now, p)
  {
    L.LogicalTsIgnoresDryRuns(l1, mac);
    L.LogicalTsIgnoresDryRuns(l2, mac);
    var since := now - B.Lookback(p);
    assert L.RecentKickTimestamps(l1, mac, since) == L.RecentKickTimestamps(l2, mac, since);
  }

  /** The same effect up to the throttle state. */
  ghost predicate SameEffect(a: A.Effect, b: A.Effect) {
    LivePart(a.pipe) == LivePart(b.pipe) && a.rows == b.rows && a.raised == b.raised
  }

  lemma {:induction false} FreshHandleIgnoresDryRuns(
      p: A.Pipe, q: A.Pipe, l1: L.Rows, l2: L.Rows, c: Client, d: R.Decision, env: A.Env)
    requires LivePart(p) == LivePart(q) && L.LiveRows(l1) == L.LiveRows(l2)
    ensures SameEffect(A.FreshHandle(p, l1, c, d, env), A.FreshHandle(q, l2, c, d, env))
  {
    GateIgnoresDryRuns(l1, l2, c.mac, env.wallGate, A.PolicyFor(c.mac, p.config));
    assert A.BackoffAllows(p, l1, c.mac, env.wallGate) == A.BackoffAllows(q, l2, c.mac, env.wallGate);
    FreshSendIgnoresDryRuns(p.(limiter := A.RL.AfterCanKick(p.limiter, c.apId, env.monoGate)),
                            q.(limiter := A.RL.AfterCanKick(q.limiter, c.apId, env.monoGate)), c, d, env);
  }

  lemma {:induction false} FreshSendIgnoresDryRuns(p: A.Pipe, q: A.Pipe, c: Client, d: R.Decision, env: A.Env)
    requires LivePart(p) == LivePart(q)
    ensures SameEffect(A.FreshSend(p, c, d, env), A.FreshSend(q, c, d, env))
  {
  }

  lemma {:induction false} FallbackIgnoresDryRuns(p: A.Pipe, q: A.Pipe, c: Client, d: R.Decision, env: A.Env)
    requires LivePart(p) == LivePart(q) && A.FallsBack(p, c) && A.FallsBack(q, c)
    ensures SameEffect(A.FallbackHandle(p, c, d, env), A.FallbackHandle(q, c, d, env))
  {
  }

  lemma {:induction false} QuarantineIgnoresDryRuns(p: A.Pipe, q: A.Pipe, mac: Mac, env: A.Env)
    requires LivePart(p) == LivePart(q)
    ensures SameEffect(A.QuarantineHandle(p, mac, env), A.QuarantineHandle(q, mac, env))
  {
  }

  lemma {:induction false} LiveHandleIgnoresDryRuns(
      p: A.Pipe, q: A.Pipe, l1: L.Rows, l2: L.Rows, c: Client, d: R.Decision, env: A.Env)
    requires LivePart(p) == LivePart(q) && L.LiveRows(l1) == L.LiveRows(l2)
    ensures SameEffect(A.LiveHandle(p, l1, c, d, env), A.LiveHandle(q, l2, c, d, env))
  {
    var t, u := A.Touched(p, c.mac), A.Touched(q, c.mac);
    assert LivePart(t) == LivePart(u);
    if A.Quarantined(p, c.mac) {
      QuarantineIgnoresDryRuns(t, u, c.mac, env);
    } else if A.FallsBack(t, c) {
      FallbackIgnoresDryRuns(t, u, c, d, env);
    } else {
      FreshHandleIgnoresDryRuns(t, u, l1, l2, c, d, env);
    }
  }

  lemma {:induction false} LiveRowsConcat(a: L.Rows, b: L.Rows)
    ensures L.LiveRows(a + b) == L.LiveRows(a) + L.LiveRows(b)
  {
    if b == [] {
      assert a + b == a;
    } else {
      var n := |b| - 1;
      LiveRowsConcat(a, b[..n]);
      assert a + b == (a + b[..n]) + [b[n]];
    }
  }

  lemma {:induction false} LiveStepRespectsErasure(w: World, v: World, e: Event)
    requires SameLive(w, v) && !IsDryStep(w, e)
    ensures SameLive(Step(w, e), Step(v, e))
  {
    if Acts(w, e) {
      var p, q := w.pipes[e.pipe], v.pipes[e.pipe];
      assert LivePart(p) == LivePart(q);
      LiveHandleIgnoresDryRuns(p, q, w.ledger, v.ledger, e.client, e.decision, e.env);
      LiveRowsConcat(w.ledger, EffectOf(w, e).rows);
      LiveRowsConcat(v.ledger, EffectOf(v, e).rows);
    } else if e.CheckOutcome? && e.pipe < |w.pipes| {
      assert LivePart(w.pipes[e.pipe]) == LivePart(v.pipes[e.pipe]);
    } else if e.Reload? {
      forall i | 0 <= i < |w.pipes|
        ensures LivePart(A.ReloadedPipe(w.pipes[i], e.config)) == LivePart(A.ReloadedPipe(v.pipes[i], e.config))
      {
        assert LivePart(w.pipes[i]) == LivePart(v.pipes[i]);
      }
    }
  }

  /** The first k events without the ones handled under dry run. */
  function Kept(ws: seq<World>, events: seq<Event>, k: nat): (r: seq<Event>)
    requires k <= |events| < |ws|
    ensures |r| <= k
  {
    if k == 0 then [] else
      Kept(ws, events, k - 1) + (if IsDryStep(ws[k - 1], events[k - 1]) then [] else [events[k - 1]])
  }

  lemma {:induction false} KeptGrows(ws: seq<World>, events: seq<Event>, k: nat, n: nat)
    requires k <= n <= |events| < |ws|
    ensures Kept(ws, events, k) <= Kept(ws, events, n)
  {
    if k < n {
      KeptGrows(ws, events, k, n - 1);
    }
  }

  /** The step on the erased side: none for a dry run, its own otherwise. */
  predicate ErasedStep(w: World, e: Event, v: World, after: World) {
    if IsDryStep(w, e) then after == v else StepsTo(v, e, after)
  }

  /** Worlds that agree go on agreeing. */
  ghost predicate Erases(w: World, e: Event, next: World) {
    forall v, after :: SameLive(w, v) && ErasedStep(w, e, v, after) ==> SameLive(next, after)
  }

  lemma {:induction false} StepErases(w: World, e: Event, next: World)
    requires StepsTo(w, e, next)
    ensures Erases(w, e, next)
  {
    forall v, after | SameLive(w, v) && ErasedStep(w, e, v, after) ensures SameLive(next, after) {
      if IsDryStep(w, e) {
        DryStepIsInvisible(w, e);
        SameLiveIsTransitive(next, w, v);
      } else {
        LiveStepRespectsErasure(w, v, e);
      }
    }
  }

  lemma {:induction false} SameLiveIsTransitive(u: World, w: World, v: World)
    requires SameLive(u, w) && SameLive(w, v)
    ensures SameLive(u, v)
  {
    forall i | 0 <= i < |u.pipes| ensures LivePart(u.pipes[i]) == LivePart(v.pipes[i]) {
      assert LivePart(u.pipes[i]) == LivePart(w.pipes[i]);
    }
  }

  lemma {:induction false} ErasedPrefixAgrees(ws: seq<World>, events: seq<Event>, vs: seq<World>, kept: seq<Event>, k: nat)
    requires |ws| == |events| + 1 && |vs| == |kept| + 1 && k <= |events|
    requires forall j :: 0 <= j < |events| ==> Erases(ws[j], events[j], ws[j + 1])
    requires forall j :: 0 < j <= |events| ==> KeptStep(ws, events, vs, j)
    requires SameLive(ws[0], vs[0])
    ensures |Kept(ws, events, k)| < |vs| && SameLive(ws[k], vs[|Kept(ws, events, k)|])
  {
    if k > 0 {
      ErasedPrefixAgrees(ws, events, vs, kept, k - 1);
      assert Erases(ws[k - 1], events[k - 1], ws[k]) && KeptStep(ws, events, vs, k);
    }
  }

  /** The k-th step, on the erased side. */
  ghost predicate KeptStep(ws: seq<World>, events: seq<Event>, vs: seq<World>, k: nat)
    requires 0 < k <= |events| < |ws|
  {
    var m, m' := |Kept(ws, events, k - 1)|, |Kept(ws, events, k)|;
    m < |vs| && m' < |vs| && ErasedStep(ws[k - 1], events[k - 1], vs[m], vs[m'])
  }

  lemma {:induction false} KeptSteps(ws: seq<World>, events: seq<Event>, vs: seq<World>, kept: seq<Event>, k: nat)
    requires Run(vs, kept) && 0 < k <= |events| < |ws| && Kept(ws, events, k) <= kept
    ensures KeptStep(ws, events, vs, k)
  {
    var m := |Kept(ws, events, k - 1)|;
    if !IsDryStep(ws[k - 1], events[k - 1]) {
      assert Kept(ws, events, k)[m] == events[k - 1] == kept[m];
      assert StepsTo(vs[m], kept[m], vs[m + 1]);
    }
  }

  /** Deleting every dry-run step from any run leaves the wire log, the live ledger rows, the
      in-flight maps, the kick counts, the rate limiter and the notices as they were. */
  lemma {:induction false} ErasingDryRunsChangesNothingLive(
      ws: seq<World>, events: seq<Event>, vs: seq<World>, kept: seq<Event>)
    requires Run(ws, events) && Run(vs, kept)
    requires vs[0] == ws[0] && kept == Kept(ws, events, |events|)
    ensures SameLive(ws[|events|], vs[|kept|])
  {
    forall j | 0 <= j < |events| ensures Erases(ws[j], events[j], ws[j + 1]) {
      assert StepsTo(ws[j], events[j], ws[j + 1]);
      StepErases(ws[j], events[j], ws[j + 1]);
    }
    forall j | 0 < j <= |events| ensures KeptStep(ws, events, vs, j) {
      KeptGrows(ws, events, j, |events|);
      KeptSteps(ws, events, vs, kept, j);
    }
    ErasedPrefixAgrees(ws, events, vs, kept, |events|);
  }

  // ---- the throttle ----

  /** Dry-run writes for one MAC are spaced, and the throttle map remembers the newest. */
  ghost predicate WritesSpaced(p: A.Pipe) {
    && (forall i, j :: 0 <= i < j < |p.dryWrites| && p.dryWrites[i].mac == p.dryWrites[j].mac ==>
          p.dryWrites[j].at - p.dryWrites[i].at >= p.dryWrites[j].interval)
    && (forall i :: 0 <= i < |p.dryWrites| ==>
          p.dryWrites[i].mac in p.dryLast && p.dryWrites[i].at <= p.dryLast[p.dryWrites[i].mac])
  }

  lemma {:induction false} LiveHandleKeepsThrottle(p: A.Pipe, ledger: L.Rows, c: Client, d: R.Decision, env: A.Env)
    ensures var q := A.LiveHandle(p, ledger, c, d, env).pipe;
            q.dryLast == p.dryLast && q.dryWrites == p.dryWrites
  {
    var t := A.Touched(p, c.mac);
    FreshHandleKeepsThrottle(t, ledger, c, d, env);
  }

  lemma {:induction false} FreshHandleKeepsThrottle(p: A.Pipe, ledger: L.Rows, c: Client, d: R.Decision, env: A.Env)
    ensures var q := A.FreshHandle(p, ledger, c, d, env).pipe;
            q.dryLast == p.dryLast && q.dryWrites == p.dryWrites
  {
  }

  lemma {:induction false} HandleKeepsWritesSpaced(p: A.Pipe, ledger: L.Rows, c: Client, d: R.Decision, env: A.Env)
    requires WritesSpaced(p)
    ensures WritesSpaced(A.HandleEffect(p, ledger, c, d, env).pipe)
  {
    if !p.config.scanner.dryRun {
      LiveHandleKeepsThrottle(p, ledger, c, d, env);
    }
  }

  lemma {:induction false} RunKeepsWritesSpaced(ws: seq<World>, events: seq<Event>, k: nat)
    requires Run(ws, events) && k < |ws| && WR.AllBooted(ws[0])
    ensures forall i :: 0 <= i < |ws[k].pipes| ==> WritesSpaced(ws[k].pipes[i])
  {
    if k > 0 {
      RunKeepsWritesSpaced(ws, events, k - 1);
      var w, e := ws[k - 1], events[k - 1];
      assert StepsTo(w, e, ws[k]);
      if Acts(w, e) {
        HandleKeepsWritesSpaced(w.pipes[e.pipe], w.ledger, e.client, e.decision, e.env);
      }
    }
  }

  /** In every run the dry-run writes of one MAC in one pipeline's lifetime are at least the
      throttle interval then in force apart. */
  lemma {:induction false} DryRunWritesAreThrottled(
      ws: seq<World>, events: seq<Event>, k: nat, i: nat, a: nat, b: nat)
    requires Run(ws, events) && WR.AllBooted(ws[0]) && k < |ws| && i < |ws[k].pipes|
    requires a < b < |ws[k].pipes[i].dryWrites|
    requires ws[k].pipes[i].dryWrites[a].mac == ws[k].pipes[i].dryWrites[b].mac
    ensures var writes := ws[k].pipes[i].dryWrites; writes[b].at - writes[a].at >= writes[b].interval
  {
    RunKeepsWritesSpaced(ws, events, k);
    assert WritesSpaced(ws[k].pipes[i]);
  }

  // ---- exactly which dry runs are written ----

  /** The first rung of the ladder, or five minutes without one. */
  function Throttle(config: Config): Seconds {
    if |config.backoff.cooldowns| > 0 then config.backoff.cooldowns[0] else 300.0
  }

  /** When the pipeline last wrote a dry-run row of this MAC. */
  function LastWrite(writes: seq<A.DryWrite>, mac: Mac): Option<real> {
    if writes == [] then None
    else if writes[|writes| - 1].mac == mac then Some(writes[|writes| - 1].at)
    else LastWrite(writes[..|writes| - 1], mac)
  }

  lemma {:induction false} LastWriteAppend(writes: seq<A.DryWrite>, write: A.DryWrite, mac: Mac)
    ensures LastWrite(writes + [write], mac) == if write.mac == mac then Some(write.at) else LastWrite(writes, mac)
  {
    assert (writes + [write])[..|writes|] == writes;
  }

  /** The throttle map is the newest write of each MAC. */
  ghost predicate ThrottleRemembers(p: A.Pipe) {
    forall mac :: (if mac in p.dryLast then Some(p.dryLast[mac]) else None) == LastWrite(p.dryWrites, mac)
  }

  /** What a handle writes as a dry run: nothing while live, and nothing within the throttle. */
  function DryWritesOf(p: A.Pipe, c: Client, env: A.Env): seq<A.DryWrite> {
    var last := LastWrite(p.dryWrites, c.mac);
    if p.config.scanner.dryRun && (last.None? || env.wallGate - last.value >= Throttle(p.config))
    then [A.DryWrite(c.mac, env.wallGate, Throttle(p.config), env.wallRow, env.insertOk)] else []
  }

  lemma {:induction false} DryHandleWrites(p: A.Pipe, c: Client, d: R.Decision, env: A.Env)
    requires ThrottleRemembers(p) && p.config.scanner.dryRun
    ensures var next := A.DryHandle(p, c, d, env).pipe;
            next.dryWrites == p.dryWrites + DryWritesOf(p, c, env) && ThrottleRemembers(next)
  {
    var next := A.DryHandle(p, c, d, env).pipe;
    assert p.dryWrites + [] == p.dryWrites;
    assert (if c.mac in p.dryLast then Some(p.dryLast[c.mac]) else None) == LastWrite(p.dryWrites, c.mac);
    forall mac ensures next.dryWrites == p.dryWrites + DryWritesOf(p, c, env)
                    && (if mac in next.dryLast then Some(next.dryLast[mac]) else None) == LastWrite(next.dryWrites, mac)
    {
      LastWriteAppend(p.dryWrites, A.DryWrite(c.mac, env.wallGate, Throttle(p.config), env.wallRow, env.insertOk), mac);
    }
  }

  lemma {:induction false} HandleWrites(p: A.Pipe, ledger: L.Rows, c: Client, d: R.Decision, env: A.Env)
    requires ThrottleRemembers(p)
    ensures var next := A.HandleEffect(p, ledger, c, d, env).pipe;
            next.dryWrites == p.dryWrites + DryWritesOf(p, c, env) && ThrottleRemembers(next)
  {
    if p.config.scanner.dryRun {
      DryHandleWrites(p, c, d, env);
    } else {
      assert p.dryWrites + [] == p.dryWrites;
      LiveHandleKeepsThrottle(p, ledger, c, d, env);
    }
  }

  lemma {:induction false} RunRemembersThrottle(ws: seq<World>, events: seq<Event>, k: nat)
    requires Run(ws, events) && k < |ws| && WR.AllBooted(ws[0])
    ensures forall i :: 0 <= i < |ws[k].pipes| ==> ThrottleRemembers(ws[k].pipes[i])
  {
    if k > 0 {
      RunRemembersThrottle(ws, events, k - 1);
      var w, e := ws[k - 1], events[k - 1];
      assert StepsTo(w, e, ws[k]);
      if Acts(w, e) {
        HandleWrites(w.pipes[e.pipe], w.ledger, e.client, e.decision, e.env);
      }
    }
  }

  /** In every run a handle writes a dry-run row if and only if its pipeline is in dry-run mode and
      has not written one of the MAC within its first cooldown, or five minutes if it has no ladder. */
  lemma {:induction false} DryRunWritesIff(ws: seq<World>, events: seq<Event>, k: nat)
    requires Run(ws, events) && WR.AllBooted(ws[0]) && k < |events| && Acts(ws[k], events[k])
    ensures events[k].pipe < |ws[k + 1].pipes|
    ensures var p := ActingPipe(ws[k], events[k]);
            ws[k + 1].pipes[events[k].pipe].dryWrites == p.dryWrites + DryWritesOf(p, events[k].client, events[k].env)
  {
    assert StepsTo(ws[k], events[k], ws[k + 1]);
    RunRemembersThrottle(ws, events, k);
    HandleWrites(ActingPipe(ws[k], events[k]), ws[k].ledger, events[k].client, events[k].decision, events[k].env);
  }
}
