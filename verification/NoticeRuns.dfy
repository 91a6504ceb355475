/** Who is told what, over whole runs: one quarantine notice a MAC and pipeline, and one notice a
    recorded fresh kick. */
module NoticeRuns {
  import opened Config
  import opened World
  import opened Moves
  import AR = AdmissionRuns
  import A = Actor
  import B = Backoff
  import DR = DryRuns
  import L = Ledger
  import LR = LedgerRuns
  import R = Rationale
  import RL = RateLimit
  import WR = WireRuns
  import XR = WindowRuns

  function QuarantineNotices(notices: seq<A.Notice>, mac: Mac): nat {
    if notices == [] then 0 else
      QuarantineNotices(notices[..|notices| - 1], mac)
      + (if notices[|notices| - 1] == A.Notice(mac, A.QuarantineNotice) then 1 else 0)
  }

  lemma {:induction false} QuarantineNoticesAppend(notices: seq<A.Notice>, notice: A.Notice, mac: Mac)
    ensures QuarantineNotices(notices + [notice], mac)
         == QuarantineNotices(notices, mac) + (if notice == A.Notice(mac, A.QuarantineNotice) then 1 else 0)
    ensures QuarantineNotices(notices + [], mac) == QuarantineNotices(notices, mac)
  {
    assert (notices + [notice])[..|notices|] == notices && notices + [] == notices;
  }

  function Notified(p: A.Pipe, mac: Mac): bool { B.Entry(p.states, mac).quarantineNotified }

  /** A live handle of a MAC past its limit that has not been announced. */
  predicate Announces(p: A.Pipe, c: Client, env: A.Env) {
    !p.config.scanner.dryRun && A.Quarantined(p, c.mac) && p.notifier && !Notified(p, c.mac) && env.notifyOk
  }

  function NoticesOf(p: A.Pipe, ledger: L.Rows, c: Client, env: A.Env): seq<A.Notice> {
    if Announces(p, c, env) then [A.Notice(c.mac, A.QuarantineNotice)]
    else if AR.FreshAdmitted(p, ledger, c, env) && env.insertOk && p.notifier && env.notifyOk
    then [A.Notice(c.mac, A.KickNotice)] else []
  }

  /** The notices a handle sends, and the announcements it remembers. */
  ghost predicate Tells(p: A.Pipe, ledger: L.Rows, c: Client, env: A.Env, next: A.Pipe) {
    && next.notices == p.notices + NoticesOf(p, ledger, c, env)
    && forall mac :: Notified(next, mac) == (Notified(p, mac) || (mac == c.mac && Announces(p, c, env)))
  }

  lemma {:induction false} FallbackTellsNobody(p: A.Pipe, c: Client, d: R.Decision, env: A.Env)
    requires A.FallsBack(p, c)
    ensures var next := A.FallbackHandle(p, c, d, env).pipe;
            next.notices == p.notices && next.states == p.states
  {
  }

  lemma {:induction false} SendTells(p: A.Pipe, c: Client, d: R.Decision, env: A.Env)
    ensures var next := A.FreshSend(p, c, d, env).pipe;
            && next.notices == p.notices + (if env.wireOk && env.insertOk && p.notifier && env.notifyOk
                                            then [A.Notice(c.mac, A.KickNotice)] else [])
            && forall mac :: Notified(next, mac) == Notified(p, mac)
  {
    assert p.notices + [] == p.notices;
  }

  lemma {:induction false} FreshTells(p: A.Pipe, ledger: L.Rows, c: Client, d: R.Decision, env: A.Env)
    requires !p.config.scanner.dryRun && !A.Quarantined(p, c.mac) && !A.FallsBack(p, c)
    ensures Tells(p, ledger, c, env, A.FreshHandle(p, ledger, c, d, env).pipe)
  {
    assert p.notices + [] == p.notices;
    SendTells(p.(limiter := RL.AfterCanKick(p.limiter, c.apId, env.monoGate)), c, d, env);
  }

  lemma {:induction false} QuarantineTells(p: A.Pipe, ledger: L.Rows, c: Client, env: A.Env)
    requires !p.config.scanner.dryRun && A.Quarantined(p, c.mac)
    ensures Tells(p, ledger, c, env, A.QuarantineHandle(p, c.mac, env).pipe)
  {
    assert p.notices + [] == p.notices;
  }

  lemma {:induction false} DryTellsNobody(p: A.Pipe, ledger: L.Rows, c: Client, d: R.Decision, env: A.Env)
    requires p.config.scanner.dryRun
    ensures Tells(p, ledger, c, env, A.DryHandle(p, c, d, env).pipe)
  {
    assert p.notices + [] == p.notices;
  }

  lemma {:induction false} TouchedTells(p: A.Pipe, ledger: L.Rows, c: Client, env: A.Env, next: A.Pipe)
    requires Tells(A.Touched(p, c.mac), ledger, c, env, next)
    ensures Tells(p, ledger, c, env, next)
  {
    AR.TouchedAdmits(p, ledger, c, env);
  }

  lemma {:induction false} LiveTells(p: A.Pipe, ledger: L.Rows, c: Client, d: R.Decision, env: A.Env)
    requires !p.config.scanner.dryRun && !A.Quarantined(p, c.mac)
    ensures Tells(p, ledger, c, env, (if A.FallsBack(p, c) then A.FallbackHandle(p, c, d, env)
                                      else A.FreshHandle(p, ledger, c, d, env)).pipe)
  {
    if A.FallsBack(p, c) {
      FallbackTellsNobody(p, c, d, env);
      assert p.notices + [] == p.notices;
    } else {
      FreshTells(p, ledger, c, d, env);
    }
  }

  lemma {:induction false} HandleTells(p: A.Pipe, ledger: L.Rows, c: Client, d: R.Decision, env: A.Env)
    ensures Tells(p, ledger, c, env, A.HandleEffect(p, ledger, c, d, env).pipe)
  {
    var t := A.Touched(p, c.mac);
    if p.config.scanner.dryRun {
      DryTellsNobody(p, ledger, c, d, env);
    } else {
      if A.Quarantined(p, c.mac) {
        QuarantineTells(t, ledger, c, env);
      } else {
        LiveTells(t, ledger, c, d, env);
      }
      TouchedTells(p, ledger, c, env, A.HandleEffect(p, ledger, c, d, env).pipe);
    }
  }

  /** A kick notice goes out exactly with a fresh call whose row was written. */
  lemma {:induction false} KickIsToldIff(p: A.Pipe, ledger: L.Rows, c: Client, d: R.Decision, env: A.Env)
    ensures var next := A.HandleEffect(p, ledger, c, d, env).pipe;
            next.notices == p.notices + [A.Notice(c.mac, A.KickNotice)] <==>
            && |next.wire| == |p.wire| + 1 && !next.wire[|p.wire|].kind.RowFallback? && next.wire[|p.wire|].recorded
            && p.notifier && env.notifyOk
  {
    HandleTells(p, ledger, c, d, env);
    AR.HandleAdds(p, ledger, c, d, env);
    var told, added := NoticesOf(p, ledger, c, env), [A.Notice(c.mac, A.KickNotice)];
    assert (p.notices + told)[|p.notices|..] == told && (p.notices + added)[|p.notices|..] == added;
  }

  // ---- whole runs ----

  /** What is remembered of a MAC's announcement is whether it went out, and it went out once. */
  ghost predicate AnnouncedOnce(p: A.Pipe, mac: Mac) {
    QuarantineNotices(p.notices, mac) == if Notified(p, mac) then 1 else 0
  }

  lemma {:induction false} TellingKeepsOnce(p: A.Pipe, ledger: L.Rows, c: Client, env: A.Env, next: A.Pipe, mac: Mac)
    requires Tells(p, ledger, c, env, next) && AnnouncedOnce(p, mac)
    ensures AnnouncedOnce(next, mac)
  {
    QuarantineNoticesAppend(p.notices, A.Notice(c.mac, if Announces(p, c, env) then A.QuarantineNotice else A.KickNotice), mac);
  }

  lemma {:induction false} StepKeepsOnce(w: World, e: Event, i: nat, mac: Mac)
    requires forall j :: 0 <= j < |w.pipes| ==> AnnouncedOnce(w.pipes[j], mac)
    requires i < |Step(w, e).pipes|
    ensures AnnouncedOnce(Step(w, e).pipes[i], mac)
  {
    if Acts(w, e) && e.pipe == i {
      HandleTells(w.pipes[i], w.ledger, e.client, e.decision, e.env);
      TellingKeepsOnce(w.pipes[i], w.ledger, e.client, e.env, Step(w, e).pipes[i], mac);
    }
  }

  lemma {:induction false} RunAnnouncesOnce(ws: seq<World>, events: seq<Event>, k: nat, mac: Mac)
    requires Run(ws, events) && WR.AllBooted(ws[0]) && k < |ws|
    ensures forall i :: 0 <= i < |ws[k].pipes| ==> AnnouncedOnce(ws[k].pipes[i], mac)
  {
    if k > 0 {
      RunAnnouncesOnce(ws[..k], events[..k - 1], k - 1, mac);
      assert StepsTo(ws[k - 1], events[k - 1], ws[k]);
      forall i | 0 <= i < |ws[k].pipes| ensures AnnouncedOnce(ws[k].pipes[i], mac) {
        StepKeepsOnce(ws[k - 1], events[k - 1], i, mac);
      }
    }
  }

  /** A MAC's handle finds the pipeline live and its fresh calls at the limit. */
  ghost predicate PastLimit(p: A.Pipe, mac: Mac) {
    !p.config.scanner.dryRun && WR.FreshCalls(p.wire, mac) >= p.config.backoff.quarantineAfterKicks
  }

  /** In every run a pipeline announces a MAC's quarantine at most once, and exactly then: at a live
      handle that finds the MAC's fresh calls at the limit and no announcement sent before, if there
      is somebody to tell and the notification comes through. */
  lemma {:induction false} QuarantineIsToldOnce(ws: seq<World>, events: seq<Event>, k: nat)
    requires Run(ws, events) && WR.AllBooted(ws[0]) && k < |events| && Acts(ws[k], events[k])
    ensures events[k].pipe < |ws[k + 1].pipes|
    ensures var p, next := ActingPipe(ws[k], events[k]), ws[k + 1].pipes[events[k].pipe];
            var mac := events[k].client.mac;
            && QuarantineNotices(next.notices, mac) <= 1
            && (QuarantineNotices(next.notices, mac) != QuarantineNotices(p.notices, mac) <==>
                  && PastLimit(p, mac) && QuarantineNotices(p.notices, mac) == 0
                  && p.notifier && events[k].env.notifyOk)
  {
    var e := events[k];
    var p, next := ActingPipe(ws[k], e), Step(ws[k], e).pipes[e.pipe];
    assert StepsTo(ws[k], e, ws[k + 1]);
    RunMoves(ws, events);
    AR.RunKeepsKnobs(ws, events, k);
    WR.KickCountIsFreshCalls(ws, events, k, e.pipe, e.client.mac);
    RunAnnouncesOnce(ws, events, k, e.client.mac);
    assert AnnouncedOnce(p, e.client.mac);
    HandleTells(p, ws[k].ledger, e.client, e.decision, e.env);
    TellingKeepsOnce(p, ws[k].ledger, e.client, e.env, next, e.client.mac);
  }

  // ---- when a handle raises ----

  /** Some call this handle makes does not come through: the insert of a dry-run row, the
      announcement, or the wire call, insert or notice of a kick or fallback. */
  predicate CallFails(p: A.Pipe, ledger: L.Rows, c: Client, env: A.Env) {
    || (DR.DryWritesOf(p, c, env) != [] && !env.insertOk)
    || (Announces(p, c, env.(notifyOk := true)) && !env.notifyOk)
    || (AR.FreshAdmitted(p, ledger, c, env.(wireOk := true))
        && !(env.wireOk && env.insertOk && (p.notifier ==> env.notifyOk)))
    || (AR.FallbackAdmitted(p, c, env.(wireOk := true)) && !(env.wireOk && env.insertOk))
  }

  lemma {:induction false} FallbackRaisesIff(p: A.Pipe, c: Client, d: R.Decision, env: A.Env)
    requires !p.config.scanner.dryRun && !A.Quarantined(p, c.mac) && A.FallsBack(p, c)
    ensures A.FallbackHandle(p, c, d, env).raised <==>
              AR.FallbackAdmitted(p, c, env.(wireOk := true)) && !(env.wireOk && env.insertOk)
  {
  }

  lemma {:induction false} FreshRaisesIff(p: A.Pipe, ledger: L.Rows, c: Client, d: R.Decision, env: A.Env)
    requires !p.config.scanner.dryRun && !A.Quarantined(p, c.mac) && !A.FallsBack(p, c)
    ensures A.FreshHandle(p, ledger, c, d, env).raised <==>
              AR.FreshAdmitted(p, ledger, c, env.(wireOk := true))
              && !(env.wireOk && env.insertOk && (p.notifier ==> env.notifyOk))
  {
  }

  /** A handle raises exactly when a call it makes fails: what it does not get to cannot fail it. */
  lemma {:induction false} HandleRaisesIff(p: A.Pipe, ledger: L.Rows, c: Client, d: R.Decision, env: A.Env)
    requires DR.ThrottleRemembers(p)
    ensures A.HandleEffect(p, ledger, c, d, env).raised <==> CallFails(p, ledger, c, env)
  {
    if p.config.scanner.dryRun {
      DryRaisesIff(p, c, d, env);
    } else {
      var t := A.Touched(p, c.mac);
      AR.TouchedAdmits(p, ledger, c, env.(wireOk := true));
      if !A.Quarantined(p, c.mac) && A.FallsBack(p, c) {
        FallbackRaisesIff(t, c, d, env);
      } else if !A.Quarantined(p, c.mac) {
        FreshRaisesIff(t, ledger, c, d, env);
      }
    }
  }

  lemma {:induction false} DryRaisesIff(p: A.Pipe, c: Client, d: R.Decision, env: A.Env)
    requires DR.ThrottleRemembers(p) && p.config.scanner.dryRun
    ensures A.DryHandle(p, c, d, env).raised <==> DR.DryWritesOf(p, c, env) != [] && !env.insertOk
  {
    assert (if c.mac in p.dryLast then Some(p.dryLast[c.mac]) else None) == DR.LastWrite(p.dryWrites, c.mac);
  }

  /** What a handle gets to, with no gate left, and does not come through: the row of a due dry run,
      the one announcement of a quarantine, or a call, row or notice of a kick or fallback. */
  ghost predicate SomethingFails(w: World, p: A.Pipe, c: Client, env: A.Env) {
    || (DR.DryWritesOf(p, c, env) != [] && !env.insertOk)
    || (PastLimit(p, c.mac) && QuarantineNotices(p.notices, c.mac) == 0 && p.notifier && !env.notifyOk)
    || (AR.MayKick(w, p, c, env) && !(env.wireOk && env.insertOk && (p.notifier ==> env.notifyOk)))
    || (AR.MayFallBack(p, c, env) && !(env.wireOk && env.insertOk))
  }

  /** The same over whole runs. */
  lemma {:induction false} RunRaisesIff(ws: seq<World>, events: seq<Event>, k: nat, most: nat)
    requires Run(ws, events) && ClocksAdvanceAlong(ws, events) && WR.AllBooted(ws[0])
    requires XR.RailsOnlyNarrow(ws, events, most) && k < |events| && Acts(ws[k], events[k])
    requires LR.Ordered(ws[0], events[k].client.mac)
    ensures EffectOf(ws[k], events[k]).raised <==>
              SomethingFails(ws[k], ActingPipe(ws[k], events[k]), events[k].client, events[k].env)
  {
    var w, p, e := ws[k], ActingPipe(ws[k], events[k]), events[k];
    AR.RunIsUnderstood(ws, events, k, most);
    DR.RunRemembersThrottle(ws, events, k);
    RunAnnouncesOnce(ws, events, k, e.client.mac);
    assert AnnouncedOnce(p, e.client.mac) && DR.ThrottleRemembers(p);
    HandleRaisesIff(p, w.ledger, e.client, e.decision, e.env);
    FailsIff(w, p, e.client, e.env);
  }

  /** The gates do not look ahead to the wire call. */
  lemma {:induction false} GatesComeFirst(w: World, p: A.Pipe, c: Client, env: A.Env)
    requires AR.Understood(w, p, c, env)
    ensures AR.FreshAdmitted(p, w.ledger, c, env.(wireOk := true)) <==> AR.MayKick(w, p, c, env)
    ensures AR.FallbackAdmitted(p, c, env.(wireOk := true)) <==> AR.MayFallBack(p, c, env)
  {
    var through := env.(wireOk := true);
    assert AR.Understood(w, p, c, through);
    AR.AdmittedIff(w, p, c, through);
    assert AR.MayKick(w, p, c, through) == AR.MayKick(w, p, c, env);
  }

  lemma {:induction false} FailsIff(w: World, p: A.Pipe, c: Client, env: A.Env)
    requires AR.Understood(w, p, c, env) && AnnouncedOnce(p, c.mac)
    ensures CallFails(p, w.ledger, c, env) <==> SomethingFails(w, p, c, env)
  {
    GatesComeFirst(w, p, c, env);
    AnnouncesIff(w, p, c, env.(notifyOk := true));
  }

  lemma {:induction false} AnnouncesIff(w: World, p: A.Pipe, c: Client, env: A.Env)
    requires AR.KnobsInForce(p) && Count(p, c.mac) == WR.FreshCalls(p.wire, c.mac) && AnnouncedOnce(p, c.mac)
    ensures Announces(p, c, env) <==>
              PastLimit(p, c.mac) && QuarantineNotices(p.notices, c.mac) == 0 && p.notifier && env.notifyOk
  {
  }
}
