/** Whole-run guarantees of the kick ledger: the rolling caps and the ladder bound, through
    wire failures, insert failures, reloads, restarts and any number of pipelines. */
module LedgerRuns {
  import opened Config
  import opened Windows
  import opened Resolution
  import opened World
  import L = Ledger
  import B = Backoff
  import A = Actor

  function Logical(w: World, mac: Mac): seq<real> { L.LogicalTs(w.ledger, mac) }

  /** This MAC's logical rows are in time order and none lies in the future. */
  ghost predicate Ordered(w: World, mac: Mac) {
    Ascending(Logical(w, mac)) && NoneAfter(Logical(w, mac), w.wall)
  }

  /** A handle that writes a logical row of `mac` passed the backoff gate first. */
  predicate AdmittedBy(w: World, e: Event, mac: Mac) {
    && Acts(w, e) && e.client.mac == mac
    && !ActingPipe(w, e).config.scanner.dryRun
    && A.BackoffAllows(ActingPipe(w, e), w.ledger, mac, e.env.wallGate)
  }

  /** A handle appends at most one row; only a fresh kick's row is logical. */
  lemma {:induction false} HandleAppendsOneRow(p: A.Pipe, ledger: L.Rows, e: Event)
    requires e.Handle?
    ensures var effect := A.HandleEffect(p, ledger, e.client, e.decision, e.env);
            && |effect.rows| <= 1
            && (effect.rows != [] && L.IsLogical(effect.rows[0]) ==>
                  && effect.rows[0].mac == e.client.mac && effect.rows[0].ts == e.env.wallRow
                  && !p.config.scanner.dryRun
                  && A.BackoffAllows(p, ledger, e.client.mac, e.env.wallGate))
  {
    var t := A.Touched(p, e.client.mac);
    assert A.BackoffAllows(t, ledger, e.client.mac, e.env.wallGate)
        == A.BackoffAllows(p, ledger, e.client.mac, e.env.wallGate);
  }

  lemma {:induction false} StepExtendsLogical(w: World, e: Event, mac: Mac)
    ensures Logical(Step(w, e), mac) == Logical(w, mac)
         || (AdmittedBy(w, e, mac) && Logical(Step(w, e), mac) == Logical(w, mac) + [e.env.wallRow])
  {
    if Acts(w, e) {
      HandleAppendsOneRow(ActingPipe(w, e), w.ledger, e);
      LogicalOfAppended(w.ledger, EffectOf(w, e).rows, mac);
    }
  }

  lemma {:induction false} LogicalOfAppended(ledger: L.Rows, rows: L.Rows, mac: Mac)
    requires |rows| <= 1
    ensures L.LogicalTs(ledger + rows, mac) == L.LogicalTs(ledger, mac)
            + (if rows != [] && rows[0].mac == mac && L.IsLogical(rows[0]) then [rows[0].ts] else [])
  {
    if rows == [] {
      assert ledger + rows == ledger;
    } else {
      assert rows == [rows[0]];
    }
  }

  /** What one step can do to this MAC's logical rows. */
  ghost predicate Grows(w: World, e: Event, next: World, mac: Mac) {
    && w.wall <= next.wall
    && (Logical(next, mac) == Logical(w, mac)
        || (AdmittedBy(w, e, mac)
            && w.wall <= e.env.wallGate <= e.env.wallRow == next.wall
            && Logical(next, mac) == Logical(w, mac) + [e.env.wallRow]))
  }

  lemma {:induction false} StepGrows(w: World, e: Event, mac: Mac)
    requires ClocksAdvance(w, e)
    ensures Grows(w, e, Step(w, e), mac)
  {
    StepExtendsLogical(w, e, mac);
  }

  ghost predicate GrowsAlong(ws: seq<World>, events: seq<Event>, mac: Mac) {
    |ws| == |events| + 1 && forall k :: 0 <= k < |events| ==> Grows(ws[k], events[k], ws[k + 1], mac)
  }

  lemma {:induction false} RunGrows(ws: seq<World>, events: seq<Event>, mac: Mac)
    requires Run(ws, events) && ClocksAdvanceAlong(ws, events)
    ensures GrowsAlong(ws, events, mac)
  {
    forall k | 0 <= k < |events| ensures Grows(ws[k], events[k], ws[k + 1], mac) {
      assert StepsTo(ws[k], events[k], ws[k + 1]);
      StepGrows(ws[k], events[k], mac);
    }
  }

  lemma {:induction false} GrowthKeepsOrder(w: World, e: Event, next: World, mac: Mac)
    requires Ordered(w, mac) && Grows(w, e, next, mac)
    ensures Ordered(next, mac)
  {
    assert NoneAfter(Logical(w, mac), next.wall);
    if Logical(next, mac) != Logical(w, mac) {
      AppendKeepsAscending(Logical(w, mac), e.env.wallRow);
    }
  }

  /** Ordered rows, admitted: the gate evaluated on the whole history says yes. */
  lemma {:induction false} AdmissionEvaluates(w: World, e: Event, mac: Mac)
    requires Ordered(w, mac) && AdmittedBy(w, e, mac)
    ensures var policy := A.PolicyFor(mac, ActingPipe(w, e).config);
            B.EvaluateBackoff(Logical(w, mac), e.env.wallGate, policy).Allowed?
  {
    var policy := A.PolicyFor(mac, ActingPipe(w, e).config);
    if !policy.Off() {
      B.TruncatedLookupIsExact(w.ledger, mac, e.env.wallGate, policy);
      L.AscendingIsSorted(Logical(w, mac));
    }
  }

  // ---- the rolling caps ----

  datatype Cap = Hourly | Daily

  function Span(cap: Cap): real { if cap.Hourly? then 3600.0 else 86400.0 }

  function LimitOf(p: B.Policy, cap: Cap): nat {
    if cap.Hourly? then p.maxPerHour else p.maxPerDay
  }

  /** What a row of overrides sets for a cap, and what is set globally. */
  function OwnCap(row: Override, cap: Cap): Option<nat> { if cap.Hourly? then row.maxPerHour else row.maxPerDay }

  function GlobalCap(config: Config, cap: Cap): nat {
    if cap.Hourly? then config.backoff.maxPerHour else config.backoff.maxPerDay
  }

  /** The configured cap of this MAC: its first row's when that sets one, else the global one. */
  ghost predicate CapConfigured(config: Config, mac: Mac, cap: Cap, limit: nat) {
    || (NoRowFor(config.overrides, mac) && limit == GlobalCap(config, cap))
    || (exists k :: FirstRowAt(config.overrides, mac, k)
                    && Takes(limit, OwnCap(config.overrides[k], cap), GlobalCap(config, cap)))
  }

  lemma {:induction false} PolicyTakesConfigured(config: Config, mac: Mac, cap: Cap)
    ensures forall limit :: CapConfigured(config, mac, cap, limit) <==> limit == LimitOf(A.PolicyFor(mac, config), cap)
  {
    var k := RowOrNone(config.overrides, mac);
    if NoRowFor(config.overrides, mac) {
      NoRowInherits(config, mac);
    } else {
      FirstRowGoverns(config, mac, k);
    }
  }

  /** The cap is on, and no looser than `most`, whenever this MAC is handled. */
  ghost predicate CapInForce(w: World, e: Event, mac: Mac, cap: Cap, most: nat) {
    Acts(w, e) && e.client.mac == mac ==>
      exists limit: nat :: CapConfigured(ActingPipe(w, e).config, mac, cap, limit) && 0 < limit <= most
  }

  lemma {:induction false} AdmissionKeepsCap(s: seq<real>, g: real, t: real, p: B.Policy, cap: Cap, most: nat)
    requires Ascending(s) && Spaced(s, Span(cap), most)
    requires B.EvaluateBackoff(s, g, p).Allowed? && g <= t && 0 < LimitOf(p, cap) <= most
    ensures Spaced(s + [t], Span(cap), most)
  {
    assert B.CapCheck(s, g, B.HOUR_SECONDS, p.maxPerHour).None?;
    assert B.CapCheck(s, g, B.DAY_SECONDS, p.maxPerDay).None?;
    AdmissionKeepsSpacing(s, g, t, Span(cap), most);
  }

  lemma {:induction false} GrowthKeepsCap(w: World, e: Event, next: World, mac: Mac, cap: Cap, most: nat)
    requires Ordered(w, mac) && Grows(w, e, next, mac) && CapInForce(w, e, mac, cap, most)
    requires Spaced(Logical(w, mac), Span(cap), most)
    ensures Spaced(Logical(next, mac), Span(cap), most)
  {
    if Logical(next, mac) != Logical(w, mac) {
      AdmissionEvaluates(w, e, mac);
      PolicyTakesConfigured(ActingPipe(w, e).config, mac, cap);
      AdmissionKeepsCap(Logical(w, mac), e.env.wallGate, e.env.wallRow,
                        A.PolicyFor(mac, ActingPipe(w, e).config), cap, most);
    }
  }

  lemma {:induction false} GrowthKeepsCapAlong(
      ws: seq<World>, events: seq<Event>, k: nat, mac: Mac, cap: Cap, most: nat)
    requires GrowsAlong(ws, events, mac) && k < |ws|
    requires forall j :: 0 <= j < |events| ==> CapInForce(ws[j], events[j], mac, cap, most)
    requires Ordered(ws[0], mac) && Spaced(Logical(ws[0], mac), Span(cap), most)
    ensures Ordered(ws[k], mac) && Spaced(Logical(ws[k], mac), Span(cap), most)
  {
    if k > 0 {
      GrowthKeepsCapAlong(ws, events, k - 1, mac, cap, most);
      GrowthKeepsOrder(ws[k - 1], events[k - 1], ws[k], mac);
      GrowthKeepsCap(ws[k - 1], events[k - 1], ws[k], mac, cap, most);
    }
  }

  /** In every run, at every moment, every closed hour (day) holds at most the cap's number of
      logical rows of the MAC. */
  lemma {:induction false} EveryWindowHoldsTheCap(
      ws: seq<World>, events: seq<Event>, k: nat, mac: Mac, cap: Cap, most: nat)
    requires Run(ws, events) && ClocksAdvanceAlong(ws, events) && k < |ws| && most > 0
    requires forall j :: 0 <= j < |events| ==> CapInForce(ws[j], events[j], mac, cap, most)
    requires Ordered(ws[0], mac) && WindowCap(Logical(ws[0], mac), Span(cap), most)
    ensures WindowCap(Logical(ws[k], mac), Span(cap), most)
  {
    RunGrows(ws, events, mac);
    SpacingIsWindowCap(Logical(ws[0], mac), Span(cap), most);
    GrowthKeepsCapAlong(ws, events, k, mac, cap, most);
    SpacingIsWindowCap(Logical(ws[k], mac), Span(cap), most);
  }

  // ---- the ladder ----

  /** Two rows closer than the longest cooldown: the later one waited out the rung their
      distance in the run calls for. */
  ghost predicate LadderSpaced(s: seq<real>, ladder: seq<Seconds>)
    requires ladder != []
  {
    forall i, k :: 0 <= i < k < |s| && s[k] - s[i] < B.MaxOf(ladder) ==>
                     s[k] - s[k - 1] >= B.Rung(ladder, k - i)
  }

  predicate LadderInForce(w: World, e: Event, mac: Mac, ladder: seq<Seconds>) {
    Acts(w, e) && e.client.mac == mac ==> ActingPipe(w, e).config.backoff.cooldowns == ladder
  }

  lemma {:induction false} AdmissionWaitsOutTheRung(s: seq<real>, g: real, p: B.Policy, i: nat)
    requires p.cooldowns != [] && B.NonDecreasing(p.cooldowns)
    requires Ascending(s) && i < |s| && g - s[i] <= B.MaxOf(p.cooldowns)
    requires B.EvaluateBackoff(s, g, p).Allowed?
    ensures g - s[|s| - 1] >= B.Rung(p.cooldowns, |s| - i)
  {
    assert B.CooldownCheck(s, g, p.cooldowns).None?;
    var cutoff := g - B.MaxOf(p.cooldowns);
    var d := FromOnIsSuffix(s, cutoff);
    assert d <= i;
    var run := s[d..];
    assert run[|run| - 1] == s[|s| - 1];
    B.CooldownOfRun(s, g, p.cooldowns, run, s[|s| - 1]);
    B.RungMonotone(p.cooldowns, |s| - i, |run|);
  }

  lemma {:induction false} AdmissionKeepsLadder(s: seq<real>, g: real, t: real, p: B.Policy)
    requires p.cooldowns != [] && B.NonDecreasing(p.cooldowns)
    requires Ascending(s) && LadderSpaced(s, p.cooldowns) && g <= t
    requires B.EvaluateBackoff(s, g, p).Allowed?
    ensures LadderSpaced(s + [t], p.cooldowns)
  {
    var s' := s + [t];
    forall i, k | 0 <= i < k < |s'| && s'[k] - s'[i] < B.MaxOf(p.cooldowns)
      ensures s'[k] - s'[k - 1] >= B.Rung(p.cooldowns, k - i)
    {
      if k < |s| {
        assert s'[k] == s[k] && s'[i] == s[i] && s'[k - 1] == s[k - 1];
      } else {
        AdmissionWaitsOutTheRung(s, g, p, i);
      }
    }
  }

  lemma {:induction false} GrowthKeepsLadder(w: World, e: Event, next: World, mac: Mac, ladder: seq<Seconds>)
    requires ladder != [] && B.NonDecreasing(ladder)
    requires Ordered(w, mac) && Grows(w, e, next, mac) && LadderInForce(w, e, mac, ladder)
    requires LadderSpaced(Logical(w, mac), ladder)
    ensures LadderSpaced(Logical(next, mac), ladder)
  {
    if Logical(next, mac) != Logical(w, mac) {
      AdmissionEvaluates(w, e, mac);
      AdmissionKeepsLadder(Logical(w, mac), e.env.wallGate, e.env.wallRow,
                           A.PolicyFor(mac, ActingPipe(w, e).config));
    }
  }

  lemma {:induction false} GrowthKeepsLadderAlong(
      ws: seq<World>, events: seq<Event>, k: nat, mac: Mac, ladder: seq<Seconds>)
    requires GrowsAlong(ws, events, mac) && k < |ws| && ladder != [] && B.NonDecreasing(ladder)
    requires forall j :: 0 <= j < |events| ==> LadderInForce(ws[j], events[j], mac, ladder)
    requires Ordered(ws[0], mac) && LadderSpaced(Logical(ws[0], mac), ladder)
    ensures Ordered(ws[k], mac) && LadderSpaced(Logical(ws[k], mac), ladder)
  {
    if k > 0 {
      GrowthKeepsLadderAlong(ws, events, k - 1, mac, ladder);
      GrowthKeepsOrder(ws[k - 1], events[k - 1], ws[k], mac);
      GrowthKeepsLadder(ws[k - 1], events[k - 1], ws[k], mac, ladder);
    }
  }

  /** The first n rungs added up. */
  function LadderSum(ladder: seq<Seconds>, n: nat): real
    requires n <= |ladder|
  {
    if n == 0 then 0.0 else LadderSum(ladder, n - 1) + ladder[n - 1]
  }

  lemma {:induction false} LongestIsLast(ladder: seq<Seconds>)
    requires ladder != [] && B.NonDecreasing(ladder)
    ensures B.MaxOf(ladder) == ladder[|ladder| - 1]
  {
    B.MaxOfIsGreatest(ladder);
  }

  /** Rows i..j within less than the longest cooldown: no more of them than rungs, and they
      stretch over at least the rungs between them. */
  lemma {:induction false} LadderBoundsBlock(s: seq<real>, ladder: seq<Seconds>, i: nat, j: nat)
    requires ladder != [] && B.NonDecreasing(ladder)
    requires Ascending(s) && LadderSpaced(s, ladder)
    requires i <= j < |s| && s[j] - s[i] < B.MaxOf(ladder)
    ensures j - i < |ladder| && s[j] - s[i] >= LadderSum(ladder, j - i)
  {
    if i < j {
      LadderBoundsBlock(s, ladder, i, j - 1);
      LongestIsLast(ladder);
      assert s[j] - s[j - 1] >= B.Rung(ladder, j - i);
    }
  }

  lemma {:induction false} LadderBoundsWindow(s: seq<real>, ladder: seq<Seconds>, lo: real, hi: real)
    requires ladder != [] && B.NonDecreasing(ladder)
    requires Ascending(s) && LadderSpaced(s, ladder)
    requires lo <= hi < lo + B.MaxOf(ladder)
    ensures var m := CountIn(s, lo, hi);
            m <= |ladder| && (m > 0 ==> hi - lo >= LadderSum(ladder, m - 1))
  {
    var i, j := WindowIsBlock(s, lo, hi);
    if i < j {
      assert lo <= s[i] && s[j - 1] <= hi;
      LadderBoundsBlock(s, ladder, i, j - 1);
    }
  }

  /** The ladder rate bound, in every run and across restarts: a window shorter than the
      longest cooldown holds at most one row per rung, and a window that holds m rows is at
      least as long as the first m - 1 rungs together. */
  lemma {:induction false} LadderBoundsEveryWindow(
      ws: seq<World>, events: seq<Event>, k: nat, mac: Mac, ladder: seq<Seconds>, lo: real, hi: real)
    requires Run(ws, events) && ClocksAdvanceAlong(ws, events) && k < |ws|
    requires ladder != [] && B.NonDecreasing(ladder)
    requires forall j :: 0 <= j < |events| ==> LadderInForce(ws[j], events[j], mac, ladder)
    requires Ordered(ws[0], mac) && LadderSpaced(Logical(ws[0], mac), ladder)
    requires lo <= hi < lo + B.MaxOf(ladder)
    ensures var m := CountIn(Logical(ws[k], mac), lo, hi);
            m <= |ladder| && (m > 0 ==> hi - lo >= LadderSum(ladder, m - 1))
  {
    RunGrows(ws, events, mac);
    GrowthKeepsLadderAlong(ws, events, k, mac, ladder);
    LadderBoundsWindow(Logical(ws[k], mac), ladder, lo, hi);
  }
}
