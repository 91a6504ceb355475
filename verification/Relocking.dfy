/** Exactly which backoff policies are safe to wait on: once the gate allows a kick, does it go
    on allowing it until the next one? */
module Relocking {
  import opened Backoff
  import opened Config
  import opened Windows

  /** The gate never re-locks by waiting. */
  ghost predicate NeverRelocks(p: Policy) {
    forall recent: seq<real>, now: real, later: real ::
      Ascending(recent) && now <= later && EvaluateBackoff(recent, now, p).Allowed?
      ==> EvaluateBackoff(recent, later, p).Allowed?
  }

  lemma {:induction false} AllowedIff(recent: seq<real>, now: real, p: Policy)
    ensures EvaluateBackoff(recent, now, p).Allowed? <==>
            && CapCheck(recent, now, DAY_SECONDS, p.maxPerDay).None?
            && CapCheck(recent, now, HOUR_SECONDS, p.maxPerHour).None?
            && CooldownCheck(recent, now, p.cooldowns).None?
  {
  }

  /** A cap lets a run of n kicks stand at the gate while it ages down to m: it is off; or the
      newest kick may already be older than its span; or the span is shorter than the recovery
      window, so that only the newest need be inside; or it allows n. */
  predicate Slack(span: real, cap: nat, window: real, longer: real, n: nat) {
    || cap == 0
    || longer > span
    || (if window > span then cap > 1 else cap > n)
  }

  /** The ladder falls between rungs m and n, and neither cap hides it. */
  predicate Exposed(p: Policy, m: nat, n: nat) {
    && 0 < m < n <= |p.cooldowns| && p.cooldowns[m - 1] > p.cooldowns[n - 1]
    && Slack(DAY_SECONDS, p.maxPerDay, MaxOf(p.cooldowns), p.cooldowns[m - 1], n)
    && Slack(HOUR_SECONDS, p.maxPerHour, MaxOf(p.cooldowns), p.cooldowns[m - 1], n)
  }

  // ---- an exposed fall re-locks ----

  function Repeat(x: real, n: nat): (r: seq<real>)
    ensures |r| == n && forall k :: 0 <= k < n ==> r[k] == x
  {
    if n == 0 then [] else Repeat(x, n - 1) + [x]
  }

  /** A positive step smaller than every positive gap. */
  lemma {:induction false} StepBelow(gaps: seq<real>) returns (eta: real)
    ensures eta > 0.0 && forall i :: 0 <= i < |gaps| && gaps[i] > 0.0 ==> eta < gaps[i]
  {
    eta := 1.0;
    if gaps != [] {
      var n := |gaps| - 1;
      eta := StepBelow(gaps[..n]);
      if gaps[n] > 0.0 && eta >= gaps[n] { eta := gaps[n] / 2.0; }
    }
  }

  /** A run of n kicks that ages down to m: the oldest at 0, then all but the last at eta, the
      last at x. */
  function Burst(m: nat, n: nat, eta: real, x: real): (r: seq<real>)
    requires 0 < m < n
    ensures |r| == n && r[n - 1] == x
    ensures forall i :: 0 <= i < n - m ==> r[i] == 0.0
    ensures forall i :: n - m <= i < n - 1 ==> r[i] == eta
  {
    Repeat(0.0, n - m) + Repeat(eta, m - 1) + [x]
  }

  /** Which of the burst a cutoff leaves: all of it, the last m, at most the newest, or none. */
  lemma {:induction false} BurstWindow(m: nat, n: nat, eta: real, x: real, cutoff: real)
    requires 0 < m < n && 0.0 < eta <= x
    ensures var r := Burst(m, n, eta, x);
            && (cutoff <= 0.0 ==> FromOn(r, cutoff) == r)
            && (0.0 < cutoff <= eta ==> FromOn(r, cutoff) == r[n - m..])
            && (eta < cutoff ==> |FromOn(r, cutoff)| <= 1)
            && (x < cutoff ==> FromOn(r, cutoff) == [])
  {
    var r := Burst(m, n, eta, x);
    var k := if cutoff <= 0.0 then 0 else if cutoff <= eta then n - m else if x < cutoff then n else n - 1;
    FromOnSplit(r, cutoff, k);
    assert r[0..] == r;
  }

  /** The step fits: the newest kick is `longer` minus a step before the recovery window's end,
      and the step is below every gap that matters. */
  ghost predicate Fits(window: real, longer: real, eta: real, x: real) {
    && 0.0 < eta <= x && x == window - longer + eta
    && Clears(DAY_SECONDS, window, longer, eta) && Clears(HOUR_SECONDS, window, longer, eta)
  }

  ghost predicate Clears(span: real, window: real, longer: real, eta: real) {
    (window > span ==> eta < window - span) && (longer > span ==> eta < longer - span)
  }

  /** With slack, the cap does not trip on the burst at the end of the recovery window. */
  lemma {:induction false} SlackAdmits(
      span: real, cap: nat, window: real, longer: real, m: nat, n: nat, eta: real, x: real)
    requires 0 < m < n && Slack(span, cap, window, longer, n)
    requires 0.0 < eta <= x && x == window - longer + eta && Clears(span, window, longer, eta)
    ensures CapCheck(Burst(m, n, eta, x), window, span, cap).None?
  {
    var cutoff := window - span;
    BurstWindow(m, n, eta, x, cutoff);
    if cap > 0 {
      if longer > span {
        assert x < cutoff;
      }
    }
  }

  /** At the end of the window the n-th rung has passed; half a step later the m-th has not. */
  lemma {:induction false} BurstPasses(c: seq<Seconds>, m: nat, n: nat, eta: real, x: real, window: real, shorter: real)
    requires 0 < m < n <= |c| && window == MaxOf(c) && shorter == c[n - 1]
    requires 0.0 < eta <= x && window - x >= shorter
    ensures CooldownCheck(Burst(m, n, eta, x), window, c).None?
  {
    BurstWindow(m, n, eta, x, 0.0);
    CooldownOfRun(Burst(m, n, eta, x), window, c, Burst(m, n, eta, x), x);
  }

  lemma {:induction false} BurstDenied(
      c: seq<Seconds>, m: nat, n: nat, eta: real, x: real, window: real, longer: real, later: real)
    requires 0 < m < n <= |c| && window == MaxOf(c) && longer == c[m - 1]
    requires 0.0 < eta <= x && 0.0 < later - window <= eta && later - x < longer
    ensures CooldownCheck(Burst(m, n, eta, x), later, c).Some?
  {
    var r := Burst(m, n, eta, x);
    BurstWindow(m, n, eta, x, later - window);
    assert r[n - m..][m - 1] == x;
    assert NoneAfter(r[n - m..], x);
    CooldownOfRun(r, later, c, r[n - m..], x);
  }

  lemma {:induction false} BurstRelocks(
      p: Policy, m: nat, n: nat, eta: real, x: real, window: real, longer: real, shorter: real)
    requires Exposed(p, m, n) && Fits(window, longer, eta, x) && eta + shorter < longer
    requires window == MaxOf(p.cooldowns) && longer == p.cooldowns[m - 1] && shorter == p.cooldowns[n - 1]
    ensures !NeverRelocks(p)
  {
    var r := Burst(m, n, eta, x);
    var later := window + eta / 2.0;
    SlackAdmits(DAY_SECONDS, p.maxPerDay, window, longer, m, n, eta, x);
    SlackAdmits(HOUR_SECONDS, p.maxPerHour, window, longer, m, n, eta, x);
    BurstPasses(p.cooldowns, m, n, eta, x, window, shorter);
    BurstDenied(p.cooldowns, m, n, eta, x, window, longer, later);
    AllowedIff(r, window, p);
    AllowedIff(r, later, p);
  }

  /** An exposed fall re-locks: the gate that let the n-th rung pass meets the longer m-th one
      as soon as the oldest kicks have left the recovery window. */
  lemma {:induction false} ExposedRelocks(p: Policy, m: nat, n: nat)
    requires Exposed(p, m, n)
    ensures !NeverRelocks(p)
  {
    var window: real, longer: real, shorter: real := MaxOf(p.cooldowns), p.cooldowns[m - 1], p.cooldowns[n - 1];
    MaxOfIsGreatest(p.cooldowns);
    var gaps := [longer - shorter, window - DAY_SECONDS, window - HOUR_SECONDS,
                 longer - DAY_SECONDS, longer - HOUR_SECONDS];
    var eta := StepBelow(gaps);
    assert gaps[0] > eta;
    assert Clears(DAY_SECONDS, window, longer, eta) by {
      assert gaps[1] == window - DAY_SECONDS && gaps[3] == longer - DAY_SECONDS;
    }
    assert Clears(HOUR_SECONDS, window, longer, eta) by {
      assert gaps[2] == window - HOUR_SECONDS && gaps[4] == longer - HOUR_SECONDS;
    }
    BurstRelocks(p, m, n, eta, window - longer + eta, window, longer, shorter);
  }

  // ---- and nothing else does ----

  /** What the cooldown check says of its run. */
  ghost predicate ChecksRun(run: seq<real>, now: real, c: seq<Seconds>, denied: bool) {
    if run == [] then !denied else c != [] && (denied <==> now - MaxOf(run) < Rung(c, |run|))
  }

  /** A cooldown that passes now and denies later has met a longer rung on a shorter run. */
  lemma {:induction false} RungFalls(recent: seq<real>, now: real, later: real, c: seq<Seconds>, early: real, late: real)
    returns (m: nat, n: nat, newest: real)
    requires now <= later && early <= late
    requires ChecksRun(FromOn(recent, early), now, c, false) && ChecksRun(FromOn(recent, late), later, c, true)
    ensures 0 < m < n <= |c| && c[m - 1] > c[n - 1]
    ensures n <= |FromOn(recent, early)| && newest in recent && later - newest < c[m - 1]
  {
    RunKeepsNewest(recent, early, late);
    newest := NewestOf(recent, late);
    m, n := FallingRungs(c, |FromOn(recent, late)|, |FromOn(recent, early)|, now, later, newest);
  }

  lemma {:induction false} NewestOf(recent: seq<real>, cutoff: real) returns (newest: real)
    requires FromOn(recent, cutoff) != []
    ensures newest == MaxOf(FromOn(recent, cutoff)) && newest in recent
  {
    newest := MaxOf(FromOn(recent, cutoff));
    MaxOfIsGreatest(FromOn(recent, cutoff));
    FromOnElements(recent, cutoff);
  }

  lemma {:induction false} FallingRungs(c: seq<Seconds>, few: nat, many: nat, now: real, later: real, newest: real)
    returns (m: nat, n: nat)
    requires c != [] && 0 < few <= many && now <= later
    requires now - newest >= Rung(c, many) && later - newest < Rung(c, few)
    ensures 0 < m < n <= |c| && c[m - 1] > c[n - 1] && n <= many && later - newest < c[m - 1]
  {
    m, n := few, if many <= |c| then many else |c|;
  }

  lemma {:induction false} RelockSlack(
      recent: seq<real>, now: real, later: real, span: real, cap: nat, window: real, longer: real, n: nat, newest: real)
    requires now <= later && CapCheck(recent, now, span, cap).None?
    requires n <= |FromOn(recent, now - window)| && newest in recent && later - newest < longer
    ensures Slack(span, cap, window, longer, n)
  {
    var inSpan := now - span;
    FromOnElements(recent, inSpan);
    if cap > 0 && longer <= span {
      assert newest in FromOn(recent, inSpan);
      if window <= span {
        FromOnShrinks(recent, inSpan, now - window);
      }
    }
  }

  lemma {:induction false} CooldownFalls(recent: seq<real>, now: real, later: real, c: seq<Seconds>, window: real)
    requires now <= later && c != [] && window == MaxOf(c)
    requires CooldownCheck(recent, now, c).None? && CooldownCheck(recent, later, c).Some?
    ensures exists m: nat, n: nat, newest: real :: FallsAt(recent, now, later, c, window, m, n, newest)
  {
    var m, n, newest := RungFalls(recent, now, later, c, now - window, later - window);
    assert FallsAt(recent, now, later, c, window, m, n, newest);
  }

  ghost predicate CapsOpen(recent: seq<real>, now: real, p: Policy) {
    CapCheck(recent, now, DAY_SECONDS, p.maxPerDay).None? && CapCheck(recent, now, HOUR_SECONDS, p.maxPerHour).None?
  }

  /** A longer rung met on a shorter run, no older than the later reading. */
  ghost predicate FallsAt(
    recent: seq<real>, now: real, later: real, c: seq<Seconds>, window: real, m: nat, n: nat, newest: real)
  {
    && 0 < m < n <= |c| && c[m - 1] > c[n - 1]
    && n <= |FromOn(recent, now - window)| && newest in recent && later - newest < c[m - 1]
  }

  lemma {:induction false} FallIsExposed(
      p: Policy, recent: seq<real>, now: real, later: real, window: real, m: nat, n: nat, newest: real)
    requires now <= later && CapsOpen(recent, now, p)
    requires FallsAt(recent, now, later, p.cooldowns, window, m, n, newest) && window == MaxOf(p.cooldowns)
    ensures Exposed(p, m, n)
  {
    var longer: real := p.cooldowns[m - 1];
    RelockSlack(recent, now, later, DAY_SECONDS, p.maxPerDay, window, longer, n, newest);
    RelockSlack(recent, now, later, HOUR_SECONDS, p.maxPerHour, window, longer, n, newest);
  }

  /** Caps never trip by waiting, so a re-lock is the cooldown's. */
  lemma {:induction false} RelockIsCooldown(p: Policy, recent: seq<real>, now: real, later: real)
    requires now <= later && EvaluateBackoff(recent, now, p).Allowed? && !EvaluateBackoff(recent, later, p).Allowed?
    ensures CapsOpen(recent, now, p) && p.cooldowns != []
    ensures CooldownCheck(recent, now, p.cooldowns).None? && CooldownCheck(recent, later, p.cooldowns).Some?
  {
    AllowedIff(recent, now, p);
    AllowedIff(recent, later, p);
    CapNeverTripsByWaiting(recent, now, DAY_SECONDS, p.maxPerDay, later);
    CapNeverTripsByWaiting(recent, now, HOUR_SECONDS, p.maxPerHour, later);
  }

  /** Any re-lock is an exposed fall. */
  lemma {:induction false} RelockIsExposed(p: Policy, recent: seq<real>, now: real, later: real)
    requires now <= later && EvaluateBackoff(recent, now, p).Allowed? && !EvaluateBackoff(recent, later, p).Allowed?
    ensures exists m, n :: Exposed(p, m, n)
  {
    RelockIsCooldown(p, recent, now, later);
    FallExposes(p, recent, now, later);
  }

  lemma {:induction false} FallExposes(p: Policy, recent: seq<real>, now: real, later: real)
    requires now <= later && CapsOpen(recent, now, p) && p.cooldowns != []
    requires CooldownCheck(recent, now, p.cooldowns).None? && CooldownCheck(recent, later, p.cooldowns).Some?
    ensures exists m, n :: Exposed(p, m, n)
  {
    var window: real := MaxOf(p.cooldowns);
    CooldownFalls(recent, now, later, p.cooldowns, window);
    var m: nat, n: nat, newest: real :| FallsAt(recent, now, later, p.cooldowns, window, m, n, newest);
    FallIsExposed(p, recent, now, later, window, m, n, newest);
  }

  /** Exactly which policies are safe to wait on, caps included. */
  lemma {:induction false} NeverRelocksIffNotExposed(p: Policy)
    ensures NeverRelocks(p) <==> !exists m, n :: Exposed(p, m, n)
  {
    if exists m, n :: Exposed(p, m, n) {
      var m, n :| Exposed(p, m, n);
      ExposedRelocks(p, m, n);
    } else if !NeverRelocks(p) {
      var recent: seq<real>, now: real, later: real :|
        Ascending(recent) && now <= later && EvaluateBackoff(recent, now, p).Allowed?
        && !EvaluateBackoff(recent, later, p).Allowed?;
      RelockIsExposed(p, recent, now, later);
    }
  }

  /** With the caps off that is a non-decreasing ladder. */
  lemma {:induction false} NeverRelocksIffNonDecreasing(p: Policy)
    requires p.maxPerHour == 0 && p.maxPerDay == 0
    ensures NeverRelocks(p) <==> NonDecreasing(p.cooldowns)
  {
    NeverRelocksIffNotExposed(p);
    if !NonDecreasing(p.cooldowns) {
      var i := FallingRung(p.cooldowns);
      assert Exposed(p, i + 1, i + 2);
    }
  }

  lemma {:induction false} FallingRung(cooldowns: seq<Seconds>) returns (i: nat)
    requires !NonDecreasing(cooldowns)
    ensures i + 1 < |cooldowns| && cooldowns[i] > cooldowns[i + 1]
  {
    i := 0;
    while i + 1 < |cooldowns| && cooldowns[i] <= cooldowns[i + 1]
      invariant i == 0 || i < |cooldowns|
      invariant forall a, b :: 0 <= a < b <= i && b < |cooldowns| ==> cooldowns[a] <= cooldowns[b]
    {
      i := i + 1;
    }
  }
}
