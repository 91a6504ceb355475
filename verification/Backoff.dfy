/** The per-MAC action-policy gate: escalating cooldown ladder and rolling caps, evaluated
    from ledger timestamps, and the in-memory quarantine counter above it. */
module Backoff {
  import opened Config
  import opened Windows
  import L = Ledger

  const HOUR_SECONDS := 3600.0
  const DAY_SECONDS := 86400.0

  datatype Reason = DailyCap | HourlyCap | Cooldown

  datatype Verdict = Allowed | Denied(reason: Reason, retryAfter: real)

  datatype Policy = Policy(cooldowns: seq<Seconds>, maxPerHour: nat, maxPerDay: nat)
  {
    predicate Off() { cooldowns == [] && maxPerHour == 0 && maxPerDay == 0 }
  }

  function MaxOf(s: seq<real>): real
    requires s != []
  {
    var n := |s| - 1;
    if n == 0 then s[0] else
      var m := MaxOf(s[..n]);
      if m >= s[n] then m else s[n]
  }

  function MinOf(s: seq<real>): real
    requires s != []
  {
    var n := |s| - 1;
    if n == 0 then s[0] else
      var m := MinOf(s[..n]);
      if m <= s[n] then m else s[n]
  }

  lemma {:induction false} MaxOfIsGreatest(s: seq<real>)
    requires s != []
    ensures MaxOf(s) in s && NoneAfter(s, MaxOf(s))
  {
    var n := |s| - 1;
    if n > 0 {
      MaxOfIsGreatest(s[..n]);
      assert s[n] in s;
      assert MaxOf(s[..n]) in s;
    }
  }

  lemma {:induction false} MinOfIsLeast(s: seq<real>)
    requires s != []
    ensures MinOf(s) in s && forall i :: 0 <= i < |s| ==> MinOf(s) <= s[i]
  {
    var n := |s| - 1;
    if n > 0 {
      MinOfIsLeast(s[..n]);
      assert s[n] in s;
      assert MinOf(s[..n]) in s;
    }
  }

  /** One rolling cap: None when it does not trip, else its retry-after. */
  function CapCheck(recent: seq<real>, now: real, span: real, cap: nat): Option<real> {
    var inWindow := FromOn(recent, now - span);
    if cap > 0 && |inWindow| >= cap then Some(span - (now - MinOf(inWindow))) else None
  }

  /** The rung in force after a run of `length` kicks, clamped to the last one. */
  function Rung(cooldowns: seq<Seconds>, length: nat): Seconds
    requires cooldowns != [] && length > 0
  {
    if length <= |cooldowns| then cooldowns[length - 1] else cooldowns[|cooldowns| - 1]
  }

  /** The run is the kicks within the recovery window, the longest cooldown. */
  function CooldownCheck(recent: seq<real>, now: real, cooldowns: seq<Seconds>): Option<real> {
    if cooldowns == [] then None else
      var run := FromOn(recent, now - MaxOf(cooldowns));
      if run == [] then None else
        var required := Rung(cooldowns, |run|);
        var elapsed := now - MaxOf(run);
        if elapsed < required then Some(required - elapsed) else None
  }

  function EvaluateBackoff(recent: seq<real>, now: real, p: Policy): Verdict {
    var day := CapCheck(recent, now, DAY_SECONDS, p.maxPerDay);
    if day.Some? then Denied(DailyCap, day.value) else
      var hour := CapCheck(recent, now, HOUR_SECONDS, p.maxPerHour);
      if hour.Some? then Denied(HourlyCap, hour.value) else
        var cool := CooldownCheck(recent, now, p.cooldowns);
        if cool.Some? then Denied(Cooldown, cool.value) else Allowed
  }

  /** How far back the actor reads the ledger. */
  function Lookback(p: Policy): real {
    if p.cooldowns == [] then DAY_SECONDS
    else if MaxOf(p.cooldowns) > DAY_SECONDS then MaxOf(p.cooldowns) else DAY_SECONDS
  }

  /** The fast form the actor uses: read only the lookback. */
  function GateVerdict(rows: L.Rows, mac: Mac, now: real, p: Policy): Verdict {
    EvaluateBackoff(L.RecentKickTimestamps(rows, mac, now - Lookback(p)), now, p)
  }

  method LookUp(rows: L.Rows, mac: Mac, now: real, p: Policy) returns (verdict: Verdict)
    ensures verdict == GateVerdict(rows, mac, now, p)
  {
    var recent := L.RecentKickTimestamps(rows, mac, now - Lookback(p));
    verdict := EvaluateBackoff(recent, now, p);
  }

  /** The verdict depends on the history only through its three trailing windows. */
  lemma {:induction false} VerdictDependsOnWindows(a: seq<real>, b: seq<real>, now: real, p: Policy)
    requires FromOn(a, now - DAY_SECONDS) == FromOn(b, now - DAY_SECONDS)
    requires FromOn(a, now - HOUR_SECONDS) == FromOn(b, now - HOUR_SECONDS)
    requires p.cooldowns != [] ==>
               FromOn(a, now - MaxOf(p.cooldowns)) == FromOn(b, now - MaxOf(p.cooldowns))
    ensures EvaluateBackoff(a, now, p) == EvaluateBackoff(b, now, p)
  {
    assert CooldownCheck(a, now, p.cooldowns) == CooldownCheck(b, now, p.cooldowns);
  }

  lemma {:induction false} TruncatedVerdict(all: seq<real>, since: real, now: real, p: Policy)
    requires since <= now - DAY_SECONDS
    requires p.cooldowns != [] ==> since <= now - MaxOf(p.cooldowns)
    ensures EvaluateBackoff(L.Sorted(FromOn(all, since)), now, p)
         == EvaluateBackoff(L.Sorted(all), now, p)
  {
    TruncatedWindow(all, since, now - DAY_SECONDS);
    TruncatedWindow(all, since, now - HOUR_SECONDS);
    if p.cooldowns != [] {
      TruncatedWindow(all, since, now - MaxOf(p.cooldowns));
    }
    VerdictDependsOnWindows(L.Sorted(FromOn(all, since)), L.Sorted(all), now, p);
  }

  /** The truncated read loses nothing: same verdict, reason and retry as on the MAC's whole
      history, for every ledger and policy. */
  lemma {:induction false} TruncatedLookupIsExact(rows: L.Rows, mac: Mac, now: real, p: Policy)
    ensures GateVerdict(rows, mac, now, p)
         == EvaluateBackoff(L.Sorted(L.LogicalTs(rows, mac)), now, p)
  {
    var since := now - Lookback(p);
    var all := L.LogicalTs(rows, mac);
    assert GateVerdict(rows, mac, now, p) == EvaluateBackoff(L.Sorted(FromOn(all, since)), now, p);
    TruncatedVerdict(all, since, now, p);
  }

  lemma {:induction false} TruncatedWindow(all: seq<real>, since: real, cutoff: real)
    requires since <= cutoff
    ensures FromOn(L.Sorted(FromOn(all, since)), cutoff) == FromOn(L.Sorted(all), cutoff)
  {
    L.FromOnSorted(all, since);
    FromOnTwice(L.Sorted(all), since, cutoff);
  }

  // ---- the verdict, said of the history ----

  /** The cap is off, or fewer than its number of kicks lie in the closed window that ends now. */
  predicate RoomIn(history: seq<real>, now: real, span: real, cap: nat) {
    cap == 0 || CountIn(history, now - span, now) < cap
  }

  /** No ladder, no kick within its longest cooldown, or the newest kick is as long ago as the rung
      for the number of kicks within it, at most the last rung, asks. */
  predicate CooledDown(history: seq<real>, now: real, ladder: seq<Seconds>) {
    ladder == [] || RungPassed(history, now, ladder, CountIn(history, now - MaxOf(ladder), now))
  }

  predicate RungPassed(history: seq<real>, now: real, ladder: seq<Seconds>, length: nat)
    requires ladder != []
  {
    history == [] || length == 0
    || now - history[|history| - 1] >= ladder[(if length < |ladder| then length else |ladder|) - 1]
  }

  lemma {:induction false} CapCheckIff(history: seq<real>, now: real, span: real, cap: nat)
    requires NoneAfter(history, now)
    ensures CapCheck(history, now, span, cap).None? <==> RoomIn(history, now, span, cap)
  {
    FromOnCounts(history, now - span, now);
  }

  lemma {:induction false} CooldownByRun(history: seq<real>, now: real, ladder: seq<Seconds>, run: seq<real>)
    requires ladder != [] && run == FromOn(history, now - MaxOf(ladder))
    ensures CooldownCheck(history, now, ladder).None? <==> run == [] || now - MaxOf(run) >= Rung(ladder, |run|)
  {
  }

  lemma {:induction false} RunPassedIff(
      history: seq<real>, now: real, ladder: seq<Seconds>, cutoff: real, run: seq<real>)
    requires Ascending(history) && ladder != [] && run == FromOn(history, cutoff)
    ensures run == [] || now - MaxOf(run) >= Rung(ladder, |run|) <==> RungPassed(history, now, ladder, |run|)
  {
    if run != [] {
      NewestOfRun(history, cutoff);
    }
  }

  lemma {:induction false} CooledByCount(
      history: seq<real>, now: real, ladder: seq<Seconds>, cutoff: real, length: nat)
    requires ladder != [] && cutoff == now - MaxOf(ladder) && length == CountIn(history, cutoff, now)
    ensures CooledDown(history, now, ladder) <==> RungPassed(history, now, ladder, length)
  {
  }

  lemma {:induction false} CooldownCheckIff(history: seq<real>, now: real, ladder: seq<Seconds>)
    requires Ascending(history) && NoneAfter(history, now)
    ensures CooldownCheck(history, now, ladder).None? <==> CooledDown(history, now, ladder)
  {
    if ladder != [] {
      var cutoff: real := now - MaxOf(ladder);
      var run := FromOn(history, cutoff);
      CooledByCount(history, now, ladder, cutoff, |run|) by {
        FromOnCounts(history, cutoff, now);
      }
      CooldownByRun(history, now, ladder, run);
      RunPassedIff(history, now, ladder, cutoff, run);
    }
  }

  lemma {:induction false} NewestOfRun(s: seq<real>, cutoff: real)
    requires Ascending(s) && FromOn(s, cutoff) != []
    ensures s != [] && MaxOf(FromOn(s, cutoff)) == s[|s| - 1]
  {
    var d := FromOnIsSuffix(s, cutoff);
    MaxOfIsGreatest(s[d..]);
    assert s[d..][|s| - d - 1] == s[|s| - 1];
  }

  /** The whole gate both ways, for a history in order: it allows a kick exactly when both caps have
      room and the cooldown is over; a full day is named before a full hour, and either before
      the cooldown. */
  lemma {:induction false} VerdictIff(history: seq<real>, now: real, p: Policy)
    requires Ascending(history) && NoneAfter(history, now)
    ensures var verdict := EvaluateBackoff(history, now, p);
            var day := RoomIn(history, now, 86400.0, p.maxPerDay);
            var hour := RoomIn(history, now, 3600.0, p.maxPerHour);
            && (verdict.Allowed? <==> day && hour && CooledDown(history, now, p.cooldowns))
            && (verdict.Denied? ==>
                  verdict.reason == if !day then DailyCap else if !hour then HourlyCap else Cooldown)
  {
    CapCheckIff(history, now, DAY_SECONDS, p.maxPerDay);
    CapCheckIff(history, now, HOUR_SECONDS, p.maxPerHour);
    CooldownCheckIff(history, now, p.cooldowns);
  }

  // ---- countdown ----

  lemma {:induction false} MinSurvives(recent: seq<real>, early: real, late: real)
    requires early <= late && FromOn(recent, early) != []
    requires late <= MinOf(FromOn(recent, early))
    ensures FromOn(recent, late) == FromOn(recent, early)
  {
    MinOfIsLeast(FromOn(recent, early));
    FromOnTwice(recent, early, late);
    FromOnSplit(FromOn(recent, early), late, 0);
  }

  /** A tripped cap stays tripped while its retry-after counts down, second for second, to
      zero inclusive. */
  lemma {:induction false} CapCountsDown(recent: seq<real>, now: real, span: real, cap: nat, later: real)
    requires CapCheck(recent, now, span, cap).Some?
    requires now <= later <= now + CapCheck(recent, now, span, cap).value
    ensures CapCheck(recent, later, span, cap)
         == Some(CapCheck(recent, now, span, cap).value - (later - now))
  {
    MinSurvives(recent, now - span, later - span);
  }

  /** The elements strictly newer than x. */
  function NewerThan(s: seq<real>, x: real): seq<real> {
    if s == [] then [] else
      NewerThan(s[..|s| - 1], x) + (if s[|s| - 1] > x then [s[|s| - 1]] else [])
  }

  /** The kicks in the window at `now` that outlast its oldest one. */
  function Outlasting(recent: seq<real>, now: real, span: real): seq<real>
    requires FromOn(recent, now - span) != []
  {
    NewerThan(FromOn(recent, now - span), MinOf(FromOn(recent, now - span)))
  }

  /** Strictly after the countdown the cap is clear for good exactly when fewer than the cap's
      number of kicks are newer than the oldest in the window: retry-after is when the oldest
      leaves, which frees a slot only if the window was not over-full. */
  lemma {:induction false} CapClearsAfterCountdownIff(recent: seq<real>, now: real, span: real, cap: nat)
    requires CapCheck(recent, now, span, cap).Some?
    ensures (forall later :: later > now + CapCheck(recent, now, span, cap).value ==>
                               CapCheck(recent, later, span, cap).None?)
            <==> |Outlasting(recent, now, span)| < cap
  {
    if |Outlasting(recent, now, span)| < cap {
      forall later: real | later > now + CapCheck(recent, now, span, cap).value
        ensures CapCheck(recent, later, span, cap).None?
      {
        OldestGone(recent, now - span, later - span);
      }
    } else {
      var later := OverfullHolds(recent, now, span, cap);
    }
  }

  /** Once the oldest kick has left, what is in the window is among the newer ones. */
  lemma {:induction false} OldestGone(recent: seq<real>, early: real, late: real)
    requires FromOn(recent, early) != [] && late > MinOf(FromOn(recent, early))
    ensures |FromOn(recent, late)| <= |NewerThan(FromOn(recent, early), MinOf(FromOn(recent, early)))|
  {
    MinOfIsLeast(FromOn(recent, early));
    FromOnElements(recent, early);
    FromOnTwice(recent, early, late);
    NewerHoldsWindow(FromOn(recent, early), MinOf(FromOn(recent, early)), late);
  }

  /** An over-full window still trips when its second-oldest time is about to leave. */
  lemma {:induction false} OverfullHolds(recent: seq<real>, now: real, span: real, cap: nat) returns (later: real)
    requires CapCheck(recent, now, span, cap).Some? && |Outlasting(recent, now, span)| >= cap
    ensures later > now + CapCheck(recent, now, span, cap).value && CapCheck(recent, later, span, cap).Some?
  {
    var next := MinOf(Outlasting(recent, now, span));
    NextInHistory(recent, now, span);
    later := next + span;
    assert FromOn(recent, later - span) == Outlasting(recent, now, span);
  }

  lemma {:induction false} NextInHistory(recent: seq<real>, now: real, span: real)
    requires FromOn(recent, now - span) != [] && Outlasting(recent, now, span) != []
    ensures var next := MinOf(Outlasting(recent, now, span));
            next > MinOf(FromOn(recent, now - span)) && FromOn(recent, next) == Outlasting(recent, now, span)
  {
    var inWindow := FromOn(recent, now - span);
    NextNewest(inWindow, MinOf(inWindow));
    MinOfIsLeast(inWindow);
    FromOnElements(recent, now - span);
    FromOnTwice(recent, now - span, MinOf(Outlasting(recent, now, span)));
  }

  lemma {:induction false} NextNewest(s: seq<real>, x: real)
    requires NewerThan(s, x) != []
    ensures var next := MinOf(NewerThan(s, x)); next > x && NewerThan(s, x) == FromOn(s, next)
  {
    var newer := NewerThan(s, x);
    MinOfIsLeast(newer);
    NewerElements(s, x);
    forall i | 0 <= i < |s| && s[i] > x ensures s[i] >= MinOf(newer) {
      assert s[i] in newer;
    }
    NewerIsFrom(s, x, MinOf(newer));
  }

  lemma {:induction false} NewerElements(s: seq<real>, x: real)
    ensures forall t :: t in NewerThan(s, x) <==> t in s && t > x
  {
    if s != [] {
      NewerElements(s[..|s| - 1], x);
      assert s == s[..|s| - 1] + [s[|s| - 1]];
    }
  }

  lemma {:induction false} NewerHoldsWindow(s: seq<real>, x: real, cutoff: real)
    requires x < cutoff
    ensures |FromOn(s, cutoff)| <= |NewerThan(s, x)|
  {
    if s != [] {
      NewerHoldsWindow(s[..|s| - 1], x, cutoff);
    }
  }

  /** No element lies strictly between x and y. */
  lemma {:induction false} NewerIsFrom(s: seq<real>, x: real, y: real)
    requires forall i :: 0 <= i < |s| ==> (s[i] > x <==> s[i] >= y)
    ensures NewerThan(s, x) == FromOn(s, y)
  {
    if s != [] {
      NewerIsFrom(s[..|s| - 1], x, y);
    }
  }

  /** In particular a window holding exactly the cap's number clears. */
  lemma {:induction false} ExactlyFullCapClears(recent: seq<real>, now: real, span: real, cap: nat)
    requires CapCheck(recent, now, span, cap).Some? && |FromOn(recent, now - span)| == cap
    ensures |Outlasting(recent, now, span)| < cap
  {
    var inWindow := FromOn(recent, now - span);
    MinOfIsLeast(inWindow);
    NewerLosesOldest(inWindow, MinOf(inWindow));
  }

  lemma {:induction false} NewerLosesOldest(s: seq<real>, x: real)
    ensures |NewerThan(s, x)| <= |s|
    ensures x in s ==> |NewerThan(s, x)| < |s|
  {
    if s != [] {
      var n := |s| - 1;
      NewerLosesOldest(s[..n], x);
      assert s == s[..n] + [s[n]];
    }
  }

  /** A cap never trips by waiting. */
  lemma {:induction false} CapNeverTripsByWaiting(recent: seq<real>, now: real, span: real, cap: nat, later: real)
    requires now <= later && CapCheck(recent, now, span, cap).None?
    ensures CapCheck(recent, later, span, cap).None?
  {
    var early, late := now - span, later - span;
    FromOnShrinks(recent, early, late);
  }

  /** A whole-gate cap denial: reason and countdown persist until retry-after reaches zero. */
  lemma {:induction false} CapDenialPersists(recent: seq<real>, now: real, p: Policy, later: real)
    requires EvaluateBackoff(recent, now, p).Denied? && !EvaluateBackoff(recent, now, p).reason.Cooldown?
    requires now <= later <= now + EvaluateBackoff(recent, now, p).retryAfter
    ensures var v := EvaluateBackoff(recent, now, p);
            EvaluateBackoff(recent, later, p) == Denied(v.reason, v.retryAfter - (later - now))
  {
    if EvaluateBackoff(recent, now, p).reason.DailyCap? {
      CapCountsDown(recent, now, DAY_SECONDS, p.maxPerDay, later);
    } else {
      CapNeverTripsByWaiting(recent, now, DAY_SECONDS, p.maxPerDay, later);
      CapCountsDown(recent, now, HOUR_SECONDS, p.maxPerHour, later);
    }
  }

  // ---- the ladder ----

  ghost predicate NonDecreasing(cooldowns: seq<Seconds>) {
    forall i, j :: 0 <= i < j < |cooldowns| ==> cooldowns[i] <= cooldowns[j]
  }

  lemma {:induction false} RungMonotone(cooldowns: seq<Seconds>, a: nat, b: nat)
    requires cooldowns != [] && NonDecreasing(cooldowns) && 0 < a <= b
    ensures Rung(cooldowns, a) <= Rung(cooldowns, b)
  {
  }

  /** What remains of the run later keeps its newest kick. */
  lemma {:induction false} RunKeepsNewest(recent: seq<real>, early: real, late: real)
    requires early <= late && FromOn(recent, late) != []
    ensures |FromOn(recent, late)| <= |FromOn(recent, early)|
    ensures FromOn(recent, early) != [] && MaxOf(FromOn(recent, late)) == MaxOf(FromOn(recent, early))
  {
    FromOnShrinks(recent, early, late);
    FromOnElements(recent, early);
    FromOnElements(recent, late);
    var run, left := FromOn(recent, early), FromOn(recent, late);
    MaxOfIsGreatest(left);
    assert MaxOf(left) in run;
    MaxOfIsGreatest(run);
    assert MaxOf(run) in left;
  }

  /** With a non-decreasing ladder the cooldown has passed at retry-after and stays passed;
      retry-after is an upper bound because older kicks may leave the recovery window first. */
  lemma {:induction false} CooldownPassesAtRetryAfter(recent: seq<real>, now: real, cooldowns: seq<Seconds>, later: real)
    requires NonDecreasing(cooldowns) && now <= later
    requires CooldownCheck(recent, now, cooldowns).Some? ==>
               later >= now + CooldownCheck(recent, now, cooldowns).value
    ensures CooldownCheck(recent, later, cooldowns).None?
  {
    if cooldowns != [] {
      var w := MaxOf(cooldowns);
      var run, left := FromOn(recent, now - w), FromOn(recent, later - w);
      if left != [] {
        RunKeepsNewest(recent, now - w, later - w);
        RungMonotone(cooldowns, |left|, |run|);
      }
    }
  }

  /** No re-locking: with a non-decreasing ladder, once the gate allows a kick it goes on
      allowing it until the next one. */
  lemma {:induction false} AllowedStaysAllowed(recent: seq<real>, now: real, p: Policy, later: real)
    requires NonDecreasing(p.cooldowns) && now <= later
    requires EvaluateBackoff(recent, now, p).Allowed?
    ensures EvaluateBackoff(recent, later, p).Allowed?
  {
    CapNeverTripsByWaiting(recent, now, DAY_SECONDS, p.maxPerDay, later);
    CapNeverTripsByWaiting(recent, now, HOUR_SECONDS, p.maxPerHour, later);
    CooldownPassesAtRetryAfter(recent, now, p.cooldowns, later);
  }

  /** The verdict on a run that is known. */
  lemma {:induction false} CooldownOfRun(recent: seq<real>, now: real, cooldowns: seq<Seconds>, run: seq<real>, newest: real)
    requires cooldowns != [] && run != [] && FromOn(recent, now - MaxOf(cooldowns)) == run
    requires run[|run| - 1] == newest && NoneAfter(run, newest)
    ensures CooldownCheck(recent, now, cooldowns).Some? <==> now - newest < Rung(cooldowns, |run|)
  {
    MaxOfIsGreatest(run);
  }

  // ---- the quarantine counter ----

  datatype MacState = MacState(kickCount: nat, quarantineNotified: bool)

  type States = map<Mac, MacState>

  function Entry(states: States, mac: Mac): MacState {
    if mac in states then states[mac] else MacState(0, false)
  }

  class BackoffManager {
    var states: States
    var quarantineAfterKicks: int

    constructor (quarantineAfterKicks: int)
      ensures states == map[] && this.quarantineAfterKicks == quarantineAfterKicks
    {
      states := map[];
      this.quarantineAfterKicks := quarantineAfterKicks;
    }

    /** First sight of a MAC creates its entry. */
    method Touch(mac: Mac) returns (entry: MacState)
      modifies this`states
      ensures entry == Entry(old(states), mac)
      ensures states == old(states)[mac := entry]
    {
      if mac !in states {
        states := states[mac := MacState(0, false)];
      }
      entry := states[mac];
    }

    method RecordKick(mac: Mac)
      modifies this`states
      ensures var was := Entry(old(states), mac);
              states == old(states)[mac := was.(kickCount := was.kickCount + 1)]
    {
      var entry := Touch(mac);
      states := states[mac := entry.(kickCount := entry.kickCount + 1)];
    }

    method ShouldQuarantine(mac: Mac) returns (quarantined: bool)
      modifies this`states
      ensures quarantined == (Entry(old(states), mac).kickCount >= quarantineAfterKicks)
      ensures states == old(states)[mac := Entry(old(states), mac)]
    {
      var entry := Touch(mac);
      quarantined := entry.kickCount >= quarantineAfterKicks;
    }

    method QuarantineNotified(mac: Mac) returns (notified: bool)
      modifies this`states
      ensures notified == Entry(old(states), mac).quarantineNotified
      ensures states == old(states)[mac := Entry(old(states), mac)]
    {
      var entry := Touch(mac);
      notified := entry.quarantineNotified;
    }

    method MarkQuarantineNotified(mac: Mac)
      modifies this`states
      ensures states == old(states)[mac := Entry(old(states), mac).(quarantineNotified := true)]
    {
      var entry := Touch(mac);
      states := states[mac := entry.(quarantineNotified := true)];
    }
  }
}
