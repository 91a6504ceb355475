/** What the gate's retry-after means: exactly when a cooldown denial is over at that time, and
    exactly when it lasts until then. */
module RetryAfter {
  import opened Backoff
  import opened Config
  import opened Windows

  /** The run a cooldown check looks at. */
  function RunAt(recent: seq<real>, now: real, c: seq<Seconds>): seq<real>
    requires c != []
  {
    FromOn(recent, now - MaxOf(c))
  }

  /** The time a denial at `now` names. */
  function ClearsAt(recent: seq<real>, now: real, c: seq<Seconds>): real
    requires CooldownCheck(recent, now, c).Some?
  {
    now + CooldownCheck(recent, now, c).value
  }

  lemma {:induction false} RungIsBelowLongest(c: seq<Seconds>, length: nat)
    requires c != [] && length > 0
    ensures Rung(c, length) <= MaxOf(c)
  {
    MaxOfIsGreatest(c);
  }

  /** The newest kick of the run is still there when the denial should be over, one rung old. */
  lemma {:induction false} NewestRemains(recent: seq<real>, now: real, c: seq<Seconds>)
    requires CooldownCheck(recent, now, c).Some?
    ensures c != [] && RunAt(recent, now, c) != [] && now < ClearsAt(recent, now, c)
    ensures var run, left := RunAt(recent, now, c), RunAt(recent, ClearsAt(recent, now, c), c);
            && left != [] && MaxOf(left) == MaxOf(run)
            && ClearsAt(recent, now, c) == MaxOf(run) + Rung(c, |run|)
  {
    var run := RunAt(recent, now, c);
    var at := ClearsAt(recent, now, c);
    RungIsBelowLongest(c, |run|);
    MaxOfIsGreatest(run);
    NewestStays(recent, now - MaxOf(c), at - MaxOf(c));
  }

  lemma {:induction false} NewestStays(recent: seq<real>, early: real, late: real)
    requires early <= late && FromOn(recent, early) != [] && late <= MaxOf(FromOn(recent, early))
    ensures FromOn(recent, late) != [] && MaxOf(FromOn(recent, late)) == MaxOf(FromOn(recent, early))
  {
    MaxOfIsGreatest(FromOn(recent, early));
    FromOnElements(recent, early);
    FromOnElements(recent, late);
    assert MaxOf(FromOn(recent, early)) in FromOn(recent, late);
    RunKeepsNewest(recent, early, late);
  }

  /** For every ladder, a cooldown denial is over at its retry-after if and only if the run left
      by then is on a rung no longer than the one that denied. */
  lemma {:induction false} OverAtRetryAfterIff(recent: seq<real>, now: real, c: seq<Seconds>)
    requires CooldownCheck(recent, now, c).Some?
    ensures c != [] && RunAt(recent, now, c) != [] && RunAt(recent, ClearsAt(recent, now, c), c) != []
    ensures CooldownCheck(recent, ClearsAt(recent, now, c), c).None?
       <==> Rung(c, |RunAt(recent, ClearsAt(recent, now, c), c)|) <= Rung(c, |RunAt(recent, now, c)|)
  {
    NewestRemains(recent, now, c);
  }

  /** On a non-decreasing ladder, it lasts until its retry-after if and only if the two rungs are
      equal: otherwise the run shrinks to a shorter rung and the gate opens early. */
  lemma {:induction false} LastsUntilRetryAfterIff(recent: seq<real>, now: real, c: seq<Seconds>)
    requires NonDecreasing(c) && CooldownCheck(recent, now, c).Some?
    ensures c != [] && RunAt(recent, now, c) != [] && RunAt(recent, ClearsAt(recent, now, c), c) != []
    ensures (forall later :: now <= later < ClearsAt(recent, now, c) ==> CooldownCheck(recent, later, c).Some?)
       <==> Rung(c, |RunAt(recent, ClearsAt(recent, now, c), c)|) == Rung(c, |RunAt(recent, now, c)|)
  {
    NewestRemains(recent, now, c);
    var at := ClearsAt(recent, now, c);
    if Rung(c, |RunAt(recent, at, c)|) == Rung(c, |RunAt(recent, now, c)|) {
      forall later | now <= later < at ensures CooldownCheck(recent, later, c).Some? {
        SameRungDenies(recent, now, c, later);
      }
    } else {
      var later := OpensEarly(recent, now, c);
    }
  }

  lemma {:induction false} SameRungDenies(recent: seq<real>, now: real, c: seq<Seconds>, later: real)
    requires NonDecreasing(c) && CooldownCheck(recent, now, c).Some? && now <= later < ClearsAt(recent, now, c)
    requires c != [] && RunAt(recent, now, c) != [] && RunAt(recent, ClearsAt(recent, now, c), c) != []
    requires Rung(c, |RunAt(recent, ClearsAt(recent, now, c), c)|) == Rung(c, |RunAt(recent, now, c)|)
    ensures CooldownCheck(recent, later, c).Some?
  {
    NewestRemains(recent, now, c);
    var at, window: real := ClearsAt(recent, now, c), MaxOf(c);
    FromOnShrinks(recent, now - window, later - window);
    FromOnShrinks(recent, later - window, at - window);
    RunKeepsNewest(recent, later - window, at - window);
    var between := RunAt(recent, later, c);
    RungMonotone(c, |RunAt(recent, at, c)|, |between|);
    RungMonotone(c, |between|, |RunAt(recent, now, c)|);
  }

  /** A moment before `cutoff` from which on nothing leaves until `cutoff`. */
  lemma {:induction false} QuietBefore(recent: seq<real>, cutoff: real) returns (from: real)
    ensures from < cutoff && forall x :: from <= x <= cutoff ==> FromOn(recent, x) == FromOn(recent, cutoff)
  {
    from := cutoff - 1.0;
    if recent != [] {
      var n := |recent| - 1;
      from := QuietBefore(recent[..n], cutoff);
      if from <= recent[n] < cutoff { from := (recent[n] + cutoff) / 2.0; }
    }
  }

  /** When the run ends on a shorter rung, the gate has opened before retry-after. */
  lemma {:induction false} OpensEarly(recent: seq<real>, now: real, c: seq<Seconds>) returns (later: real)
    requires NonDecreasing(c) && CooldownCheck(recent, now, c).Some?
    requires c != [] && RunAt(recent, now, c) != [] && RunAt(recent, ClearsAt(recent, now, c), c) != []
    requires Rung(c, |RunAt(recent, ClearsAt(recent, now, c), c)|) != Rung(c, |RunAt(recent, now, c)|)
    ensures now <= later < ClearsAt(recent, now, c) && CooldownCheck(recent, later, c).None?
  {
    NewestRemains(recent, now, c);
    var at, window: real := ClearsAt(recent, now, c), MaxOf(c);
    var run, left := RunAt(recent, now, c), RunAt(recent, at, c);
    FromOnShrinks(recent, now - window, at - window);
    RungMonotone(c, |left|, |run|);
    var from := QuietBefore(recent, at - window);
    later := Latest(now, MaxOf(run) + Rung(c, |left|), from + window);
    assert from <= later - window <= at - window;
    assert RunAt(recent, later, c) == left;
  }

  function Latest(a: real, b: real, c: real): real {
    var ab := if a >= b then a else b;
    if ab >= c then ab else c
  }

  /** The same for the whole gate: when the cooldown is what denies, the caps never step in. */
  lemma {:induction false} GateOpensAtRetryAfterIff(recent: seq<real>, now: real, p: Policy)
    requires EvaluateBackoff(recent, now, p).Denied? && EvaluateBackoff(recent, now, p).reason.Cooldown?
    ensures var at := now + EvaluateBackoff(recent, now, p).retryAfter;
            && p.cooldowns != [] && RunAt(recent, now, p.cooldowns) != [] && RunAt(recent, at, p.cooldowns) != []
            && (EvaluateBackoff(recent, at, p).Allowed?
                <==> Rung(p.cooldowns, |RunAt(recent, at, p.cooldowns)|) <= Rung(p.cooldowns, |RunAt(recent, now, p.cooldowns)|))
  {
    OverAtRetryAfterIff(recent, now, p.cooldowns);
    NewestRemains(recent, now, p.cooldowns);
    CapNeverTripsByWaiting(recent, now, DAY_SECONDS, p.maxPerDay, ClearsAt(recent, now, p.cooldowns));
    CapNeverTripsByWaiting(recent, now, HOUR_SECONDS, p.maxPerHour, ClearsAt(recent, now, p.cooldowns));
  }

  // ---- each failure, shown ----

  /** On the ladder 10, 100 with kicks at 0 and 50, the denial at 60 names 150, and the gate is
      open at 101. */
  lemma {:induction false} OpensBeforeRetryAfter() returns (recent: seq<real>, c: seq<Seconds>)
    ensures NonDecreasing(c) && CooldownCheck(recent, 60.0, c) == Some(90.0)
    ensures CooldownCheck(recent, 101.0, c).None?
  {
    recent, c := [0.0, 50.0], [10.0, 100.0];
    TwoRungs(10.0, 100.0);
  }

  /** On the ladder 100, 10 with kicks at 0 and 95, the denial at 96 names 105, and the gate
      still denies there. */
  lemma {:induction false} DeniesAtRetryAfter() returns (recent: seq<real>, c: seq<Seconds>)
    ensures !NonDecreasing(c) && CooldownCheck(recent, 96.0, c) == Some(9.0)
    ensures CooldownCheck(recent, 105.0, c).Some?
  {
    recent, c := [0.0, 95.0], [100.0, 10.0];
    TwoRungs(100.0, 10.0);
  }

  /** Two kicks in the hour when a reload lowers the cap to one: the denial at 20 names 3600, and
      the cap still holds at 3601. */
  lemma {:induction false} OverfullCapOutlastsRetryAfter() returns (recent: seq<real>)
    ensures CapCheck(recent, 20.0, HOUR_SECONDS, 1) == Some(3580.0)
    ensures CapCheck(recent, 3601.0, HOUR_SECONDS, 1).Some?
  {
    recent := [0.0, 10.0];
  }

  lemma {:induction false} TwoRungs(a: Seconds, b: Seconds)
    ensures var c: seq<Seconds> := [a, b]; MaxOf(c) == (if a >= b then a else b) && Rung(c, 1) == a && Rung(c, 2) == b
  {
    var c: seq<Seconds> := [a, b];
    assert c[..1] == [a];
  }
}
