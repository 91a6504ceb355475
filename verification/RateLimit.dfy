/** The kick rate limiter: a global single-flight timer and a per-AP cap over pruned deques. */
module RateLimit {
  import opened Config
  import opened Windows

  datatype LimitReason = GlobalRateLimit | PerApCap

  datatype Gate = Open | Deferred(reason: LimitReason, retryAfter: real)

  /** Knobs as of the last reload, and the in-flight state a reload keeps. */
  datatype Limiter = Limiter(rails: SafetyRails, lastKickAt: Option<real>, perAp: map<Ap, seq<real>>)

  function Deque(l: Limiter, ap: Ap): seq<real> {
    if ap in l.perAp then l.perAp[ap] else []
  }

  function GlobalGate(l: Limiter, now: real): Gate {
    if l.rails.minSecondsBetweenKicks > 0.0 && l.lastKickAt.Some?
       && now - l.lastKickAt.value < l.rails.minSecondsBetweenKicks
    then Deferred(GlobalRateLimit, l.rails.minSecondsBetweenKicks - (now - l.lastKickAt.value))
    else Open
  }

  function Pruned(l: Limiter, ap: Ap, now: real): Limiter {
    l.(perAp := l.perAp[ap := DropBefore(Deque(l, ap), now - l.rails.perApWindowSeconds)])
  }

  /** The fresh-kick gate: the global timer first, then the per-AP cap. Only the second
      prunes. */
  function AfterCanKick(l: Limiter, ap: Ap, now: real): Limiter {
    if GlobalGate(l, now).Deferred? || l.rails.maxKicksPerApPerWindow == 0 then l
    else Pruned(l, ap, now)
  }

  function KickGate(l: Limiter, ap: Ap, now: real): Gate {
    if GlobalGate(l, now).Deferred? then GlobalGate(l, now)
    else if l.rails.maxKicksPerApPerWindow == 0 then Open
    else
      var deq := Deque(Pruned(l, ap, now), ap);
      if |deq| >= l.rails.maxKicksPerApPerWindow
      then Deferred(PerApCap, l.rails.perApWindowSeconds - (now - deq[0])) else Open
  }

  function RecordedKick(l: Limiter, ap: Ap, now: real): Limiter {
    var timed := l.(lastKickAt := Some(now));
    if l.rails.maxKicksPerApPerWindow > 0
    then timed.(perAp := l.perAp[ap := Deque(l, ap) + [now]]) else timed
  }

  function RecordedWireCall(l: Limiter, now: real): Limiter { l.(lastKickAt := Some(now)) }

  class KickRateLimiter {
    var rails: SafetyRails
    var lastKickAt: Option<real>
    var perAp: map<Ap, seq<real>>

    function Model(): Limiter reads this { Limiter(rails, lastKickAt, perAp) }

    constructor (rails: SafetyRails)
      ensures Model() == Limiter(rails, None, map[])
    {
      this.rails := rails;
      lastKickAt := None;
      perAp := map[];
    }

    method CheckGlobal(now: real) returns (gate: Gate)
      ensures gate == GlobalGate(Model(), now)
    {
      if rails.minSecondsBetweenKicks > 0.0 && lastKickAt.Some? {
        var elapsed := now - lastKickAt.value;
        if elapsed < rails.minSecondsBetweenKicks {
          return Deferred(GlobalRateLimit, rails.minSecondsBetweenKicks - elapsed);
        }
      }
      return Open;
    }

    method Prune(ap: Ap, now: real) returns (deq: seq<real>)
      modifies this`perAp
      ensures Model() == Pruned(old(Model()), ap, now)
      ensures deq == Deque(Model(), ap)
    {
      if ap !in perAp { perAp := perAp[ap := []]; }
      ghost var before := perAp[ap];
      var cutoff := now - rails.perApWindowSeconds;
      deq := perAp[ap];
      while deq != [] && deq[0] < cutoff
        invariant DropBefore(before, cutoff) == DropBefore(deq, cutoff)
        decreases |deq|
      {
        deq := deq[1..];
      }
      perAp := perAp[ap := deq];
    }

    method CanKick(ap: Ap, now: real) returns (gate: Gate)
      modifies this`perAp
      ensures Model() == AfterCanKick(old(Model()), ap, now)
      ensures gate == KickGate(old(Model()), ap, now)
    {
      gate := CheckGlobal(now);
      if gate.Deferred? { return; }
      if rails.maxKicksPerApPerWindow > 0 {
        var deq := Prune(ap, now);
        if |deq| >= rails.maxKicksPerApPerWindow {
          return Deferred(PerApCap, rails.perApWindowSeconds - (now - deq[0]));
        }
      }
      return Open;
    }

    method CanWireCall(now: real) returns (gate: Gate)
      ensures gate == GlobalGate(Model(), now)
    {
      gate := CheckGlobal(now);
    }

    method RecordKick(ap: Ap, now: real)
      modifies this`lastKickAt, this`perAp
      ensures Model() == RecordedKick(old(Model()), ap, now)
    {
      lastKickAt := Some(now);
      if rails.maxKicksPerApPerWindow > 0 {
        if ap !in perAp { perAp := perAp[ap := []]; }
        perAp := perAp[ap := perAp[ap] + [now]];
      }
    }

    method RecordWireCall(now: real)
      modifies this`lastKickAt
      ensures Model() == RecordedWireCall(old(Model()), now)
    {
      lastKickAt := Some(now);
    }
  }

  // ---- when the gate is open, and when it next will be ----

  /** The single-flight minimum is off, nothing has gone out, or it has gone by. */
  predicate TimerPassed(l: Limiter, now: real) {
    l.lastKickAt.Some? && l.rails.minSecondsBetweenKicks != 0.0 ==>
      l.lastKickAt.value + l.rails.minSecondsBetweenKicks <= now
  }

  /** The cap is off, or fewer than its number of kicks are left of the AP's deque. */
  predicate HasRoom(l: Limiter, ap: Ap, now: real) {
    l.rails.maxKicksPerApPerWindow == 0
    || |DropBefore(Deque(l, ap), now - l.rails.perApWindowSeconds)| < l.rails.maxKicksPerApPerWindow
  }

  /** The gate both ways: open exactly when the timer has passed and the AP has room, and a
      deferral names the timer whenever the timer is a reason. */
  lemma {:induction false} GateOpensIff(l: Limiter, ap: Ap, now: real)
    ensures GlobalGate(l, now).Open? <==> TimerPassed(l, now)
    ensures KickGate(l, ap, now).Open? <==> TimerPassed(l, now) && HasRoom(l, ap, now)
    ensures KickGate(l, ap, now).Deferred? ==>
              (KickGate(l, ap, now).reason.GlobalRateLimit? <==> !TimerPassed(l, now))
  {
  }

  /** The timer's retry-after is exactly when the timer passes. */
  lemma {:induction false} TimerRetryIsExact(l: Limiter, ap: Ap, now: real, later: real)
    requires KickGate(l, ap, now).Deferred? && KickGate(l, ap, now).reason.GlobalRateLimit?
    ensures KickGate(l, ap, now) == GlobalGate(l, now) && KickGate(l, ap, now).retryAfter > 0.0
    ensures TimerPassed(l, later) <==> later >= now + KickGate(l, ap, now).retryAfter
  {
  }

  /** The cap's retry-after is when the oldest kick left of the deque is a whole window old. Up
      to then the gate defers, second for second; after it that kick is gone, and a deque that
      was exactly full has room. */
  lemma {:induction false} CapRetryIsOldest(l: Limiter, ap: Ap, now: real, later: real)
    requires KickGate(l, ap, now).Deferred? && KickGate(l, ap, now).reason.PerApCap?
    ensures var window := l.rails.perApWindowSeconds;
            var kept := DropBefore(Deque(l, ap), now - window);
            var at := now + KickGate(l, ap, now).retryAfter;
            && kept != [] && at == kept[0] + window && now <= at
            && (now <= later <= at ==> KickGate(l, ap, later) == Deferred(PerApCap, at - later))
            && (at < later && |kept| == l.rails.maxKicksPerApPerWindow ==> KickGate(l, ap, later).Open?)
  {
    var window: real := l.rails.perApWindowSeconds;
    var kept := DropBefore(Deque(l, ap), now - window);
    var d := DropBeforeDropsPrefix(Deque(l, ap), now - window);
    GateOpensIff(l, ap, now);
    if now <= later {
      LaterDrop(Deque(l, ap), kept, now - window, later - window);
      GateOpensIff(l, ap, later);
    }
  }

  // ---- what a reload can lose ----

  /** After a reload that grows the window, the deque can under-count: a kick pruned under
      the short window is still inside the long one. */
  lemma {:induction false} GrownWindowUnderCounts() returns (l: Limiter, ap: Ap, grown: SafetyRails)
    ensures l.rails.maxKicksPerApPerWindow == grown.maxKicksPerApPerWindow == 1
    ensures l.rails.perApWindowSeconds < grown.perApWindowSeconds
    ensures // one kick at time 0, one gate at 11 under the short window, then a reload
      var gated := AfterCanKick(RecordedKick(l, ap, 0.0), ap, 11.0);
      var reloaded := gated.(rails := grown);
      KickGate(reloaded, ap, 12.0).Open? && 12.0 - 0.0 <= grown.perApWindowSeconds
  {
    l := Limiter(SafetyRails(0.0, 1, 10.0), None, map[]);
    ap := "ap1";
    grown := SafetyRails(0.0, 1, 60.0);
    var kicked := RecordedKick(l, ap, 0.0);
    assert Deque(kicked, ap) == [0.0];
    assert DropBefore([0.0], 1.0) == DropBefore([], 1.0) == [];
    assert Deque(AfterCanKick(kicked, ap, 11.0), ap) == [];
  }

  /** The limiter after these fresh kicks at one AP. */
  function KickedAll(l: Limiter, ap: Ap, times: seq<real>): Limiter {
    if times == [] then l
    else RecordedKick(KickedAll(l, ap, times[..|times| - 1]), ap, times[|times| - 1])
  }

  lemma {:induction false} OffTracksNothing(l: Limiter, ap: Ap, times: seq<real>)
    requires l.rails.maxKicksPerApPerWindow == 0
    ensures KickedAll(l, ap, times).perAp == l.perAp && KickedAll(l, ap, times).rails == l.rails
    ensures times != [] ==> KickedAll(l, ap, times).lastKickAt == Some(times[|times| - 1])
  {
    if times != [] {
      OffTracksNothing(l, ap, times[..|times| - 1]);
    }
  }

  /** With the cap off kicks are not tracked: as many as the cap turned on allows, all still
      inside its window, and the gate admits another one, where a limiter holding the same
      history refuses it. */
  lemma {:induction false} CapTurnedOnUnderCounts(l: Limiter, ap: Ap, times: seq<real>, on: SafetyRails, now: real)
    requires l.rails.maxKicksPerApPerWindow == 0 && ap !in l.perAp
    requires 0 < on.maxKicksPerApPerWindow <= |times| && Ascending(times) && now - times[0] <= on.perApWindowSeconds
    requires now - times[|times| - 1] >= on.minSecondsBetweenKicks
    ensures KickGate(KickedAll(l, ap, times).(rails := on), ap, now).Open?
    ensures var remembers := Limiter(on, Some(times[|times| - 1]), map[ap := times]);
            KickGate(remembers, ap, now).Deferred? && KickGate(remembers, ap, now).reason.PerApCap?
  {
    OffTracksNothing(l, ap, times);
    assert DropBefore(times, now - on.perApWindowSeconds) == times;
  }
}
