/** Whole-run guarantees of the per-AP cap: how many fresh kicks an AP sees per window, and
    exactly when a pruned deque, after reloads that switch the cap off and on, still counts
    what the full history holds. */
module WindowRuns {
  import opened Config
  import opened Windows
  import opened World
  import opened Moves
  import A = Actor
  import L = Ledger
  import RL = RateLimit
  import WR = WireRuns

  predicate IsFreshAt(call: A.WireCall, ap: Ap) { call.apId == ap && !call.kind.RowFallback? }

  /** When this AP's fresh kicks were recorded. */
  function FreshAt(wire: seq<A.WireCall>, ap: Ap): seq<real> {
    if wire == [] then [] else
      var last := wire[|wire| - 1];
      FreshAt(wire[..|wire| - 1], ap) + (if IsFreshAt(last, ap) then [last.at] else [])
  }

  /** Those recorded while the cap was on. */
  function CountedAt(wire: seq<A.WireCall>, ap: Ap): seq<real> {
    if wire == [] then [] else
      var last := wire[|wire| - 1];
      CountedAt(wire[..|wire| - 1], ap) + (if IsFreshAt(last, ap) && last.counted then [last.at] else [])
  }

  /** Those made while it was off, which no deque has ever held. */
  function UncountedAt(wire: seq<A.WireCall>, ap: Ap): seq<real> {
    if wire == [] then [] else
      var last := wire[|wire| - 1];
      UncountedAt(wire[..|wire| - 1], ap) + (if IsFreshAt(last, ap) && !last.counted then [last.at] else [])
  }

  lemma {:induction false} CountedAtAppend(wire: seq<A.WireCall>, call: A.WireCall, ap: Ap)
    ensures CountedAt(wire + [call], ap)
         == CountedAt(wire, ap) + (if IsFreshAt(call, ap) && call.counted then [call.at] else [])
  {
    assert (wire + [call])[..|wire|] == wire;
  }

  /** In every window the fresh kicks are the counted and the uncounted ones. */
  lemma {:induction false} FreshIsCountedOrNot(wire: seq<A.WireCall>, ap: Ap, lo: real, hi: real)
    ensures CountIn(FreshAt(wire, ap), lo, hi)
         == CountIn(CountedAt(wire, ap), lo, hi) + CountIn(UncountedAt(wire, ap), lo, hi)
  {
    if wire != [] {
      var n := |wire| - 1;
      FreshIsCountedOrNot(wire[..n], ap, lo, hi);
      CountInAppend(FreshAt(wire[..n], ap), wire[n].at, lo, hi);
      CountInAppend(CountedAt(wire[..n], ap), wire[n].at, lo, hi);
      CountInAppend(UncountedAt(wire[..n], ap), wire[n].at, lo, hi);
    }
  }

  /** From a cutoff on, the counted kicks are all of them exactly when none was uncounted. */
  lemma {:induction false} CountedIsFreshIff(wire: seq<A.WireCall>, ap: Ap, cutoff: real)
    ensures FromOn(CountedAt(wire, ap), cutoff) == FromOn(FreshAt(wire, ap), cutoff)
       <==> FromOn(UncountedAt(wire, ap), cutoff) == []
  {
    FromOnLengths(wire, ap, cutoff);
    if FromOn(UncountedAt(wire, ap), cutoff) == [] {
      NoneUncounted(wire, ap, cutoff);
    }
  }

  lemma {:induction false} FromOnLengths(wire: seq<A.WireCall>, ap: Ap, cutoff: real)
    ensures |FromOn(FreshAt(wire, ap), cutoff)|
         == |FromOn(CountedAt(wire, ap), cutoff)| + |FromOn(UncountedAt(wire, ap), cutoff)|
  {
    if wire != [] {
      var n := |wire| - 1;
      FromOnLengths(wire[..n], ap, cutoff);
      FromOnAppend(FreshAt(wire[..n], ap), wire[n].at, cutoff);
      FromOnAppend(CountedAt(wire[..n], ap), wire[n].at, cutoff);
      FromOnAppend(UncountedAt(wire[..n], ap), wire[n].at, cutoff);
    }
  }

  lemma {:induction false} NoneUncounted(wire: seq<A.WireCall>, ap: Ap, cutoff: real)
    requires FromOn(UncountedAt(wire, ap), cutoff) == []
    ensures FromOn(CountedAt(wire, ap), cutoff) == FromOn(FreshAt(wire, ap), cutoff)
  {
    if wire != [] {
      var n := |wire| - 1;
      FromOnAppend(FreshAt(wire[..n], ap), wire[n].at, cutoff);
      FromOnAppend(CountedAt(wire[..n], ap), wire[n].at, cutoff);
      FromOnAppend(UncountedAt(wire[..n], ap), wire[n].at, cutoff);
      NoneUncounted(wire[..n], ap, cutoff);
    }
  }

  // ---- what is in force ----

  function WindowOf(p: A.Pipe): Seconds { p.limiter.rails.perApWindowSeconds }

  /** Caps may go off and on but are never looser than `most`; windows change at will. */
  predicate CapAtMost(e: Event, most: nat) {
    (e.Reload? ==> e.config.rails.maxKicksPerApPerWindow <= most)
    && (e.Restart? ==> e.config.rails.maxKicksPerApPerWindow <= most)
  }

  ghost predicate CapsAtMost(ws: seq<World>, events: seq<Event>, most: nat) {
    && |ws| == |events| + 1 && most > 0
    && (forall i :: 0 <= i < |ws[0].pipes| ==> ws[0].pipes[i].config.rails.maxKicksPerApPerWindow <= most)
    && forall j :: 0 <= j < |events| ==> CapAtMost(events[j], most)
  }

  /** No reload grows a pipe's window. A restart may pick any window. */
  ghost predicate WindowNarrows(w: World, e: Event) {
    e.Reload? ==> forall i :: 0 <= i < |w.pipes| ==> e.config.rails.perApWindowSeconds <= WindowOf(w.pipes[i])
  }

  ghost predicate RailsOnlyNarrow(ws: seq<World>, events: seq<Event>, most: nat) {
    CapsAtMost(ws, events, most) && forall j :: 0 <= j < |events| ==> WindowNarrows(ws[j], events[j])
  }

  /** The smallest window that has been in force in pipe i since it was built. */
  function LeastWindow(ws: seq<World>, events: seq<Event>, k: nat, i: nat): Seconds
    requires |ws| == |events| + 1 && k < |ws|
  {
    if k == 0 then (if i < |ws[0].pipes| then WindowOf(ws[0].pipes[i]) else 0.0)
    else
      var before := LeastWindow(ws, events, k - 1, i);
      match events[k - 1]
      case Reload(config) => Narrower(before, config.rails.perApWindowSeconds)
      case Restart(config, _, _, _) => config.rails.perApWindowSeconds
      case _ => before
  }

  function Narrower(a: Seconds, b: Seconds): Seconds { if b < a then b else a }

  // ---- the deque against the counted kicks ----

  /** The deque holds the counted kicks of a window no longer than the one in force, and they
      are spaced by the cap there. */
  ghost predicate WindowTracked(p: A.Pipe, ap: Ap, window: Seconds, most: nat, mono: real) {
    && window <= WindowOf(p) && p.limiter.rails.maxKicksPerApPerWindow <= most
    && Tracked(RL.Deque(p.limiter, ap), CountedAt(p.wire, ap), window, mono)
    && Spaced(CountedAt(p.wire, ap), window, most)
  }

  /** A fresh kick on the limiter: here, with the cap on, the gate pruned, found room, and the
      record appended; elsewhere, or with the cap off, nothing changed. */
  lemma {:induction false} KickOnDeque(l: RL.Limiter, ap: Ap, other: Ap, g: real, t: real)
    requires RL.KickGate(l, other, g).Open?
    ensures var kept := DropBefore(RL.Deque(l, ap), g - l.rails.perApWindowSeconds);
            var after := RL.Deque(RL.RecordedKick(RL.AfterCanKick(l, other, g), other, t), ap);
            if ap == other && l.rails.maxKicksPerApPerWindow > 0
            then |kept| < l.rails.maxKicksPerApPerWindow && after == kept + [t]
            else after == RL.Deque(l, ap)
  {
  }

  lemma {:induction false} IdleKeepsWindow(
      p: A.Pipe, ef: A.Effect, e: Event, ap: Ap, window: Seconds, most: nat, mono: real)
    requires e.Handle? && IdleMove(p, ef, e.client, e.env)
    requires WindowTracked(p, ap, window, most, mono) && mono <= e.env.monoGate <= e.env.monoRecord
    ensures WindowTracked(ef.pipe, ap, window, most, e.env.monoRecord)
  {
    var deq, history, g := RL.Deque(p.limiter, ap), CountedAt(p.wire, ap), e.env.monoGate;
    if ef.pipe.limiter == p.limiter {
      WaitKeepsTracked(deq, history, window, mono, e.env.monoRecord);
    } else {
      GateKeepsTracked(deq, history, window, mono, GateCutoff(p, g), e.env.monoRecord);
      WaitKeepsTracked(deq, history, window, mono, e.env.monoRecord);
    }
  }

  /** What a gate at g prunes before. */
  function GateCutoff(p: A.Pipe, g: real): real { g - WindowOf(p) }

  lemma {:induction false} FallbackKeepsWindow(
      p: A.Pipe, ef: A.Effect, e: Event, ap: Ap, window: Seconds, most: nat, mono: real)
    requires e.Handle? && FallbackMove(p, ef, e.client, e.decision, e.env)
    requires WindowTracked(p, ap, window, most, mono) && mono <= e.env.monoGate <= e.env.monoRecord
    ensures WindowTracked(ef.pipe, ap, window, most, e.env.monoRecord)
  {
    CountedAtAppend(p.wire, Call(p, e.client, L.RowFallback, p.pending.btm[e.client.mac].group, e.env), ap);
    assert CountedAt(ef.pipe.wire, ap) == CountedAt(p.wire, ap);
    WaitKeepsTracked(RL.Deque(p.limiter, ap), CountedAt(p.wire, ap), window, mono, e.env.monoRecord);
  }

  lemma {:induction false} FreshKeepsWindow(
      p: A.Pipe, ef: A.Effect, e: Event, ap: Ap, window: Seconds, most: nat, mono: real)
    requires e.Handle? && FreshMove(p, ef, e.client, e.decision, e.env)
    requires WindowTracked(p, ap, window, most, mono) && mono <= e.env.monoGate <= e.env.monoRecord
    ensures WindowTracked(ef.pipe, ap, window, most, e.env.monoRecord)
  {
    var deq, history := RL.Deque(p.limiter, ap), CountedAt(p.wire, ap);
    var g, t := e.env.monoGate, e.env.monoRecord;
    CountedAtAppend(p.wire, Call(p, e.client, Kind(p, e.client.mac), e.env.group, e.env), ap);
    KickOnDeque(p.limiter, ap, e.client.apId, g, t);
    if e.client.apId == ap && p.limiter.rails.maxKicksPerApPerWindow > 0 {
      RecordKeepsTracked(deq, history, window, mono, GateCutoff(p, g), t);
      RoomKeepsSpacing(deq, history, window, most, mono, GateCutoff(p, g), g, t);
    } else {
      assert CountedAt(ef.pipe.wire, ap) == history;
      WaitKeepsTracked(deq, history, window, mono, t);
    }
  }

  /** A reload to any window: what was tracked over the shorter of the two still is. */
  lemma {:induction false} ReloadKeepsWindow(
      p: A.Pipe, config: Config, ap: Ap, window: Seconds, narrow: Seconds, most: nat, mono: real)
    requires WindowTracked(p, ap, window, most, mono)
    requires narrow <= window && narrow <= config.rails.perApWindowSeconds
    requires config.rails.maxKicksPerApPerWindow <= most
    ensures WindowTracked(A.ReloadedPipe(p, config), ap, narrow, most, mono)
  {
    RefinesLaterFloor(RL.Deque(p.limiter, ap), CountedAt(p.wire, ap), mono - window, mono - narrow);
    SpacedInNarrower(CountedAt(p.wire, ap), window, narrow, most);
  }

  lemma {:induction false} SpacedInNarrower(s: seq<real>, window: real, narrow: real, most: nat)
    requires Spaced(s, window, most) && narrow <= window
    ensures Spaced(s, narrow, most)
  {
    forall i, j | 0 <= i < j < |s| && j - i >= most ensures Apart(s, i, j, narrow) {
      assert Apart(s, i, j, window);
    }
  }

  // ---- whole runs ----

  lemma {:induction false} RunKeepsWindow(ws: seq<World>, events: seq<Event>, k: nat, ap: Ap, most: nat)
    requires MovesAlong(ws, events) && ClocksAdvanceAlong(ws, events) && k < |ws| && WR.AllBooted(ws[0])
    requires CapsAtMost(ws, events, most)
    ensures forall i: nat :: i < |ws[k].pipes| ==>
              WindowTracked(ws[k].pipes[i], ap, LeastWindow(ws, events, k, i), most, ws[k].mono)
  {
    if k > 0 {
      RunKeepsWindow(ws, events, k - 1, ap, most);
      var w, e, next := ws[k - 1], events[k - 1], ws[k];
      assert WorldMoves(w, e, next) && ClocksAdvance(w, e) && CapAtMost(e, most);
      forall i: nat | i < |next.pipes|
        ensures WindowTracked(next.pipes[i], ap, LeastWindow(ws, events, k, i), most, next.mono)
      {
        StepKeepsWindow(w, e, next, i, ap, LeastWindow(ws, events, k - 1, i), LeastWindow(ws, events, k, i), most);
      }
    }
  }

  /** What a step makes of the smallest window. */
  predicate WindowStep(e: Event, before: Seconds, after: Seconds) {
    match e
    case Reload(config) => after == Narrower(before, config.rails.perApWindowSeconds)
    case Restart(config, _, _, _) => after == config.rails.perApWindowSeconds
    case _ => after == before
  }

  lemma {:induction false} StepKeepsWindow(
      w: World, e: Event, next: World, i: nat, ap: Ap, before: Seconds, after: Seconds, most: nat)
    requires WorldMoves(w, e, next) && ClocksAdvance(w, e) && CapAtMost(e, most)
    requires i < |w.pipes| ==> WindowTracked(w.pipes[i], ap, before, most, w.mono)
    requires WindowStep(e, before, after) && i < |next.pipes|
    ensures WindowTracked(next.pipes[i], ap, after, most, next.mono)
  {
    assert PipeMoves(w, e, next, i);
    match e
    case Handle(j, _, _, _) =>
      if i == j {
        var ef :| HandledTo(w, e, next, ef);
        MoveKeepsWindow(w.pipes[i], ef, e, ap, before, most, w.mono);
      } else if Acts(w, e) {
        WaitKeepsTracked(RL.Deque(w.pipes[i].limiter, ap), CountedAt(w.pipes[i].wire, ap), before,
                         w.mono, next.mono);
      }
    case CheckOutcome(_, _) =>
    case Reload(config) => ReloadKeepsWindow(w.pipes[i], config, ap, before, after, most, w.mono);
    case Restart(_, _, _, _) =>
  }

  lemma {:induction false} MoveKeepsWindow(
      p: A.Pipe, ef: A.Effect, e: Event, ap: Ap, window: Seconds, most: nat, mono: real)
    requires e.Handle? && Moved(p, ef, e.client, e.decision, e.env)
    requires WindowTracked(p, ap, window, most, mono) && mono <= e.env.monoGate <= e.env.monoRecord
    ensures WindowTracked(ef.pipe, ap, window, most, e.env.monoRecord)
  {
    if IdleMove(p, ef, e.client, e.env) {
      IdleKeepsWindow(p, ef, e, ap, window, most, mono);
    } else if FreshMove(p, ef, e.client, e.decision, e.env) {
      FreshKeepsWindow(p, ef, e, ap, window, most, mono);
    } else {
      FallbackKeepsWindow(p, ef, e, ap, window, most, mono);
    }
  }

  /** In every run, under any reloads, every closed window no longer than the smallest one that
      has been in force in a pipe holds at most the cap's number of the AP's fresh kicks, beyond
      those made while the cap was off. */
  lemma {:induction false} EveryWindowHoldsTheApCap(
      ws: seq<World>, events: seq<Event>, k: nat, i: nat, ap: Ap, most: nat, lo: real, hi: real)
    requires Run(ws, events) && ClocksAdvanceAlong(ws, events) && WR.AllBooted(ws[0])
    requires CapsAtMost(ws, events, most) && k < |ws| && i < |ws[k].pipes|
    requires hi <= lo + LeastWindow(ws, events, k, i)
    ensures var wire := ws[k].pipes[i].wire;
            && CountIn(CountedAt(wire, ap), lo, hi) <= most
            && CountIn(FreshAt(wire, ap), lo, hi) <= most + CountIn(UncountedAt(wire, ap), lo, hi)
  {
    RunMoves(ws, events);
    RunKeepsWindow(ws, events, k, ap, most);
    var p, window := ws[k].pipes[i], LeastWindow(ws, events, k, i);
    assert WindowTracked(p, ap, window, most, ws[k].mono);
    SpacingIsWindowCap(CountedAt(p.wire, ap), window, most);
    FreshIsCountedOrNot(p.wire, ap, lo, hi);
  }

  /** When no reload grows the window, the smallest one is the one in force. */
  lemma {:induction false} NarrowingLeastIsCurrent(ws: seq<World>, events: seq<Event>, k: nat, i: nat)
    requires MovesAlong(ws, events) && WR.AllBooted(ws[0]) && k < |ws| && i < |ws[k].pipes|
    requires forall j :: 0 <= j < |events| ==> WindowNarrows(ws[j], events[j])
    ensures LeastWindow(ws, events, k, i) == WindowOf(ws[k].pipes[i])
  {
    if k > 0 {
      var w, e, next := ws[k - 1], events[k - 1], ws[k];
      assert WorldMoves(w, e, next) && PipeMoves(w, e, next, i) && WindowNarrows(w, e);
      if !e.Restart? {
        NarrowingLeastIsCurrent(ws, events, k - 1, i);
      }
      if e.Handle? && i == e.pipe {
        var ef :| HandledTo(w, e, next, ef);
      }
    }
  }

  lemma {:induction false} CurrentWindowTracked(
      ws: seq<World>, events: seq<Event>, k: nat, i: nat, ap: Ap, most: nat)
    requires Run(ws, events) && ClocksAdvanceAlong(ws, events) && WR.AllBooted(ws[0])
    requires RailsOnlyNarrow(ws, events, most) && k < |ws| && i < |ws[k].pipes|
    ensures WindowTracked(ws[k].pipes[i], ap, WindowOf(ws[k].pipes[i]), most, ws[k].mono)
  {
    RunMoves(ws, events);
    RunKeepsWindow(ws, events, k, ap, most);
    NarrowingLeastIsCurrent(ws, events, k, i);
  }

  /** At each gate the pruned deque equals the AP's counted kicks still inside the window, and
      it equals all of its recorded fresh kicks there if and only if none of them was made
      while the cap was off: pruning in place loses nothing, turning the cap on finds nothing. */
  lemma {:induction false} GateSeesTheFullHistoryIff(
      ws: seq<World>, events: seq<Event>, k: nat, i: nat, ap: Ap, most: nat, now: real)
    requires Run(ws, events) && ClocksAdvanceAlong(ws, events) && WR.AllBooted(ws[0])
    requires RailsOnlyNarrow(ws, events, most) && k < |ws| && i < |ws[k].pipes| && ws[k].mono <= now
    ensures var p := ws[k].pipes[i];
            var cutoff := now - WindowOf(p);
            var deq := RL.Deque(RL.Pruned(p.limiter, ap, now), ap);
            && deq == FromOn(CountedAt(p.wire, ap), cutoff)
            && (deq == FromOn(FreshAt(p.wire, ap), cutoff) <==> FromOn(UncountedAt(p.wire, ap), cutoff) == [])
  {
    var p := ws[k].pipes[i];
    CurrentWindowTracked(ws, events, k, i, ap, most);
    TrackedGate(p, ap, most, ws[k].mono, now);
    CountedIsFreshIff(p.wire, ap, now - WindowOf(p));
  }

  lemma {:induction false} TrackedGate(p: A.Pipe, ap: Ap, most: nat, mono: real, now: real)
    requires WindowTracked(p, ap, WindowOf(p), most, mono) && mono <= now
    ensures RL.Deque(RL.Pruned(p.limiter, ap, now), ap) == FromOn(CountedAt(p.wire, ap), now - WindowOf(p))
  {
    DequeIsWindow(RL.Deque(p.limiter, ap), CountedAt(p.wire, ap), WindowOf(p), WindowOf(p), mono, now);
  }

  /** The gate on history alone: in every such run it is open exactly when the last call of the
      pipeline is at least the minimum ago and, unless the cap is off, fewer than its number of
      the AP's counted kicks lie in the window that ends now; of all its fresh kicks, when none
      in the window was made with the cap off. */
  lemma {:induction false} GateOpensOnHistoryIff(
      ws: seq<World>, events: seq<Event>, k: nat, i: nat, ap: Ap, most: nat, now: real)
    requires Run(ws, events) && ClocksAdvanceAlong(ws, events) && WR.AllBooted(ws[0])
    requires RailsOnlyNarrow(ws, events, most) && k < |ws| && i < |ws[k].pipes| && ws[k].mono <= now
    ensures var p := ws[k].pipes[i];
            var rails, lo := p.limiter.rails, now - p.limiter.rails.perApWindowSeconds;
            && (RL.KickGate(p.limiter, ap, now).Open? <==>
                  && SinceLastCall(p, now)
                  && (rails.maxKicksPerApPerWindow == 0
                      || CountIn(CountedAt(p.wire, ap), lo, now) < rails.maxKicksPerApPerWindow))
            && (FromOn(UncountedAt(p.wire, ap), lo) == [] ==>
                  CountIn(CountedAt(p.wire, ap), lo, now) == CountIn(FreshAt(p.wire, ap), lo, now))
  {
    var p := ws[k].pipes[i];
    CurrentWindowTracked(ws, events, k, i, ap, most);
    RoomOnHistory(p, ap, most, ws[k].mono, now);
    TimerIsLastCall(ws, events, k, i);
    RL.GateOpensIff(p.limiter, ap, now);
    var lo: real := now - WindowOf(p);
    if FromOn(UncountedAt(p.wire, ap), lo) == [] {
      CountedIsAllFresh(p.wire, ap, lo, now);
    }
  }

  lemma {:induction false} RoomOnHistory(p: A.Pipe, ap: Ap, most: nat, mono: real, now: real)
    requires WindowTracked(p, ap, WindowOf(p), most, mono) && mono <= now
    ensures var cap, lo := p.limiter.rails.maxKicksPerApPerWindow, now - p.limiter.rails.perApWindowSeconds;
            RL.HasRoom(p.limiter, ap, now) <==> cap == 0 || CountIn(CountedAt(p.wire, ap), lo, now) < cap
  {
    DequeCounts(RL.Deque(p.limiter, ap), CountedAt(p.wire, ap), WindowOf(p), mono, now);
  }

  lemma {:induction false} CountedIsAllFresh(wire: seq<A.WireCall>, ap: Ap, lo: real, now: real)
    requires FromOn(UncountedAt(wire, ap), lo) == []
    ensures CountIn(CountedAt(wire, ap), lo, now) == CountIn(FreshAt(wire, ap), lo, now)
  {
    FreshIsCountedOrNot(wire, ap, lo, now);
    CountInAtMostFromOn(UncountedAt(wire, ap), lo, now);
  }

  /** The pipeline's last wire call, fresh or fallback, is at least the minimum ago. */
  predicate SinceLastCall(p: A.Pipe, now: real) {
    p.wire != [] && p.limiter.rails.minSecondsBetweenKicks != 0.0 ==>
      now - p.wire[|p.wire| - 1].at >= p.limiter.rails.minSecondsBetweenKicks
  }

  lemma {:induction false} TimerIsLastCall(ws: seq<World>, events: seq<Event>, k: nat, i: nat)
    requires Run(ws, events) && ClocksAdvanceAlong(ws, events) && WR.AllBooted(ws[0])
    requires k < |ws| && i < |ws[k].pipes|
    ensures forall now :: SinceLastCall(ws[k].pipes[i], now) <==> RL.TimerPassed(ws[k].pipes[i].limiter, now)
  {
    RunMoves(ws, events);
    WR.RunKeepsSingleFlight(ws, events, k);
    assert WR.SingleFlight(ws[k].pipes[i], ws[k].mono);
  }

  /** The cap is on in every configuration of the run. */
  ghost predicate CapStaysOn(ws: seq<World>, events: seq<Event>) {
    && |ws| == |events| + 1
    && (forall i :: 0 <= i < |ws[0].pipes| ==> ws[0].pipes[i].config.rails.maxKicksPerApPerWindow > 0)
    && forall j :: 0 <= j < |events| ==> KeepsCapOn(events[j])
  }

  predicate KeepsCapOn(e: Event) {
    (e.Reload? ==> e.config.rails.maxKicksPerApPerWindow > 0)
    && (e.Restart? ==> e.config.rails.maxKicksPerApPerWindow > 0)
  }

  /** So a cap that stays on counts every fresh kick, and bounds every window outright. */
  lemma {:induction false} CapStayingOnHoldsOutright(
      ws: seq<World>, events: seq<Event>, k: nat, i: nat, ap: Ap, most: nat)
    requires Run(ws, events) && ClocksAdvanceAlong(ws, events) && WR.AllBooted(ws[0])
    requires CapsAtMost(ws, events, most) && CapStaysOn(ws, events) && k < |ws| && i < |ws[k].pipes|
    ensures UncountedAt(ws[k].pipes[i].wire, ap) == []
    ensures WindowCap(FreshAt(ws[k].pipes[i].wire, ap), LeastWindow(ws, events, k, i), most)
  {
    RunMoves(ws, events);
    RunCountsAll(ws, events, k, ap);
    var p := ws[k].pipes[i];
    assert CountsAll(p, ap);
    var window: real := LeastWindow(ws, events, k, i);
    forall lo, hi | hi <= lo + window ensures CountIn(FreshAt(p.wire, ap), lo, hi) <= most {
      EveryWindowHoldsTheApCap(ws, events, k, i, ap, most, lo, hi);
    }
  }

  ghost predicate CountsAll(p: A.Pipe, ap: Ap) {
    p.limiter.rails.maxKicksPerApPerWindow > 0 && UncountedAt(p.wire, ap) == []
  }

  lemma {:induction false} RunCountsAll(ws: seq<World>, events: seq<Event>, k: nat, ap: Ap)
    requires MovesAlong(ws, events) && WR.AllBooted(ws[0]) && CapStaysOn(ws, events) && k < |ws|
    ensures forall i :: 0 <= i < |ws[k].pipes| ==> CountsAll(ws[k].pipes[i], ap)
  {
    if k > 0 {
      RunCountsAll(ws, events, k - 1, ap);
      assert KeepsCapOn(events[k - 1]);
      forall i | 0 <= i < |ws[k].pipes| ensures CountsAll(ws[k].pipes[i], ap) {
        StepCountsAll(ws[k - 1], events[k - 1], ws[k], i, ap);
      }
    }
  }

  lemma {:induction false} MoveCountsAll(p: A.Pipe, ef: A.Effect, e: Event, ap: Ap)
    requires e.Handle? && Moved(p, ef, e.client, e.decision, e.env) && CountsAll(p, ap)
    ensures CountsAll(ef.pipe, ap)
  {
    if ef.pipe.wire != p.wire {
      UncountedAtAppend(p.wire, ef.pipe.wire[|p.wire|], ap);
    }
  }

  lemma {:induction false} UncountedAtAppend(wire: seq<A.WireCall>, call: A.WireCall, ap: Ap)
    ensures UncountedAt(wire + [call], ap)
         == UncountedAt(wire, ap) + (if IsFreshAt(call, ap) && !call.counted then [call.at] else [])
  {
    assert (wire + [call])[..|wire|] == wire;
  }

  lemma {:induction false} StepCountsAll(w: World, e: Event, next: World, i: nat, ap: Ap)
    requires WorldMoves(w, e, next) && i < |next.pipes| && KeepsCapOn(e)
    requires forall j :: 0 <= j < |w.pipes| ==> CountsAll(w.pipes[j], ap)
    ensures CountsAll(next.pipes[i], ap)
  {
    assert PipeMoves(w, e, next, i);
    if e.Handle? && e.pipe == i {
      var ef :| HandledTo(w, e, next, ef);
      MoveCountsAll(w.pipes[i], ef, e, ap);
    }
  }

  lemma {:induction false} DequeIsWindow(
      deq: seq<real>, history: seq<real>, window: real, reloaded: real, mono: real, now: real)
    requires Tracked(deq, history, window, mono) && mono <= now && reloaded <= window
    ensures DropBefore(deq, now - reloaded) == FromOn(history, now - reloaded)
  {
    PrunedDequeIsWindow(deq, history, mono - window, now - reloaded);
  }

  // ---- exactly which reloads are safe ----

  /** A gate under the reloaded window counts what the history holds. */
  ghost predicate Faithful(
    deq: seq<real>, history: seq<real>, window: real, reloaded: real, mono: real, now: real)
  {
    Tracked(deq, history, window, mono) && mono <= now ==>
      DropBefore(deq, now - reloaded) == FromOn(history, now - reloaded)
  }

  ghost predicate SafeReload(window: real, reloaded: real) {
    forall deq, history, mono, now :: Faithful(deq, history, window, reloaded, mono, now)
  }

  /** A reload of the window keeps every deque faithful if and only if it does not grow it. */
  lemma {:induction false} ReloadIsSafeIffNotGrown(window: Seconds, reloaded: Seconds)
    ensures SafeReload(window, reloaded) <==> reloaded <= window
  {
    if reloaded <= window {
      forall deq, history, mono, now ensures Faithful(deq, history, window, reloaded, mono, now) {
        if Tracked(deq, history, window, mono) && mono <= now {
          DequeIsWindow(deq, history, window, reloaded, mono, now);
        }
      }
    } else {
      // one kick at time 0, pruned just before the reload, and a gate at time `reloaded`
      var history := [0.0];
      assert history[1..] == [] && FromOn(history, 0.0) == history by {
        FromOnSplit(history, 0.0, 0);
      }
      assert Tracked([], history, window, reloaded);
      assert !Faithful([], history, window, reloaded, reloaded, reloaded);
    }
  }

  /** A reload that turns the cap back on, shown on one AP: `before` was kicked with the cap on,
      `off` with it off. The gate counts what the whole history holds if and only if the kicks
      made while it was off have all left the window. */
  lemma {:induction false} CapTurnedOnIsExactIff(
      deq: seq<real>, before: seq<real>, off: seq<real>, window: real, reloaded: real, mono: real, now: real)
    requires Tracked(deq, before, window, mono) && mono <= now && reloaded <= window
    ensures DropBefore(deq, now - reloaded) == FromOn(before + off, now - reloaded)
       <==> FromOn(off, now - reloaded) == []
  {
    DequeIsWindow(deq, before, window, reloaded, mono, now);
    FromOnConcat(before, off, now - reloaded);
  }

  lemma {:induction false} FromOnConcat(a: seq<real>, b: seq<real>, cutoff: real)
    ensures FromOn(a + b, cutoff) == FromOn(a, cutoff) + FromOn(b, cutoff)
  {
    if b == [] {
      assert a + b == a;
    } else {
      var n := |b| - 1;
      assert (a + b)[..|a| + n] == a + b[..n];
      FromOnConcat(a, b[..n], cutoff);
    }
  }
}
