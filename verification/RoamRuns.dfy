/** What a seen roam does guarantee: in scan order, once the first check after a recorded BTM
    finds the client at another AP, no fallback of that BTM is ever sent. */
module RoamRuns {
  import opened Config
  import opened Moves
  import opened ScanRuns
  import opened World
  import A = Actor
  import L = Ledger
  import P = Pending
  import PR = PairingRuns
  import RR = RecordRuns
  import WR = WireRuns

  /** Wherever the group waits, it is at this MAC of this pipe, with its own outcome unread. */
  ghost predicate Awaited(w: World, i: nat, c: Client, group: L.Group) {
    && group in w.used
    && forall j, mac :: PR.Waits(w, j, mac, group) ==>
         && j == i && mac == c.mac && w.pipes[i].pending.btm[mac].apId == c.apId
         && mac in w.pipes[i].pending.outcome
         && w.pipes[i].pending.outcome[mac] == P.Outcome(c.apId, L.RowBtm, group)
  }

  /** The group waits nowhere and never will. */
  ghost predicate Gone(w: World, group: L.Group) {
    group in w.used && forall j, mac :: !PR.Waits(w, j, mac, group)
  }

  /** The step sent a BTM under its group and wrote its row. */
  ghost predicate SendsRecordedBtm(w: World, e: Event, next: World) {
    && Acts(w, e) && e.env.insertOk
    && exists ef :: HandledTo(w, e, next, ef) && SentBtm(ActingPipe(w, e), ef, e)
  }

  ghost predicate SentBtm(p: A.Pipe, ef: A.Effect, e: Event) {
    e.Handle? && FreshMove(p, ef, e.client, e.decision, e.env) && Kind(p, e.client.mac).RowBtm?
  }

  lemma {:induction false} SendingAwaits(w: World, e: Event, next: World)
    requires WorldMoves(w, e, next) && SendsRecordedBtm(w, e, next) && PR.WaitingGroupsOk(w) && GroupIsFresh(w, e)
    ensures Awaited(next, e.pipe, e.client, e.env.group)
  {
    forall j, mac | PR.Waits(next, j, mac, e.env.group) ensures j == e.pipe && mac == e.client.mac {
      PR.WaitingOrigin(w, e, next, j, mac, e.env.group);
    }
  }

  /** A step that is not a check of this MAC keeps the group awaited: a handle under the checked
      snapshot either leaves it, or sends its fallback, and a restart forgets it. */
  lemma {:induction false} StepKeepsAwaited(w: World, e: Event, next: World, i: nat, c: Client, group: L.Group)
    requires WorldMoves(w, e, next) && GroupIsFresh(w, e) && Awaited(w, i, c, group)
    requires !(e.CheckOutcome? && e.pipe == i && e.client.mac == c.mac)
    requires e.Handle? && e.pipe == i && e.client.mac == c.mac ==> e.client == c
    ensures Awaited(next, i, c, group)
  {
    forall j, mac | PR.Waits(next, j, mac, group)
      ensures && j == i && mac == c.mac && next.pipes[i].pending.btm[mac].apId == c.apId
              && mac in next.pipes[i].pending.outcome
              && next.pipes[i].pending.outcome[mac] == P.Outcome(c.apId, L.RowBtm, group)
    {
      PR.WaitingOrigin(w, e, next, j, mac, group);
      assert PR.Waits(w, j, mac, group);
      WaitingStays(w, e, next, i, c, group);
    }
  }

  lemma {:induction false} WaitingStays(w: World, e: Event, next: World, i: nat, c: Client, group: L.Group)
    requires WorldMoves(w, e, next) && Awaited(w, i, c, group)
    requires PR.Waits(w, i, c.mac, group) && PR.Waits(next, i, c.mac, group)
    requires !(e.CheckOutcome? && e.pipe == i && e.client.mac == c.mac)
    requires e.Handle? && e.pipe == i && e.client.mac == c.mac ==> e.client == c
    ensures next.pipes[i].pending.btm[c.mac].apId == c.apId
    ensures c.mac in next.pipes[i].pending.outcome
            && next.pipes[i].pending.outcome[c.mac] == P.Outcome(c.apId, L.RowBtm, group)
  {
    assert PipeMoves(w, e, next, i);
  }

  /** The roam's check clears it. */
  lemma {:induction false} RoamEndsTheWait(w: World, e: Event, next: World, i: nat, c: Client, group: L.Group)
    requires WorldMoves(w, e, next) && Awaited(w, i, c, group)
    requires e.CheckOutcome? && e.pipe == i && e.client.mac == c.mac && e.client.apId != c.apId
    ensures Gone(next, group)
  {
    assert i < |next.pipes| ==> PipeMoves(w, e, next, i);
    forall j, mac ensures !PR.Waits(next, j, mac, group) {
      if PR.Waits(next, j, mac, group) {
        PR.WaitingOrigin(w, e, next, j, mac, group);
      }
    }
  }

  lemma {:induction false} StepKeepsGone(w: World, e: Event, next: World, group: L.Group)
    requires WorldMoves(w, e, next) && GroupIsFresh(w, e) && Gone(w, group)
    ensures Gone(next, group)
  {
    forall j, mac ensures !PR.Waits(next, j, mac, group) {
      if PR.Waits(next, j, mac, group) {
        PR.WaitingOrigin(w, e, next, j, mac, group);
      }
    }
  }

  /** The step sends the fallback of this group. */
  ghost predicate SendsFallbackOf(w: World, e: Event, next: World, group: L.Group) {
    exists call :: call in RR.NewCalls(w, e, next) && call.kind.RowFallback? && call.group == group
  }

  lemma {:induction false} GoneSendsNothing(w: World, e: Event, next: World, group: L.Group)
    requires WorldMoves(w, e, next) && Gone(w, group)
    ensures !SendsFallbackOf(w, e, next, group)
  {
    if SendsFallbackOf(w, e, next, group) {
      var call :| call in RR.NewCalls(w, e, next) && call.kind.RowFallback? && call.group == group;
      assert PipeMoves(w, e, next, e.pipe);
      assert PR.Waits(w, e.pipe, e.client.mac, group);
    }
  }

  /** From the BTM to the check: no check of this MAC, so every handle of it is under c. */
  lemma {:induction false} AwaitedUntilCheck(
      ws: seq<World>, events: seq<Event>, a: nat, n: nat, i: nat, c: Client, group: L.Group)
    requires MovesAlong(ws, events) && ScanOrdered(events) && a < n < |ws|
    requires forall j :: 0 <= j < |events| ==> GroupIsFresh(ws[j], events[j])
    requires forall j :: a < j < n ==> !IsCheckOf(events[j], i, c.mac)
    requires Seen(events[..a + 1], i, c.mac) == Some(c) && Awaited(ws[a + 1], i, c, group)
    ensures Awaited(ws[n], i, c, group)
    ensures Seen(events[..n], i, c.mac) == Some(c) || Seen(events[..n], i, c.mac).None?
  {
    if n > a + 1 {
      AwaitedUntilCheck(ws, events, a, n - 1, i, c, group);
      var w, e, next := ws[n - 1], events[n - 1], ws[n];
      assert WorldMoves(w, e, next) && GroupIsFresh(w, e) && !IsCheckOf(e, i, c.mac);
      assert FollowsItsCheck(events[..n - 1], e);
      assert events[..n] == events[..n - 1] + [e];
      SeenAppend(events[..n - 1], e, i, c.mac);
      StepKeepsAwaited(w, e, next, i, c, group);
    }
  }

  predicate IsCheckOf(e: Event, i: nat, mac: Mac) { e.CheckOutcome? && e.pipe == i && e.client.mac == mac }

  lemma {:induction false} GoneForGood(ws: seq<World>, events: seq<Event>, b: nat, n: nat, group: L.Group)
    requires MovesAlong(ws, events) && b <= n < |ws| && Gone(ws[b], group)
    requires forall j :: 0 <= j < |events| ==> GroupIsFresh(ws[j], events[j])
    ensures Gone(ws[n], group)
  {
    if n > b {
      GoneForGood(ws, events, b, n - 1, group);
      assert WorldMoves(ws[n - 1], events[n - 1], ws[n]) && GroupIsFresh(ws[n - 1], events[n - 1]);
      StepKeepsGone(ws[n - 1], events[n - 1], ws[n], group);
    }
  }

  /** In every run in scan order with collision-free groups: a BTM is sent and recorded at step
      a, and the first check of its MAC after that, at step b, finds another AP. From then on,
      whatever fails, no step ever sends a fallback under that BTM's group. */
  lemma {:induction false} SeenRoamEndsTheGroup(ws: seq<World>, events: seq<Event>, a: nat, b: nat, n: nat)
    requires Run(ws, events) && ScanOrdered(events) && WR.AllBooted(ws[0]) && ws[0].ledger == []
    requires forall j :: 0 <= j < |events| ==> GroupIsFresh(ws[j], events[j])
    requires a < b < n < |events| && SendsRecordedBtm(ws[a], events[a], ws[a + 1])
    requires IsCheckOf(events[b], events[a].pipe, events[a].client.mac) && events[b].client.apId != events[a].client.apId
    requires forall j :: a < j < b ==> !IsCheckOf(events[j], events[a].pipe, events[a].client.mac)
    ensures !SendsFallbackOf(ws[n], events[n], ws[n + 1], events[a].env.group)
  {
    RunMoves(ws, events);
    var i, c, group := events[a].pipe, events[a].client, events[a].env.group;
    PR.RunKeepsLedgerPaired(ws, events, a);
    assert WorldMoves(ws[a], events[a], ws[a + 1]) && GroupIsFresh(ws[a], events[a]);
    SendingAwaits(ws[a], events[a], ws[a + 1]);
    assert FollowsItsCheck(events[..a], events[a]);
    assert events[..a + 1] == events[..a] + [events[a]];
    SeenAppend(events[..a], events[a], i, c.mac);
    AwaitedUntilCheck(ws, events, a, b, i, c, group);
    assert WorldMoves(ws[b], events[b], ws[b + 1]);
    RoamEndsTheWait(ws[b], events[b], ws[b + 1], i, c, group);
    GoneForGood(ws, events, b + 1, n, group);
    assert WorldMoves(ws[n], events[n], ws[n + 1]);
    GoneSendsNothing(ws[n], events[n], ws[n + 1], group);
  }
}
