/** Runs in the order the scanner produces: within a poll each client is checked, then handled,
    under one snapshot. In that order a roam clears the pending BTM of its own kick, whatever
    inserts fail; a roam the check no longer awaits leaves a BTM behind. */
module ScanRuns {
  import opened Config
  import opened World
  import opened Moves
  import A = Actor
  import PR = PairingRuns
  import R = Rationale
  import Scanner
  import WR = WireRuns

  // ---- the order of a run ----

  /** The snapshot under which pipe i last checked this MAC, since the pipe was built. */
  function Seen(events: seq<Event>, i: nat, mac: Mac): Option<Client> {
    if events == [] then None else
      match events[|events| - 1]
      case CheckOutcome(j, c) => if j == i && c.mac == mac then Some(c) else Seen(events[..|events| - 1], i, mac)
      case Restart(_, _, _, _) => None
      case _ => Seen(events[..|events| - 1], i, mac)
  }

  ghost predicate FollowsItsCheck(before: seq<Event>, e: Event) {
    e.Handle? ==> Seen(before, e.pipe, e.client.mac) == Some(e.client)
  }

  /** Every handle comes after the check of the same snapshot, with no later check of that MAC
      in between. Nothing is asked of how the pipelines interleave. */
  ghost predicate ScanOrdered(events: seq<Event>) {
    forall k :: 0 <= k < |events| ==> FollowsItsCheck(events[..k], events[k])
  }

  // ---- what the scanner produces ----

  datatype Attempt = Attempt(decision: R.Decision, env: A.Env)

  /** One listed client: its check, then the RF and the inactivity flag it may raise. */
  datatype Visit = Visit(client: Client, rf: Option<Attempt>, idle: Option<Attempt>)

  datatype DnsHandle = DnsHandle(client: Client, attempt: Attempt)

  /** A scan cycle of one pipeline, or what happens between cycles. */
  datatype Block =
    | Cycle(pipe: nat, visits: seq<Visit>, dns: seq<DnsHandle>)
    | Between(event: Event)

  function ClientsOf(visits: seq<Visit>): seq<Client> {
    if visits == [] then [] else ClientsOf(visits[..|visits| - 1]) + [visits[|visits| - 1].client]
  }

  /** The DNS path takes its clients from the cycle's own index by MAC. */
  predicate DnsFromIndex(visits: seq<Visit>, dns: seq<DnsHandle>) {
    var byMac := Scanner.ByMac(ClientsOf(visits));
    forall k :: 0 <= k < |dns| ==> dns[k].client.mac in byMac && byMac[dns[k].client.mac] == dns[k].client
  }

  predicate BlockOk(b: Block) {
    match b
    case Cycle(_, visits, dns) => DnsFromIndex(visits, dns)
    case Between(e) => e.Reload? || e.Restart?
  }

  function HandleOf(i: nat, c: Client, attempt: Option<Attempt>): seq<Event> {
    match attempt case Some(a) => [Handle(i, c, a.decision, a.env)] case None => []
  }

  function VisitEvents(i: nat, v: Visit): seq<Event> {
    [CheckOutcome(i, v.client)] + HandleOf(i, v.client, v.rf) + HandleOf(i, v.client, v.idle)
  }

  function VisitsEvents(i: nat, visits: seq<Visit>): seq<Event> {
    if visits == [] then []
    else VisitsEvents(i, visits[..|visits| - 1]) + VisitEvents(i, visits[|visits| - 1])
  }

  function DnsEvents(i: nat, dns: seq<DnsHandle>): seq<Event> {
    if dns == [] then [] else
      DnsEvents(i, dns[..|dns| - 1])
      + HandleOf(i, dns[|dns| - 1].client, Some(dns[|dns| - 1].attempt))
  }

  function BlockEvents(b: Block): seq<Event> {
    match b
    case Cycle(i, visits, dns) => VisitsEvents(i, visits) + DnsEvents(i, dns)
    case Between(e) => [e]
  }

  function EventsOf(blocks: seq<Block>): seq<Event> {
    if blocks == [] then [] else EventsOf(blocks[..|blocks| - 1]) + BlockEvents(blocks[|blocks| - 1])
  }

  lemma {:induction false} OrderedAppend(events: seq<Event>, e: Event)
    requires ScanOrdered(events) && FollowsItsCheck(events, e)
    ensures ScanOrdered(events + [e])
  {
    var longer := events + [e];
    forall k | 0 <= k < |longer| ensures FollowsItsCheck(longer[..k], longer[k]) {
      assert longer[..k] == events[..k];
      assert events[..|events|] == events;
    }
  }

  lemma {:induction false} SeenAppend(events: seq<Event>, e: Event, i: nat, mac: Mac)
    ensures Seen(events + [e], i, mac) ==
            if e.CheckOutcome? && e.pipe == i && e.client.mac == mac then Some(e.client)
            else if e.Restart? then None else Seen(events, i, mac)
  {
    assert (events + [e])[..|events|] == events;
  }

  lemma {:induction false} HandleKeepsOrder(before: seq<Event>, i: nat, c: Client, attempt: Option<Attempt>)
    requires ScanOrdered(before) && Seen(before, i, c.mac) == Some(c)
    ensures ScanOrdered(before + HandleOf(i, c, attempt))
    ensures forall mac :: Seen(before + HandleOf(i, c, attempt), i, mac) == Seen(before, i, mac)
  {
    if attempt.Some? {
      var e := Handle(i, c, attempt.value.decision, attempt.value.env);
      OrderedAppend(before, e);
      forall mac ensures Seen(before + [e], i, mac) == Seen(before, i, mac) {
        SeenAppend(before, e, i, mac);
      }
    } else {
      assert before + [] == before;
    }
  }

  lemma {:induction false} VisitKeepsOrder(before: seq<Event>, i: nat, v: Visit)
    requires ScanOrdered(before)
    ensures ScanOrdered(before + VisitEvents(i, v))
    ensures forall mac :: Seen(before + VisitEvents(i, v), i, mac)
                       == if mac == v.client.mac then Some(v.client) else Seen(before, i, mac)
  {
    var check := CheckOutcome(i, v.client);
    var checked := before + [check];
    OrderedAppend(before, check);
    forall mac ensures Seen(checked, i, mac) == if mac == v.client.mac then Some(v.client) else Seen(before, i, mac) {
      SeenAppend(before, check, i, mac);
    }
    HandleKeepsOrder(checked, i, v.client, v.rf);
    HandleKeepsOrder(checked + HandleOf(i, v.client, v.rf), i, v.client, v.idle);
    assert before + VisitEvents(i, v) == checked + HandleOf(i, v.client, v.rf) + HandleOf(i, v.client, v.idle);
  }

  /** After the visits, the last check of every listed MAC is the one the index holds, even if
      a poll lists a MAC twice. */
  lemma {:induction false} VisitsKeepOrder(before: seq<Event>, i: nat, visits: seq<Visit>)
    requires ScanOrdered(before)
    ensures ScanOrdered(before + VisitsEvents(i, visits))
    ensures var byMac := Scanner.ByMac(ClientsOf(visits));
            forall mac :: mac in byMac ==> Seen(before + VisitsEvents(i, visits), i, mac) == Some(byMac[mac])
  {
    if visits == [] {
      assert before + [] == before;
    } else {
      var n := |visits| - 1;
      var init := before + VisitsEvents(i, visits[..n]);
      VisitsKeepOrder(before, i, visits[..n]);
      VisitKeepsOrder(init, i, visits[n]);
      assert before + VisitsEvents(i, visits) == init + VisitEvents(i, visits[n]);
      var clients := ClientsOf(visits);
      assert clients[..n] == ClientsOf(visits[..n]) && clients[n] == visits[n].client by {
        ClientsOfLength(visits[..n]);
      }
    }
  }

  lemma {:induction false} ClientsOfLength(visits: seq<Visit>)
    ensures |ClientsOf(visits)| == |visits|
  {
    if visits != [] {
      ClientsOfLength(visits[..|visits| - 1]);
    }
  }

  lemma {:induction false} DnsKeepsOrder(before: seq<Event>, i: nat, dns: seq<DnsHandle>)
    requires ScanOrdered(before)
    requires forall k :: 0 <= k < |dns| ==> Seen(before, i, dns[k].client.mac) == Some(dns[k].client)
    ensures ScanOrdered(before + DnsEvents(i, dns))
    ensures forall mac :: Seen(before + DnsEvents(i, dns), i, mac) == Seen(before, i, mac)
  {
    if dns == [] {
      assert before + [] == before;
    } else {
      var n := |dns| - 1;
      var init := before + DnsEvents(i, dns[..n]);
      DnsKeepsOrder(before, i, dns[..n]);
      HandleKeepsOrder(init, i, dns[n].client, Some(dns[n].attempt));
      assert before + DnsEvents(i, dns) == init + HandleOf(i, dns[n].client, Some(dns[n].attempt));
    }
  }

  lemma {:induction false} BlockKeepsOrder(before: seq<Event>, b: Block)
    requires ScanOrdered(before) && BlockOk(b)
    ensures ScanOrdered(before + BlockEvents(b))
  {
    match b
    case Cycle(i, visits, dns) =>
      var visited := before + VisitsEvents(i, visits);
      VisitsKeepOrder(before, i, visits);
      DnsKeepsOrder(visited, i, dns);
      assert before + BlockEvents(b) == visited + DnsEvents(i, dns);
    case Between(e) =>
      OrderedAppend(before, e);
  }

  /** Whatever the scanner does, poll after poll, is in scan order. */
  lemma {:induction false} ScansAreOrdered(blocks: seq<Block>)
    requires forall k :: 0 <= k < |blocks| ==> BlockOk(blocks[k])
    ensures ScanOrdered(EventsOf(blocks))
  {
    if blocks != [] {
      var n := |blocks| - 1;
      ScansAreOrdered(blocks[..n]);
      BlockKeepsOrder(EventsOf(blocks[..n]), blocks[n]);
    }
  }

  // ---- a roam clears its own entry ----

  /** Between a check and the next one, an awaited BTM was sent under the checked snapshot and
      its own pending entry stands beside it. */
  ghost predicate Settled(p: A.Pipe, mac: Mac, seen: Option<Client>) {
    match seen
    case None => mac !in p.pending.outcome
    case Some(c) =>
      mac in p.pending.outcome && p.pending.outcome[mac].mechanism.RowBtm? ==>
        p.pending.outcome[mac].apId == c.apId && PR.OutcomeMatches(p, mac)
  }

  lemma {:induction false} CheckSettles(p: A.Pipe, c: Client, mac: Mac, seen: Option<Client>)
    requires Settled(p, mac, seen)
    ensures Settled(A.Checked(p, c), mac, if mac == c.mac then Some(c) else seen)
  {
  }

  /** Every handle of the checked snapshot keeps it settled, whether its insert fails or not. */
  lemma {:induction false} HandleKeepsSettled(p: A.Pipe, ef: A.Effect, e: Event, mac: Mac, seen: Option<Client>)
    requires e.Handle? && Moved(p, ef, e.client, e.decision, e.env)
    requires Settled(p, mac, seen) && (e.client.mac == mac ==> seen == Some(e.client))
    ensures Settled(ef.pipe, mac, seen)
  {
  }

  lemma {:induction false} RunKeepsSettled(ws: seq<World>, events: seq<Event>, k: nat, mac: Mac)
    requires MovesAlong(ws, events) && ScanOrdered(events) && WR.AllBooted(ws[0]) && k < |ws|
    ensures forall i :: 0 <= i < |ws[k].pipes| ==> Settled(ws[k].pipes[i], mac, Seen(events[..k], i, mac))
  {
    if k > 0 {
      RunKeepsSettled(ws, events, k - 1, mac);
      assert events[..k] == events[..k - 1] + [events[k - 1]];
      assert FollowsItsCheck(events[..k - 1], events[k - 1]);
      forall i | 0 <= i < |ws[k].pipes| ensures Settled(ws[k].pipes[i], mac, Seen(events[..k], i, mac)) {
        SeenAppend(events[..k - 1], events[k - 1], i, mac);
        StepKeepsSettled(ws[k - 1], events[k - 1], ws[k], i, mac, Seen(events[..k - 1], i, mac));
      }
    }
  }

  lemma {:induction false} StepKeepsSettled(w: World, e: Event, next: World, i: nat, mac: Mac, seen: Option<Client>)
    requires WorldMoves(w, e, next) && i < |next.pipes|
    requires i < |w.pipes| ==> Settled(w.pipes[i], mac, seen)
    requires e.Handle? && e.pipe == i && e.client.mac == mac ==> seen == Some(e.client)
    ensures Settled(next.pipes[i], mac,
                    if e.CheckOutcome? && e.pipe == i && e.client.mac == mac then Some(e.client)
                    else if e.Restart? then None else seen)
  {
    assert PipeMoves(w, e, next, i);
    match e
    case Handle(j, _, _, _) =>
      if i == j {
        var ef :| HandledTo(w, e, next, ef);
        HandleKeepsSettled(w.pipes[i], ef, e, mac, seen);
      }
    case CheckOutcome(j, c) =>
      if i == j { CheckSettles(w.pipes[i], c, mac, seen); }
    case Reload(_) =>
    case Restart(_, _, _, _) =>
  }

  /** In scan order an awaited BTM outcome always matches the pending entry of its own kick,
      whatever wire calls and inserts fail: a check that finds a roamed BTM clears that entry
      and no other. */
  lemma {:induction false} RoamClearsItsOwnEntry(ws: seq<World>, events: seq<Event>, k: nat, i: nat, c: Client)
    requires Run(ws, events) && ScanOrdered(events) && WR.AllBooted(ws[0]) && k < |ws| && i < |ws[k].pipes|
    ensures var p := ws[k].pipes[i];
            && PR.OutcomeMatches(p, c.mac)
            && (c.mac in p.pending.outcome && p.pending.outcome[c.mac].mechanism.RowBtm?
                && p.pending.outcome[c.mac].apId != c.apId ==>
                  && c.mac !in A.Checked(p, c).pending.btm
                  && p.pending.btm[c.mac].group == p.pending.outcome[c.mac].attemptGroup
                  && p.pending.btm[c.mac].apId == p.pending.outcome[c.mac].apId)
  {
    RunMoves(ws, events);
    RunKeepsSettled(ws, events, k, c.mac);
    assert Settled(ws[k].pipes[i], c.mac, Seen(events[..k], i, c.mac));
  }

  // ---- a roam nobody awaits leaves the BTM behind ----

  /** Exactly when a check clears a pending BTM: an unread BTM outcome at another AP. A roam
      seen only after the outcome was read clears nothing. */
  lemma {:induction false} CheckClearsIff(p: A.Pipe, c: Client)
    requires c.mac in p.pending.btm
    ensures c.mac !in A.Checked(p, c).pending.btm <==>
            c.mac in p.pending.outcome && p.pending.outcome[c.mac].mechanism.RowBtm?
            && p.pending.outcome[c.mac].apId != c.apId
  {
  }
}
