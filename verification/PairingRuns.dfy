/** Whole-run guarantees of BTM and fallback pairing: on the wire, in the ledger, and between
    the two in-flight maps. */
module PairingRuns {
  import opened Config
  import opened World
  import opened Moves
  import WR = WireRuns
  import A = Actor
  import L = Ledger
  import P = Pending

  // ---- on the wire ----

  ghost predicate BtmCallAt(wire: seq<A.WireCall>, k: int, mac: Mac, ap: Ap, group: L.Group) {
    && 0 <= k < |wire| && wire[k].kind.RowBtm?
    && wire[k].mac == mac && wire[k].apId == ap && wire[k].group == group
  }

  ghost predicate BtmCalled(wire: seq<A.WireCall>, before: int, mac: Mac, ap: Ap, group: L.Group) {
    exists k :: k < before && BtmCallAt(wire, k, mac, ap, group)
  }

  /** Every fallback call follows a BTM call for the same MAC, AP and group. */
  ghost predicate FallbacksPaired(wire: seq<A.WireCall>) {
    forall j :: 0 <= j < |wire| && wire[j].kind.RowFallback? ==>
                  BtmCalled(wire, j, wire[j].mac, wire[j].apId, wire[j].group)
  }

  ghost predicate PendingCalled(p: A.Pipe) {
    forall mac :: mac in p.pending.btm ==>
                    BtmCalled(p.wire, |p.wire|, mac, p.pending.btm[mac].apId, p.pending.btm[mac].group)
  }

  lemma {:induction false} CalledLater(wire: seq<A.WireCall>, call: A.WireCall, before: int, mac: Mac, ap: Ap, group: L.Group)
    requires before <= |wire| && BtmCalled(wire, before, mac, ap, group)
    ensures BtmCalled(wire + [call], before, mac, ap, group)
    ensures BtmCalled(wire + [call], |wire| + 1, mac, ap, group)
  {
    var k :| k < before && BtmCallAt(wire, k, mac, ap, group);
    assert BtmCallAt(wire + [call], k, mac, ap, group);
  }

  lemma {:induction false} MoveKeepsPairing(p: A.Pipe, ef: A.Effect, e: Event)
    requires e.Handle? && Moved(p, ef, e.client, e.decision, e.env)
    requires PendingCalled(p) && FallbacksPaired(p.wire)
    ensures PendingCalled(ef.pipe) && FallbacksPaired(ef.pipe.wire)
  {
    if ef.pipe.wire != p.wire {
      var wire := p.wire;
      var call := ef.pipe.wire[|wire|];
      forall j | 0 <= j <= |wire| && ef.pipe.wire[j].kind.RowFallback?
        ensures BtmCalled(ef.pipe.wire, j, ef.pipe.wire[j].mac, ef.pipe.wire[j].apId, ef.pipe.wire[j].group)
      {
        CalledLater(wire, call, j, ef.pipe.wire[j].mac, ef.pipe.wire[j].apId, ef.pipe.wire[j].group);
      }
      forall mac | mac in ef.pipe.pending.btm
        ensures BtmCalled(ef.pipe.wire, |wire| + 1, mac, ef.pipe.pending.btm[mac].apId, ef.pipe.pending.btm[mac].group)
      {
        if mac in p.pending.btm && ef.pipe.pending.btm[mac] == p.pending.btm[mac] {
          CalledLater(wire, call, |wire|, mac, p.pending.btm[mac].apId, p.pending.btm[mac].group);
        } else {
          assert BtmCallAt(ef.pipe.wire, |wire|, mac, ef.pipe.pending.btm[mac].apId, ef.pipe.pending.btm[mac].group);
        }
      }
    }
  }

  lemma {:induction false} RunKeepsPairing(ws: seq<World>, events: seq<Event>, k: nat)
    requires MovesAlong(ws, events) && k < |ws| && WR.AllBooted(ws[0])
    ensures forall i :: 0 <= i < |ws[k].pipes| ==>
              PendingCalled(ws[k].pipes[i]) && FallbacksPaired(ws[k].pipes[i].wire)
  {
    if k > 0 {
      RunKeepsPairing(ws, events, k - 1);
      var w, e, next := ws[k - 1], events[k - 1], ws[k];
      assert WorldMoves(w, e, next);
      forall i | 0 <= i < |next.pipes|
        ensures PendingCalled(next.pipes[i]) && FallbacksPaired(next.pipes[i].wire)
      {
        assert PipeMoves(w, e, next, i);
        if e.Handle? && e.pipe == i {
          var ef :| HandledTo(w, e, next, ef);
          MoveKeepsPairing(w.pipes[i], ef, e);
        }
      }
    }
  }

  /** Every fallback wire call carries the group of an earlier successful BTM call for the same
      MAC and AP, in every run. */
  lemma {:induction false} EveryFallbackHasItsBtm(ws: seq<World>, events: seq<Event>, k: nat, i: nat)
    requires Run(ws, events) && WR.AllBooted(ws[0]) && k < |ws| && i < |ws[k].pipes|
    ensures FallbacksPaired(ws[k].pipes[i].wire)
  {
    RunMoves(ws, events);
    RunKeepsPairing(ws, events, k);
  }

  // ---- in the ledger ----

  ghost predicate IsFallbackOf(rows: L.Rows, k: int, group: L.Group) {
    0 <= k < |rows| && rows[k].mechanism.RowFallback? && rows[k].attemptGroup == Some(group)
  }

  ghost predicate IsLogicalOf(rows: L.Rows, k: int, group: L.Group) {
    0 <= k < |rows| && L.IsLogical(rows[k]) && rows[k].attemptGroup == Some(group)
  }

  ghost predicate OneFallbackPerGroup(rows: L.Rows) {
    forall a, b, group :: IsFallbackOf(rows, a, group) && IsFallbackOf(rows, b, group) ==> a == b
  }

  ghost predicate OneLogicalPerGroup(rows: L.Rows) {
    forall a, b, group :: IsLogicalOf(rows, a, group) && IsLogicalOf(rows, b, group) ==> a == b
  }

  /** Every group in the ledger has been drawn. */
  ghost predicate GroupsDrawn(w: World) {
    forall k :: 0 <= k < |w.ledger| && w.ledger[k].attemptGroup.Some? ==>
                  w.ledger[k].attemptGroup.value in w.used
  }

  ghost predicate Waits(w: World, i: int, mac: Mac, group: L.Group) {
    0 <= i < |w.pipes| && mac in w.pipes[i].pending.btm && w.pipes[i].pending.btm[mac].group == group
  }

  /** A group waiting for its fallback has been drawn, waits in one place only, and has no
      fallback row yet. */
  ghost predicate WaitingGroupsOk(w: World) {
    && (forall i, mac, group :: Waits(w, i, mac, group) ==> group in w.used)
    && (forall i, mac, group, k :: Waits(w, i, mac, group) ==> !IsFallbackOf(w.ledger, k, group))
    && (forall i, j, mac, other, group ::
          Waits(w, i, mac, group) && Waits(w, j, other, group) ==> i == j && mac == other)
  }

  ghost predicate LedgerPaired(w: World) {
    GroupsDrawn(w) && WaitingGroupsOk(w) && OneFallbackPerGroup(w.ledger) && OneLogicalPerGroup(w.ledger)
  }

  /** Where a waiting group comes from: it waited before, or this step drew it. */
  lemma {:induction false} WaitingOrigin(w: World, e: Event, next: World, i: int, mac: Mac, group: L.Group)
    requires WorldMoves(w, e, next) && Waits(next, i, mac, group)
    ensures Waits(w, i, mac, group)
         || (Acts(w, e) && e.pipe == i && e.client.mac == mac && e.env.group == group)
  {
    assert PipeMoves(w, e, next, i);
  }

  /** A row a step may append. */
  ghost predicate Appends(w: World, e: Event, next: World, row: L.KickRow) {
    && Acts(w, e) && e.pipe < |next.pipes| && next.ledger == w.ledger + [row]
    && ((row.dryRun && row.attemptGroup.None?)
        || (L.IsLogical(row) && row.attemptGroup == Some(e.env.group))
        || (!row.dryRun && row.mechanism.RowFallback? && row.attemptGroup.Some?
            && Waits(w, e.pipe, e.client.mac, row.attemptGroup.value)
            && e.client.mac !in next.pipes[e.pipe].pending.btm))
  }

  lemma {:induction false} LedgerOrigin(w: World, e: Event, next: World)
    requires WorldMoves(w, e, next)
    ensures next.ledger == w.ledger || exists row :: Appends(w, e, next, row)
  {
    if Acts(w, e) {
      var ef :| HandledTo(w, e, next, ef);
      if ef.rows == [] {
        assert w.ledger + ef.rows == w.ledger;
      } else {
        assert ef.rows == [ef.rows[0]];
        assert Appends(w, e, next, ef.rows[0]);
      }
    }
  }

  lemma {:induction false} AppendKeepsLedgerPaired(w: World, e: Event, next: World, row: L.KickRow)
    requires LedgerPaired(w) && WorldMoves(w, e, next) && GroupIsFresh(w, e) && Appends(w, e, next, row)
    ensures GroupsDrawn(next) && OneFallbackPerGroup(next.ledger) && OneLogicalPerGroup(next.ledger)
  {
    var n := |w.ledger|;
    forall k, group | IsFallbackOf(next.ledger, k, group)
      ensures IsFallbackOf(w.ledger, k, group) || (k == n && !exists b :: IsFallbackOf(w.ledger, b, group))
    {
    }
    forall k, group | IsLogicalOf(next.ledger, k, group)
      ensures IsLogicalOf(w.ledger, k, group) || (k == n && !exists b :: IsLogicalOf(w.ledger, b, group))
    {
    }
  }

  lemma {:induction false} StepKeepsWaiting(w: World, e: Event, next: World)
    requires LedgerPaired(w) && WorldMoves(w, e, next) && GroupIsFresh(w, e)
    ensures WaitingGroupsOk(next)
  {
    LedgerOrigin(w, e, next);
    forall i, mac, group | Waits(next, i, mac, group)
      ensures group in next.used
      ensures forall k :: !IsFallbackOf(next.ledger, k, group)
    {
      WaitingOrigin(w, e, next, i, mac, group);
      forall k ensures !IsFallbackOf(next.ledger, k, group) {
        assert !IsFallbackOf(w.ledger, k, group);
      }
    }
    forall i, j, mac, other, group | Waits(next, i, mac, group) && Waits(next, j, other, group)
      ensures i == j && mac == other
    {
      WaitingOrigin(w, e, next, i, mac, group);
      WaitingOrigin(w, e, next, j, other, group);
    }
  }

  lemma {:induction false} RunKeepsLedgerPaired(ws: seq<World>, events: seq<Event>, k: nat)
    requires MovesAlong(ws, events) && k < |ws| && LedgerPaired(ws[0])
    requires forall j :: 0 <= j < |events| ==> GroupIsFresh(ws[j], events[j])
    ensures LedgerPaired(ws[k])
  {
    if k > 0 {
      RunKeepsLedgerPaired(ws, events, k - 1);
      var w, e, next := ws[k - 1], events[k - 1], ws[k];
      assert WorldMoves(w, e, next) && GroupIsFresh(w, e);
      StepKeepsWaiting(w, e, next);
      LedgerOrigin(w, e, next);
      if next.ledger != w.ledger {
        var row :| Appends(w, e, next, row);
        AppendKeepsLedgerPaired(w, e, next, row);
      }
    }
  }

  /** In every run with collision-free groups, whatever fails: a group has at most one fallback
      row and at most one logical row. */
  lemma {:induction false} EachGroupIsOneKick(ws: seq<World>, events: seq<Event>, k: nat)
    requires Run(ws, events) && k < |ws|
    requires forall j :: 0 <= j < |events| ==> GroupIsFresh(ws[j], events[j])
    requires ws[0].ledger == [] && WR.AllBooted(ws[0])
    ensures OneFallbackPerGroup(ws[k].ledger) && OneLogicalPerGroup(ws[k].ledger)
  {
    RunMoves(ws, events);
    RunKeepsLedgerPaired(ws, events, k);
  }

  // ---- when inserts succeed ----

  ghost predicate HasBtmRow(rows: L.Rows, before: int, mac: Mac, group: L.Group) {
    exists k :: k < before && IsLogicalOf(rows, k, group) && rows[k].mac == mac && rows[k].mechanism.RowBtm?
  }

  /** Every fallback row follows the BTM row of its group and MAC. */
  ghost predicate FallbackRowsPaired(rows: L.Rows) {
    forall j :: 0 <= j < |rows| && rows[j].mechanism.RowFallback? && !rows[j].dryRun ==>
                  rows[j].attemptGroup.Some?
                  && HasBtmRow(rows, j, rows[j].mac, rows[j].attemptGroup.value)
  }

  /** And so does every waiting BTM. */
  ghost predicate RowsPaired(w: World) {
    && FallbackRowsPaired(w.ledger)
    && (forall i, mac, group :: Waits(w, i, mac, group) ==> HasBtmRow(w.ledger, |w.ledger|, mac, group))
  }

  lemma {:induction false} BtmRowStays(rows: L.Rows, row: L.KickRow, before: int, mac: Mac, group: L.Group)
    requires before <= |rows| && HasBtmRow(rows, before, mac, group)
    ensures HasBtmRow(rows + [row], before, mac, group)
    ensures HasBtmRow(rows + [row], |rows| + 1, mac, group)
  {
    var k :| k < before && IsLogicalOf(rows, k, group) && rows[k].mac == mac && rows[k].mechanism.RowBtm?;
    assert IsLogicalOf(rows + [row], k, group);
  }

  /** With the insert succeeding, a newly waiting BTM has just had its row written. */
  lemma {:induction false} NewWaitHasRow(w: World, e: Event, next: World, i: int, mac: Mac, group: L.Group)
    requires WorldMoves(w, e, next) && Waits(next, i, mac, group) && !Waits(w, i, mac, group)
    requires e.Handle? ==> e.env.insertOk
    ensures HasBtmRow(next.ledger, |next.ledger|, mac, group)
  {
    assert PipeMoves(w, e, next, i);
    var ef :| HandledTo(w, e, next, ef);
    var n := |w.ledger|;
    assert IsLogicalOf(next.ledger, n, group) && next.ledger[n].mac == mac && next.ledger[n].mechanism.RowBtm?;
  }

  lemma {:induction false} StepKeepsRowsPaired(w: World, e: Event, next: World)
    requires RowsPaired(w) && WorldMoves(w, e, next) && (e.Handle? ==> e.env.insertOk)
    ensures RowsPaired(next)
  {
    LedgerOrigin(w, e, next);
    forall i, mac, group | Waits(next, i, mac, group)
      ensures HasBtmRow(next.ledger, |next.ledger|, mac, group)
    {
      if !Waits(w, i, mac, group) {
        NewWaitHasRow(w, e, next, i, mac, group);
      } else if next.ledger != w.ledger {
        BtmRowStays(w.ledger, next.ledger[|w.ledger|], |w.ledger|, mac, group);
      }
    }
    if next.ledger != w.ledger {
      FallbackRowsStayPaired(w, e, next);
    }
  }

  lemma {:induction false} FallbackRowsStayPaired(w: World, e: Event, next: World)
    requires RowsPaired(w) && WorldMoves(w, e, next) && next.ledger != w.ledger
    ensures FallbackRowsPaired(next.ledger)
  {
    var ef :| HandledTo(w, e, next, ef);
    LedgerOrigin(w, e, next);
    var row :| Appends(w, e, next, row);
    forall j | 0 <= j < |next.ledger| && next.ledger[j].mechanism.RowFallback? && !next.ledger[j].dryRun
      ensures next.ledger[j].attemptGroup.Some?
              && HasBtmRow(next.ledger, j, next.ledger[j].mac, next.ledger[j].attemptGroup.value)
    {
      if j == |w.ledger| {
        assert Waits(w, e.pipe, row.mac, row.attemptGroup.value);
      }
      BtmRowStays(w.ledger, row, j, next.ledger[j].mac, next.ledger[j].attemptGroup.value);
    }
  }

  /** The groups of the live rows. */
  function LiveGroups(rows: L.Rows): set<L.Group> {
    if rows == [] then {} else
      var last := rows[|rows| - 1];
      LiveGroups(rows[..|rows| - 1])
      + (if last.dryRun || last.attemptGroup.None? then {} else {last.attemptGroup.value})
  }

  function LogicalCount(rows: L.Rows): nat {
    if rows == [] then 0 else
      LogicalCount(rows[..|rows| - 1]) + (if L.IsLogical(rows[|rows| - 1]) then 1 else 0)
  }

  lemma {:induction false} LiveGroupsMembers(rows: L.Rows)
    ensures forall group :: group in LiveGroups(rows) <==>
              exists k :: 0 <= k < |rows| && !rows[k].dryRun && rows[k].attemptGroup == Some(group)
  {
    if rows != [] {
      var n := |rows| - 1;
      LiveGroupsMembers(rows[..n]);
      forall group
        ensures group in LiveGroups(rows) <==>
                exists k :: 0 <= k < |rows| && !rows[k].dryRun && rows[k].attemptGroup == Some(group)
      {
        if k :| 0 <= k < |rows| && !rows[k].dryRun && rows[k].attemptGroup == Some(group) {
          if k < n { assert rows[..n][k] == rows[k]; }
        }
        if group in LiveGroups(rows[..n]) {
          var k :| 0 <= k < n && !rows[..n][k].dryRun && rows[..n][k].attemptGroup == Some(group);
          assert rows[k] == rows[..n][k];
        }
      }
    }
  }

  /** One logical row per distinct group. */
  lemma {:induction false} GroupsCountLogicalRows(rows: L.Rows)
    requires OneLogicalPerGroup(rows) && FallbackRowsPaired(rows)
    requires forall k :: 0 <= k < |rows| && L.IsLogical(rows[k]) ==> rows[k].attemptGroup.Some?
    ensures |LiveGroups(rows)| == LogicalCount(rows)
  {
    if rows != [] {
      var n := |rows| - 1;
      var init, last := rows[..n], rows[n];
      PrefixKeepsPairing(rows, n);
      GroupsCountLogicalRows(init);
      if L.IsLogical(last) {
        LogicalRowIsNewGroup(rows);
      } else if !last.dryRun {
        FallbackRowIsOldGroup(rows);
        assert LiveGroups(rows) == LiveGroups(init);
      }
    }
  }

  lemma {:induction false} LogicalRowIsNewGroup(rows: L.Rows)
    requires OneLogicalPerGroup(rows) && FallbackRowsPaired(rows) && rows != []
    requires var last := rows[|rows| - 1]; L.IsLogical(last) && last.attemptGroup.Some?
    ensures rows[|rows| - 1].attemptGroup.value !in LiveGroups(rows[..|rows| - 1])
  {
    var n := |rows| - 1;
    var init, group := rows[..n], rows[n].attemptGroup.value;
    LiveGroupsMembers(init);
    assert IsLogicalOf(rows, n, group);
    if group in LiveGroups(init) {
      var k :| 0 <= k < n && !init[k].dryRun && init[k].attemptGroup == Some(group);
      GroupHasLogicalRow(rows, n, k, group);
    }
  }

  lemma {:induction false} FallbackRowIsOldGroup(rows: L.Rows)
    requires FallbackRowsPaired(rows) && rows != []
    requires var last := rows[|rows| - 1]; !last.dryRun && !L.IsLogical(last)
    ensures var last := rows[|rows| - 1];
            last.attemptGroup.Some? && last.attemptGroup.value in LiveGroups(rows[..|rows| - 1])
  {
    var n := |rows| - 1;
    var init := rows[..n];
    LiveGroupsMembers(init);
    var k :| k < n && IsLogicalOf(rows, k, rows[n].attemptGroup.value) && rows[k].mac == rows[n].mac && rows[k].mechanism.RowBtm?;
    assert init[k] == rows[k];
  }

  lemma {:induction false} PrefixKeepsPairing(rows: L.Rows, n: nat)
    requires n <= |rows| && OneLogicalPerGroup(rows) && FallbackRowsPaired(rows)
    ensures OneLogicalPerGroup(rows[..n]) && FallbackRowsPaired(rows[..n])
  {
    var init := rows[..n];
    forall a, b, group | IsLogicalOf(init, a, group) && IsLogicalOf(init, b, group) ensures a == b {
      assert IsLogicalOf(rows, a, group) && IsLogicalOf(rows, b, group);
    }
    forall j | 0 <= j < n && init[j].mechanism.RowFallback? && !init[j].dryRun
      ensures init[j].attemptGroup.Some? && HasBtmRow(init, j, init[j].mac, init[j].attemptGroup.value)
    {
      var group := rows[j].attemptGroup.value;
      var k :| k < j && IsLogicalOf(rows, k, group) && rows[k].mac == rows[j].mac && rows[k].mechanism.RowBtm?;
      assert IsLogicalOf(init, k, group);
    }
  }

  lemma {:induction false} GroupHasLogicalRow(rows: L.Rows, n: nat, k: nat, group: L.Group)
    requires k < n < |rows| && OneLogicalPerGroup(rows) && FallbackRowsPaired(rows)
    requires !rows[k].dryRun && rows[k].attemptGroup == Some(group)
    ensures !IsLogicalOf(rows, n, group)
  {
    if L.IsLogical(rows[k]) {
      assert IsLogicalOf(rows, k, group);
    } else {
      var b :| b < k && IsLogicalOf(rows, b, group) && rows[b].mac == rows[k].mac && rows[b].mechanism.RowBtm?;
      assert IsLogicalOf(rows, b, group);
    }
  }

  ghost predicate LogicalRowsGrouped(w: World) {
    forall k :: 0 <= k < |w.ledger| && L.IsLogical(w.ledger[k]) ==> w.ledger[k].attemptGroup.Some?
  }

  lemma {:induction false} RunKeepsRowsPaired(ws: seq<World>, events: seq<Event>, k: nat)
    requires MovesAlong(ws, events) && k < |ws| && ws[0].ledger == [] && WR.AllBooted(ws[0])
    requires forall j :: 0 <= j < |events| && events[j].Handle? ==> events[j].env.insertOk
    ensures RowsPaired(ws[k]) && LogicalRowsGrouped(ws[k])
  {
    if k > 0 {
      RunKeepsRowsPaired(ws, events, k - 1);
      assert WorldMoves(ws[k - 1], events[k - 1], ws[k]);
      assert events[k - 1].Handle? ==> events[k - 1].env.insertOk;
      StepKeepsRowsPaired(ws[k - 1], events[k - 1], ws[k]);
      LedgerOrigin(ws[k - 1], events[k - 1], ws[k]);
    }
  }

  /** When inserts succeed, every fallback row follows the BTM row of its own group and MAC, and
      the ledger holds exactly one logical row per distinct group. */
  lemma {:induction false} LogicalRowsAreGroups(ws: seq<World>, events: seq<Event>, k: nat)
    requires Run(ws, events) && k < |ws| && ws[0].ledger == [] && WR.AllBooted(ws[0])
    requires forall j :: 0 <= j < |events| ==> GroupIsFresh(ws[j], events[j])
    requires forall j :: 0 <= j < |events| && events[j].Handle? ==> events[j].env.insertOk
    ensures FallbackRowsPaired(ws[k].ledger)
    ensures |LiveGroups(ws[k].ledger)| == LogicalCount(ws[k].ledger)
  {
    RunMoves(ws, events);
    RunKeepsLedgerPaired(ws, events, k);
    RunKeepsRowsPaired(ws, events, k);
    GroupsCountLogicalRows(ws[k].ledger);
  }

  // ---- the two in-flight maps ----

  ghost predicate OutcomeMatches(p: A.Pipe, mac: Mac) {
    mac in p.pending.outcome && p.pending.outcome[mac].mechanism.RowBtm? ==>
      mac in p.pending.btm
      && p.pending.btm[mac] == P.PendingBtm(p.pending.outcome[mac].attemptGroup, p.pending.outcome[mac].apId)
  }

  /** A BTM outcome entry always matches the pending BTM when inserts succeed. */
  lemma {:induction false} RunKeepsOutcomes(ws: seq<World>, events: seq<Event>, k: nat, mac: Mac)
    requires MovesAlong(ws, events) && k < |ws| && WR.AllBooted(ws[0])
    requires forall j :: 0 <= j < |events| && events[j].Handle? ==> events[j].env.insertOk
    ensures forall i :: 0 <= i < |ws[k].pipes| ==> OutcomeMatches(ws[k].pipes[i], mac)
  {
    if k > 0 {
      RunKeepsOutcomes(ws, events, k - 1, mac);
      assert events[k - 1].Handle? ==> events[k - 1].env.insertOk;
      forall i | 0 <= i < |ws[k].pipes| ensures OutcomeMatches(ws[k].pipes[i], mac) {
        StepKeepsOutcomes(ws[k - 1], events[k - 1], ws[k], i, mac);
      }
    }
  }

  lemma {:induction false} StepKeepsOutcomes(w: World, e: Event, next: World, i: nat, mac: Mac)
    requires WorldMoves(w, e, next) && i < |next.pipes| && (e.Handle? ==> e.env.insertOk)
    requires forall j :: 0 <= j < |w.pipes| ==> OutcomeMatches(w.pipes[j], mac)
    ensures OutcomeMatches(next.pipes[i], mac)
  {
    assert PipeMoves(w, e, next, i);
  }

  /** So a roam clears its own entry: at a check that finds a roamed BTM, the pending entry it
      removes is the one the same call created, group and AP. */
  lemma {:induction false} RoamClearsItsOwnEntry(ws: seq<World>, events: seq<Event>, k: nat, i: nat, c: Client)
    requires Run(ws, events) && k < |ws| && i < |ws[k].pipes| && WR.AllBooted(ws[0])
    requires forall j :: 0 <= j < |events| && events[j].Handle? ==> events[j].env.insertOk
    requires var p := ws[k].pipes[i];
             c.mac in p.pending.outcome && p.pending.outcome[c.mac].mechanism.RowBtm?
             && p.pending.outcome[c.mac].apId != c.apId
    ensures var p := ws[k].pipes[i];
            && c.mac in p.pending.btm && c.mac !in A.Checked(p, c).pending.btm
            && p.pending.btm[c.mac].group == p.pending.outcome[c.mac].attemptGroup
            && p.pending.btm[c.mac].apId == p.pending.outcome[c.mac].apId
  {
    RunMoves(ws, events);
    RunKeepsOutcomes(ws, events, k, c.mac);
    assert OutcomeMatches(ws[k].pipes[i], c.mac);
  }

  /** A fresh call breaks the match exactly when it is a BTM whose insert failed while an older
      BTM still awaits its check: the older outcome now faces a newer pending entry. */
  lemma {:induction false} FreshCallBreaksMatchIff(p: A.Pipe, ef: A.Effect, e: Event)
    requires e.Handle? && FreshMove(p, ef, e.client, e.decision, e.env)
    requires OutcomeMatches(p, e.client.mac)
    requires e.client.mac in p.pending.outcome ==> p.pending.outcome[e.client.mac].attemptGroup != e.env.group
    ensures OutcomeMatches(ef.pipe, e.client.mac) <==>
            !(&& !e.env.insertOk && Kind(p, e.client.mac).RowBtm?
              && e.client.mac in p.pending.outcome && p.pending.outcome[e.client.mac].mechanism.RowBtm?)
  {
  }
}
