/** The wire and the ledger, side by side: over whole runs, the live rows are the recorded wire
    calls and the dry-run rows are the recorded throttle writes, one for one and in order. */
module RecordRuns {
  import opened Config
  import opened Moves
  import opened World
  import A = Actor
  import DR = DryRuns
  import L = Ledger
  import R = Rationale
  import WR = WireRuns

  /** What a live row and the call it records have in common. */
  datatype Key = Key(mac: Mac, kind: L.RowMechanism, group: Option<L.Group>)

  function RowKey(row: L.KickRow): Key { Key(row.mac, row.mechanism, row.attemptGroup) }

  function CallKey(call: A.WireCall): Key { Key(call.mac, call.kind, Some(call.group)) }

  function LiveKeys(rows: L.Rows): seq<Key> {
    if rows == [] then [] else
      var last := rows[|rows| - 1];
      LiveKeys(rows[..|rows| - 1]) + (if last.dryRun then [] else [RowKey(last)])
  }

  function RecordedKeys(calls: seq<A.WireCall>): seq<Key> {
    if calls == [] then [] else
      var last := calls[|calls| - 1];
      RecordedKeys(calls[..|calls| - 1]) + (if last.recorded then [CallKey(last)] else [])
  }

  function CallKeys(calls: seq<A.WireCall>): seq<Key> {
    if calls == [] then [] else CallKeys(calls[..|calls| - 1]) + [CallKey(calls[|calls| - 1])]
  }

  /** A dry-run row's MAC and time. */
  datatype Stamp = Stamp(mac: Mac, ts: real)

  function DryStamps(rows: L.Rows): seq<Stamp> {
    if rows == [] then [] else
      var last := rows[|rows| - 1];
      DryStamps(rows[..|rows| - 1]) + (if last.dryRun then [Stamp(last.mac, last.ts)] else [])
  }

  function WriteStamps(writes: seq<A.DryWrite>): seq<Stamp> {
    if writes == [] then [] else
      var last := writes[|writes| - 1];
      WriteStamps(writes[..|writes| - 1]) + (if last.recorded then [Stamp(last.mac, last.rowAt)] else [])
  }

  lemma {:induction false} RowsAppend(a: L.Rows, b: L.Rows)
    requires |b| <= 1
    ensures LiveKeys(a + b) == LiveKeys(a) + LiveKeys(b) && DryStamps(a + b) == DryStamps(a) + DryStamps(b)
  {
    if b == [] {
      assert a + b == a;
    } else {
      assert (a + b)[..|a|] == a && b[..0] == [];
    }
  }

  lemma {:induction false} CallsAppend(a: seq<A.WireCall>, b: seq<A.WireCall>)
    requires |b| <= 1
    ensures RecordedKeys(a + b) == RecordedKeys(a) + RecordedKeys(b) && CallKeys(a + b) == CallKeys(a) + CallKeys(b)
  {
    if b == [] {
      assert a + b == a;
    } else {
      assert (a + b)[..|a|] == a && b[..0] == [];
    }
  }

  lemma {:induction false} WritesAppend(a: seq<A.DryWrite>, b: seq<A.DryWrite>)
    requires |b| <= 1
    ensures WriteStamps(a + b) == WriteStamps(a) + WriteStamps(b)
  {
    if b == [] {
      assert a + b == a;
    } else {
      assert (a + b)[..|a|] == a && b[..0] == [];
    }
  }

  // ---- one handle ----

  /** At most one call or one write, and exactly its row if it was recorded. */
  ghost predicate Matched(p: A.Pipe, ef: A.Effect, calls: seq<A.WireCall>, writes: seq<A.DryWrite>) {
    && ef.pipe.wire == p.wire + calls && ef.pipe.dryWrites == p.dryWrites + writes
    && |calls| <= 1 && |writes| <= 1 && |ef.rows| <= 1
    && LiveKeys(ef.rows) == RecordedKeys(calls) && DryStamps(ef.rows) == WriteStamps(writes)
  }

  lemma {:induction false} SingleKeys(row: L.KickRow, call: A.WireCall, write: A.DryWrite)
    ensures LiveKeys([row]) == (if row.dryRun then [] else [RowKey(row)])
    ensures DryStamps([row]) == (if row.dryRun then [Stamp(row.mac, row.ts)] else [])
    ensures RecordedKeys([call]) == (if call.recorded then [CallKey(call)] else [])
    ensures WriteStamps([write]) == (if write.recorded then [Stamp(write.mac, write.rowAt)] else [])
  {
    assert [row][..0] == [] && [call][..0] == [] && [write][..0] == [];
  }

  lemma {:induction false} DryHandleMatches(p: A.Pipe, c: Client, d: R.Decision, env: A.Env)
    returns (writes: seq<A.DryWrite>)
    ensures Matched(p, A.DryHandle(p, c, d, env), [], writes)
    ensures forall k :: 0 <= k < |writes| ==> writes[k].at == env.wallGate && writes[k].rowAt == env.wallRow
  {
    var ef := A.DryHandle(p, c, d, env);
    if ef.pipe == p {
      writes := [];
    } else {
      writes := [A.DryWrite(c.mac, env.wallGate, A.DryRunInterval(p.config), env.wallRow, env.insertOk)];
      SingleKeys(A.DryRow(c, d, p.config, env.wallRow), AnyCall(), writes[0]);
    }
    assert p.wire + [] == p.wire && (writes == [] ==> p.dryWrites + writes == p.dryWrites);
  }

  function AnyCall(): A.WireCall { A.WireCall("", "", L.RowDeauth, 0, 0.0, 0.0, false, false) }

  function AnyWrite(): A.DryWrite { A.DryWrite("", 0.0, 0.0, 0.0, false) }

  /** A live handle writes no dry-run row and leaves the throttle alone. */
  lemma {:induction false} LiveHandleIsLive(p: A.Pipe, ledger: L.Rows, c: Client, d: R.Decision, env: A.Env)
    ensures var ef := A.LiveHandle(p, ledger, c, d, env);
            ef.pipe.dryWrites == p.dryWrites && |ef.rows| <= 1 && (ef.rows != [] ==> !ef.rows[0].dryRun)
  {
    DR.LiveHandleKeepsThrottle(p, ledger, c, d, env);
    LiveRows(A.Touched(p, c.mac), ledger, c, d, env);
  }

  lemma {:induction false} LiveRows(p: A.Pipe, ledger: L.Rows, c: Client, d: R.Decision, env: A.Env)
    ensures var rows := A.FreshHandle(p, ledger, c, d, env).rows; |rows| <= 1 && (rows != [] ==> !rows[0].dryRun)
  {
  }

  lemma {:induction false} LiveHandleMatches(p: A.Pipe, ledger: L.Rows, c: Client, d: R.Decision, env: A.Env)
    returns (calls: seq<A.WireCall>)
    requires !p.config.scanner.dryRun
    ensures Matched(p, A.HandleEffect(p, ledger, c, d, env), calls, [])
    ensures env.insertOk ==> forall k :: 0 <= k < |calls| ==> calls[k].recorded
  {
    var ef := A.HandleEffect(p, ledger, c, d, env);
    LiveHandleIsLive(p, ledger, c, d, env);
    HandleMoves(p, ledger, c, d, env);
    assert p.dryWrites + [] == p.dryWrites;
    if IdleMove(p, ef, c, env) {
      calls := [];
      assert p.wire + [] == p.wire;
    } else if FreshMove(p, ef, c, d, env) {
      calls := [Call(p, c, Kind(p, c.mac), env.group, env)];
    } else {
      calls := [Call(p, c, L.RowFallback, p.pending.btm[c.mac].group, env)];
    }
  }

  // ---- whole runs ----

  /** The calls a step sends, and the throttle writes it makes. */
  function NewCalls(w: World, e: Event, next: World): seq<A.WireCall> {
    if Acts(w, e) && e.pipe < |next.pipes| && |w.pipes[e.pipe].wire| <= |next.pipes[e.pipe].wire|
    then next.pipes[e.pipe].wire[|w.pipes[e.pipe].wire|..] else []
  }

  function NewWrites(w: World, e: Event, next: World): seq<A.DryWrite> {
    if Acts(w, e) && e.pipe < |next.pipes| && |w.pipes[e.pipe].dryWrites| <= |next.pipes[e.pipe].dryWrites|
    then next.pipes[e.pipe].dryWrites[|w.pipes[e.pipe].dryWrites|..] else []
  }

  /** Every call of every pipeline so far, those of earlier processes included, in order. */
  function Sent(ws: seq<World>, events: seq<Event>, k: nat): seq<A.WireCall>
    requires |ws| == |events| + 1 && k <= |events|
  {
    if k == 0 then [] else Sent(ws, events, k - 1) + NewCalls(ws[k - 1], events[k - 1], ws[k])
  }

  function Written(ws: seq<World>, events: seq<Event>, k: nat): seq<A.DryWrite>
    requires |ws| == |events| + 1 && k <= |events|
  {
    if k == 0 then [] else Written(ws, events, k - 1) + NewWrites(ws[k - 1], events[k - 1], ws[k])
  }

  ghost predicate StepRecords(w: World, e: Event, next: World) {
    var calls, writes := NewCalls(w, e, next), NewWrites(w, e, next);
    && |calls| <= 1 && |writes| <= 1 && w.ledger <= next.ledger && |next.ledger| <= |w.ledger| + 1
    && LiveKeys(next.ledger[|w.ledger|..]) == RecordedKeys(calls)
    && DryStamps(next.ledger[|w.ledger|..]) == WriteStamps(writes)
    && (e.Handle? && e.env.insertOk ==> forall k :: 0 <= k < |calls| ==> calls[k].recorded)
  }

  lemma {:induction false} EffectRecords(w: World, e: Event)
    requires Acts(w, e)
    ensures StepRecords(w, e, Step(w, e))
  {
    var p, ef := w.pipes[e.pipe], EffectOf(w, e);
    var next := Step(w, e);
    var calls: seq<A.WireCall>, writes: seq<A.DryWrite> := [], [];
    if p.config.scanner.dryRun {
      writes := DryHandleMatches(p, e.client, e.decision, e.env);
    } else {
      calls := LiveHandleMatches(p, w.ledger, e.client, e.decision, e.env);
    }
    assert Matched(p, ef, calls, writes);
    assert next.pipes[e.pipe] == ef.pipe;
    assert (p.wire + calls)[|p.wire|..] == calls && (p.dryWrites + writes)[|p.dryWrites|..] == writes;
    assert (w.ledger + ef.rows)[|w.ledger|..] == ef.rows;
  }

  lemma {:induction false} StepDoesRecord(w: World, e: Event)
    ensures StepRecords(w, e, Step(w, e))
  {
    if Acts(w, e) {
      EffectRecords(w, e);
    } else {
      assert Step(w, e).ledger == w.ledger && w.ledger[|w.ledger|..] == [];
    }
  }

  ghost predicate RecordsAlong(ws: seq<World>, events: seq<Event>) {
    |ws| == |events| + 1 && forall n :: 0 <= n < |events| ==> StepRecords(ws[n], events[n], ws[n + 1])
  }

  lemma {:induction false} RunRecords(ws: seq<World>, events: seq<Event>)
    requires Run(ws, events)
    ensures RecordsAlong(ws, events)
  {
    forall n | 0 <= n < |events| ensures StepRecords(ws[n], events[n], ws[n + 1]) {
      assert StepsTo(ws[n], events[n], ws[n + 1]);
      StepDoesRecord(ws[n], events[n]);
    }
  }

  lemma {:induction false} RowsExtend(w: World, e: Event, next: World)
    requires StepRecords(w, e, next)
    ensures LiveKeys(next.ledger) == LiveKeys(w.ledger) + RecordedKeys(NewCalls(w, e, next))
    ensures DryStamps(next.ledger) == DryStamps(w.ledger) + WriteStamps(NewWrites(w, e, next))
  {
    var added := next.ledger[|w.ledger|..];
    assert next.ledger == w.ledger + added;
    RowsAppend(w.ledger, added);
  }

  /** Whatever calls and writes the rows matched before, they match the longer lists after. */
  ghost predicate Carries(w: World, e: Event, next: World) {
    && (forall calls :: LiveKeys(w.ledger) == RecordedKeys(calls) ==>
          LiveKeys(next.ledger) == RecordedKeys(calls + NewCalls(w, e, next)))
    && (forall writes :: DryStamps(w.ledger) == WriteStamps(writes) ==>
          DryStamps(next.ledger) == WriteStamps(writes + NewWrites(w, e, next)))
  }

  lemma {:induction false} StepCarries(w: World, e: Event, next: World)
    requires StepRecords(w, e, next)
    ensures Carries(w, e, next)
  {
    forall calls | LiveKeys(w.ledger) == RecordedKeys(calls)
      ensures LiveKeys(next.ledger) == RecordedKeys(calls + NewCalls(w, e, next))
    {
      RowsExtend(w, e, next);
      CallsAppend(calls, NewCalls(w, e, next));
    }
    forall writes | DryStamps(w.ledger) == WriteStamps(writes)
      ensures DryStamps(next.ledger) == WriteStamps(writes + NewWrites(w, e, next))
    {
      RowsExtend(w, e, next);
      WritesAppend(writes, NewWrites(w, e, next));
    }
  }

  lemma {:induction false} RecordsAdd(ws: seq<World>, events: seq<Event>, k: nat)
    requires |ws| == |events| + 1 && ws[0].ledger == [] && k < |ws|
    requires forall n :: 0 <= n < |events| ==> Carries(ws[n], events[n], ws[n + 1])
    ensures RowsMatch(ws[k].ledger, Sent(ws, events, k), Written(ws, events, k))
  {
    if k > 0 {
      RecordsAdd(ws, events, k - 1);
      var w, e, next := ws[k - 1], events[k - 1], ws[k];
      assert Carries(w, e, next);
      CarryOver(w, e, next, Sent(ws, events, k - 1), Written(ws, events, k - 1), NewCalls(w, e, next), NewWrites(w, e, next));
    }
  }

  ghost predicate RowsMatch(rows: L.Rows, calls: seq<A.WireCall>, writes: seq<A.DryWrite>) {
    LiveKeys(rows) == RecordedKeys(calls) && DryStamps(rows) == WriteStamps(writes)
  }

  lemma {:induction false} CarryOver(
      w: World, e: Event, next: World, calls: seq<A.WireCall>, writes: seq<A.DryWrite>,
      newCalls: seq<A.WireCall>, newWrites: seq<A.DryWrite>)
    requires Carries(w, e, next) && RowsMatch(w.ledger, calls, writes)
    requires newCalls == NewCalls(w, e, next) && newWrites == NewWrites(w, e, next)
    ensures RowsMatch(next.ledger, calls + newCalls, writes + newWrites)
  {
  }

  /** In every run from an empty ledger, whatever fails, the live rows are exactly the recorded
      calls, one row for each and in the order sent, across pipelines and restarts; the dry-run
      rows are exactly the recorded throttle writes. */
  lemma {:induction false} RowsAreTheRecordedCalls(ws: seq<World>, events: seq<Event>, k: nat)
    requires Run(ws, events) && ws[0].ledger == [] && k < |ws|
    ensures LiveKeys(ws[k].ledger) == RecordedKeys(Sent(ws, events, k))
    ensures DryStamps(ws[k].ledger) == WriteStamps(Written(ws, events, k))
  {
    RunRecords(ws, events);
    forall n | 0 <= n < |events| ensures Carries(ws[n], events[n], ws[n + 1]) {
      assert StepRecords(ws[n], events[n], ws[n + 1]);
      StepCarries(ws[n], events[n], ws[n + 1]);
    }
    RecordsAdd(ws, events, k);
  }

  /** And when no insert fails, every wire call has its row. */
  lemma {:induction false} InsertsSucceedingRecordAll(ws: seq<World>, events: seq<Event>, k: nat)
    requires Run(ws, events) && ws[0].ledger == [] && k < |ws|
    requires forall j :: 0 <= j < |events| && events[j].Handle? ==> events[j].env.insertOk
    ensures LiveKeys(ws[k].ledger) == CallKeys(Sent(ws, events, k))
  {
    RowsAreTheRecordedCalls(ws, events, k);
    RunRecords(ws, events);
    forall n | 0 <= n < |events| ensures AllNewRecorded(ws[n], events[n], ws[n + 1]) {
      assert StepRecords(ws[n], events[n], ws[n + 1]);
    }
    AllSentRecorded(ws, events, k);
  }

  ghost predicate AllNewRecorded(w: World, e: Event, next: World) {
    RecordedKeys(NewCalls(w, e, next)) == CallKeys(NewCalls(w, e, next)) && |NewCalls(w, e, next)| <= 1
  }

  lemma {:induction false} AllSentRecorded(ws: seq<World>, events: seq<Event>, k: nat)
    requires |ws| == |events| + 1 && k < |ws|
    requires forall n :: 0 <= n < |events| ==> AllNewRecorded(ws[n], events[n], ws[n + 1])
    ensures RecordedKeys(Sent(ws, events, k)) == CallKeys(Sent(ws, events, k))
  {
    if k > 0 {
      AllSentRecorded(ws, events, k - 1);
      assert AllNewRecorded(ws[k - 1], events[k - 1], ws[k]);
      CallsAppend(Sent(ws, events, k - 1), NewCalls(ws[k - 1], events[k - 1], ws[k]));
    }
  }

  // ---- what one pipeline's log says of the ledger ----

  /** Every call of every pipe is an old one or one of this step's. */
  ghost predicate CallsAreNew(w: World, e: Event, next: World) {
    forall i, j :: 0 <= i < |next.pipes| && 0 <= j < |next.pipes[i].wire| ==> CallIsNew(w, e, next, i, j)
  }

  ghost predicate CallIsNew(w: World, e: Event, next: World, i: nat, j: nat)
    requires i < |next.pipes| && j < |next.pipes[i].wire|
  {
    || (i < |w.pipes| && j < |w.pipes[i].wire| && w.pipes[i].wire[j] == next.pipes[i].wire[j])
    || next.pipes[i].wire[j] in NewCalls(w, e, next)
  }

  lemma {:induction false} StepCallsAreNew(w: World, e: Event, next: World)
    requires WorldMoves(w, e, next)
    ensures CallsAreNew(w, e, next)
  {
    forall i, j | 0 <= i < |next.pipes| && 0 <= j < |next.pipes[i].wire| ensures CallIsNew(w, e, next, i, j) {
      assert PipeMoves(w, e, next, i);
      if i < |w.pipes| && |w.pipes[i].wire| <= j {
        assert next.pipes[i].wire[j] == NewCalls(w, e, next)[j - |w.pipes[i].wire|];
      }
    }
  }

  lemma {:induction false} WireWasSent(ws: seq<World>, events: seq<Event>, k: nat, i: nat, j: nat)
    requires |ws| == |events| + 1 && WR.AllBooted(ws[0]) && k < |ws|
    requires forall n :: 0 <= n < |events| ==> CallsAreNew(ws[n], events[n], ws[n + 1])
    requires i < |ws[k].pipes| && j < |ws[k].pipes[i].wire|
    ensures ws[k].pipes[i].wire[j] in Sent(ws, events, k)
  {
    assert k > 0;
    assert CallsAreNew(ws[k - 1], events[k - 1], ws[k]);
    assert CallIsNew(ws[k - 1], events[k - 1], ws[k], i, j);
    if ws[k].pipes[i].wire[j] !in NewCalls(ws[k - 1], events[k - 1], ws[k]) {
      WireWasSent(ws, events, k - 1, i, j);
    }
  }

  lemma {:induction false} RecordedKeyIn(calls: seq<A.WireCall>, call: A.WireCall)
    requires call in calls && call.recorded
    ensures CallKey(call) in RecordedKeys(calls)
  {
    var n := |calls| - 1;
    if call != calls[n] {
      assert calls == calls[..n] + [calls[n]];
      RecordedKeyIn(calls[..n], call);
    }
  }

  lemma {:induction false} KeyHasRow(rows: L.Rows, key: Key) returns (r: nat)
    requires key in LiveKeys(rows)
    ensures r < |rows| && !rows[r].dryRun && RowKey(rows[r]) == key
  {
    var n := |rows| - 1;
    if !rows[n].dryRun && RowKey(rows[n]) == key {
      r := n;
    } else {
      r := KeyHasRow(rows[..n], key);
    }
  }

  /** Every recorded call of every pipeline has a live row with its MAC, mechanism and group. */
  lemma {:induction false} EveryRecordedCallHasItsRow(ws: seq<World>, events: seq<Event>, k: nat, i: nat, j: nat)
    returns (r: nat)
    requires Run(ws, events) && WR.AllBooted(ws[0]) && ws[0].ledger == [] && k < |ws|
    requires i < |ws[k].pipes| && j < |ws[k].pipes[i].wire| && ws[k].pipes[i].wire[j].recorded
    ensures r < |ws[k].ledger| && !ws[k].ledger[r].dryRun
    ensures RowKey(ws[k].ledger[r]) == CallKey(ws[k].pipes[i].wire[j])
  {
    RowsAreTheRecordedCalls(ws, events, k);
    RunMoves(ws, events);
    forall n | 0 <= n < |events| ensures CallsAreNew(ws[n], events[n], ws[n + 1]) {
      StepCallsAreNew(ws[n], events[n], ws[n + 1]);
    }
    WireWasSent(ws, events, k, i, j);
    RecordedKeyIn(Sent(ws, events, k), ws[k].pipes[i].wire[j]);
    r := KeyHasRow(ws[k].ledger, CallKey(ws[k].pipes[i].wire[j]));
  }

  /** One more row, a live one, is one more recorded call. */
  ghost predicate RowHasCall(w: World, e: Event, next: World, row: L.KickRow) {
    var calls := NewCalls(w, e, next);
    next.ledger == w.ledger + [row] && |calls| == 1 && calls[0].recorded && CallKey(calls[0]) == RowKey(row)
  }

  lemma {:induction false} StepRowHasCall(w: World, e: Event, next: World, row: L.KickRow)
    requires StepRecords(w, e, next) && next.ledger == w.ledger + [row] && !row.dryRun
    ensures RowHasCall(w, e, next, row)
  {
    var calls := NewCalls(w, e, next);
    assert next.ledger[|w.ledger|..] == [row];
    SingleKeys(row, if calls == [] then AnyCall() else calls[0], AnyWrite());
    assert calls != [] ==> calls == [calls[0]];
  }

  lemma {:induction false} RowOrigin(ws: seq<World>, k: nat, r: nat) returns (n: nat)
    requires k < |ws| && ws[0].ledger == [] && r < |ws[k].ledger|
    requires forall j :: 0 <= j < k ==> OneRowAtMost(ws[j], ws[j + 1])
    ensures n < k && |ws[n].ledger| == r && ws[n + 1].ledger == ws[n].ledger + [ws[k].ledger[r]]
  {
    assert OneRowAtMost(ws[k - 1], ws[k]);
    if r < |ws[k - 1].ledger| {
      n := RowOrigin(ws, k - 1, r);
    } else {
      n := k - 1;
    }
  }

  ghost predicate OneRowAtMost(w: World, next: World) {
    w.ledger <= next.ledger && |next.ledger| <= |w.ledger| + 1
  }

  /** And every live row was appended by the very step that sent such a call. */
  lemma {:induction false} EveryLiveRowHasItsCall(ws: seq<World>, events: seq<Event>, k: nat, r: nat) returns (n: nat)
    requires Run(ws, events) && ws[0].ledger == [] && k < |ws| && r < |ws[k].ledger| && !ws[k].ledger[r].dryRun
    ensures n < k && |ws[n].ledger| == r && RowHasCall(ws[n], events[n], ws[n + 1], ws[k].ledger[r])
  {
    RunRecords(ws, events);
    forall j | 0 <= j < k ensures OneRowAtMost(ws[j], ws[j + 1]) {
      assert StepRecords(ws[j], events[j], ws[j + 1]);
    }
    n := RowOrigin(ws, k, r);
    assert StepRecords(ws[n], events[n], ws[n + 1]);
    StepRowHasCall(ws[n], events[n], ws[n + 1], ws[k].ledger[r]);
  }

  // ---- the throttle, on the rows ----

  lemma {:induction false} WriteStampIn(writes: seq<A.DryWrite>, write: A.DryWrite)
    requires write in writes && write.recorded
    ensures Stamp(write.mac, write.rowAt) in WriteStamps(writes)
  {
    var n := |writes| - 1;
    if write != writes[n] {
      assert writes == writes[..n] + [writes[n]];
      WriteStampIn(writes[..n], write);
    }
  }

  lemma {:induction false} StampHasRow(rows: L.Rows, stamp: Stamp) returns (r: nat)
    requires stamp in DryStamps(rows)
    ensures r < |rows| && rows[r].dryRun && Stamp(rows[r].mac, rows[r].ts) == stamp
  {
    var n := |rows| - 1;
    if rows[n].dryRun && Stamp(rows[n].mac, rows[n].ts) == stamp {
      r := n;
    } else {
      r := StampHasRow(rows[..n], stamp);
    }
  }

  /** Every throttle write of every pipe is an old one or one of this step's, stamped by it. */
  ghost predicate WritesAreNew(w: World, e: Event, next: World) {
    forall i, j :: 0 <= i < |next.pipes| && 0 <= j < |next.pipes[i].dryWrites| ==> WriteIsNew(w, e, next, i, j)
  }

  ghost predicate WriteIsNew(w: World, e: Event, next: World, i: nat, j: nat)
    requires i < |next.pipes| && j < |next.pipes[i].dryWrites|
  {
    var write := next.pipes[i].dryWrites[j];
    || (i < |w.pipes| && j < |w.pipes[i].dryWrites| && w.pipes[i].dryWrites[j] == write)
    || (write in NewWrites(w, e, next) && (ClocksAdvance(w, e) ==> write.at <= write.rowAt))
  }

  lemma {:induction false} StepWritesAreNew(w: World, e: Event)
    ensures WritesAreNew(w, e, Step(w, e))
  {
    var next := Step(w, e);
    forall i, j | 0 <= i < |next.pipes| && 0 <= j < |next.pipes[i].dryWrites| ensures WriteIsNew(w, e, next, i, j) {
      StepAddsWrite(w, e, i);
      if |w.pipes[i].dryWrites| <= j {
        assert next.pipes[i].dryWrites[j] == NewWrites(w, e, next)[j - |w.pipes[i].dryWrites|];
      }
    }
  }

  lemma {:induction false} WriteWasWritten(ws: seq<World>, events: seq<Event>, k: nat, i: nat, j: nat)
    requires ClocksAdvanceAlong(ws, events) && WR.AllBooted(ws[0]) && k < |ws|
    requires forall n :: 0 <= n < |events| ==> WritesAreNew(ws[n], events[n], ws[n + 1])
    requires i < |ws[k].pipes| && j < |ws[k].pipes[i].dryWrites|
    ensures var write := ws[k].pipes[i].dryWrites[j]; write in Written(ws, events, k) && write.at <= write.rowAt
  {
    assert k > 0;
    assert WritesAreNew(ws[k - 1], events[k - 1], ws[k]) && ClocksAdvance(ws[k - 1], events[k - 1]);
    assert WriteIsNew(ws[k - 1], events[k - 1], ws[k], i, j);
    if i < |ws[k - 1].pipes| && j < |ws[k - 1].pipes[i].dryWrites|
       && ws[k - 1].pipes[i].dryWrites[j] == ws[k].pipes[i].dryWrites[j] {
      WriteWasWritten(ws, events, k - 1, i, j);
    }
  }

  /** A pipe's throttle writes after a step: those it had, and its own handle's, stamped by it. */
  lemma {:induction false} StepAddsWrite(w: World, e: Event, i: nat)
    requires i < |Step(w, e).pipes| && Step(w, e).pipes[i].dryWrites != []
    ensures i < |w.pipes|
    ensures var before, after := w.pipes[i].dryWrites, Step(w, e).pipes[i].dryWrites;
            && before <= after && |after| <= |before| + 1
            && (|after| > |before| ==>
                  Acts(w, e) && e.pipe == i
                  && after[|before|].at == e.env.wallGate && after[|before|].rowAt == e.env.wallRow)
  {
    if Acts(w, e) && e.pipe == i {
      var p := w.pipes[i];
      if p.config.scanner.dryRun {
        var writes := DryHandleMatches(p, e.client, e.decision, e.env);
      } else {
        LiveHandleIsLive(p, w.ledger, e.client, e.decision, e.env);
      }
    }
  }

  /** Two persisted dry-run rows of one MAC from one pipeline's lifetime are at least the
      interval in force apart, less the time the earlier row took to be written. */
  lemma {:induction false} DryRowsAreThrottled(
      ws: seq<World>, events: seq<Event>, k: nat, i: nat, a: nat, b: nat) returns (earlier: nat, later: nat)
    requires Run(ws, events) && ClocksAdvanceAlong(ws, events) && WR.AllBooted(ws[0]) && ws[0].ledger == []
    requires k < |ws| && i < |ws[k].pipes| && a < b < |ws[k].pipes[i].dryWrites|
    requires var writes := ws[k].pipes[i].dryWrites;
             writes[a].mac == writes[b].mac && writes[a].recorded && writes[b].recorded
    ensures earlier < |ws[k].ledger| && later < |ws[k].ledger|
    ensures var from, to := ws[k].pipes[i].dryWrites[a], ws[k].pipes[i].dryWrites[b];
            var row, next := ws[k].ledger[earlier], ws[k].ledger[later];
            && row.dryRun && next.dryRun && row.mac == next.mac == from.mac
            && row.ts == from.rowAt && next.ts == to.rowAt
            && next.ts - row.ts >= to.interval - (row.ts - from.at)
  {
    var writes := ws[k].pipes[i].dryWrites;
    RowsAreTheRecordedCalls(ws, events, k);
    forall n | 0 <= n < |events| ensures WritesAreNew(ws[n], events[n], ws[n + 1]) {
      assert StepsTo(ws[n], events[n], ws[n + 1]);
      StepWritesAreNew(ws[n], events[n]);
    }
    WriteWasWritten(ws, events, k, i, a);
    WriteWasWritten(ws, events, k, i, b);
    WriteStampIn(Written(ws, events, k), writes[a]);
    WriteStampIn(Written(ws, events, k), writes[b]);
    earlier := StampHasRow(ws[k].ledger, Stamp(writes[a].mac, writes[a].rowAt));
    later := StampHasRow(ws[k].ledger, Stamp(writes[b].mac, writes[b].rowAt));
    DR.DryRunWritesAreThrottled(ws, events, k, i, a, b);
  }
}
