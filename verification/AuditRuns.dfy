/** Whole-run soundness of the audit trail: when every handle carries a genuine detector
    decision, every ledger row but a fallback's explains itself, and nothing is ever done to an
    allowlisted client. */
module AuditRuns {
  import opened Config
  import opened World
  import opened Moves
  import A = Actor
  import D = DnsThrash
  import I = Inactivity
  import L = Ledger
  import R = Rationale
  import RL = RateLimit
  import S = Scorer
  import Scanner
  import WR = WireRuns

  ghost predicate RfFlagged(s: S.State, c: Client, timeOfDay: nat, flag: S.Flag, config: Config) {
    s.config == config && S.FlagFor(s, c, timeOfDay) == Some(flag)
  }

  ghost predicate IdleFlagged(s: I.State, c: Client, flag: I.Flag, config: Config) {
    s.config == config && I.FlagFor(s, c) == Some(flag)
  }

  /** What one DNS poll made of the detector's state, and a kick among those it led to. */
  datatype DnsCycle = DnsCycle(
    state: D.State, poll: D.Poll, flagged: seq<Mac>, standings: seq<R.Standing>, clients: seq<Client>)

  ghost predicate DnsKicked(y: DnsCycle, c: Client, d: R.Decision, config: Config) {
    && y.poll.config == config
    && (forall mac :: mac in y.flagged ==> D.Flagged(y.state, y.poll, mac))
    && (forall st :: st in y.standings <==> D.IsStanding(y.state, y.poll, st))
    && Scanner.Kick(c, d) in
         Scanner.KicksFor(y.flagged, Scanner.ByMac(y.clients), Scanner.LoudestOf(y.standings), config.allowlist)
  }

  /** What some detector running this configuration, in some state, decides about this client. */
  ghost predicate Genuine(c: Client, d: R.Decision, config: Config) {
    match d
    case RfDecision(flag) => exists s, timeOfDay :: RfFlagged(s, c, timeOfDay, flag, config)
    case InactivityDecision(bytes, minBytes, samples) =>
      exists s :: IdleFlagged(s, c, I.Flag(bytes, minBytes, samples), config)
    case DnsDecision(_) => exists y :: DnsKicked(y, c, d, config)
  }

  /** Every acting handle carries a genuine decision of its own pipeline's detectors. */
  ghost predicate GenuineAlong(ws: seq<World>, events: seq<Event>) {
    && |ws| == |events| + 1
    && forall k :: 0 <= k < |events| ==> GenuineStep(ws[k], events[k])
  }

  ghost predicate GenuineStep(w: World, e: Event) {
    Acts(w, e) ==> Genuine(e.client, e.decision, ActingPipe(w, e).config)
  }

  /** The evidence convicts: exactly the active criteria breached and at least one, fewer bytes
      than the floor, or more queries by this MAC than its threshold. */
  predicate Convicts(mac: Mac, e: R.Envelope) {
    match e.evidence
    case RfEvidence(thresholds, _, _, breached) =>
      e.trigger.Rf? && breached == R.ActiveCriteria(thresholds) && breached != []
    case InactivityEvidence(bytes, minBytes) => e.trigger.Inactivity? && bytes < minBytes
    case DnsEvidence(top) =>
      e.trigger.DnsThrash? && top.Some? && top.value.mac == mac && top.value.count > top.value.threshold
  }

  predicate Explained(row: L.KickRow) {
    if row.mechanism.RowFallback? then row.rationale.None?
    else row.rationale.Some? && row.rationale.value.trigger == row.trigger && Convicts(row.mac, row.rationale.value)
  }

  lemma {:induction false} GenuineConvicts(c: Client, d: R.Decision, config: Config)
    requires Genuine(c, d, config)
    ensures Convicts(c.mac, R.BuildKickRationale(c, d, config))
    ensures R.BuildKickRationale(c, d, config).trigger == R.TriggerOf(d)
  {
    match d
    case RfDecision(flag) =>
      var s, timeOfDay :| RfFlagged(s, c, timeOfDay, flag, config);
      R.RationaleNamesActiveCriteria(s, c, timeOfDay, config);
    case InactivityDecision(bytes, minBytes, samples) =>
      var s :| IdleFlagged(s, c, I.Flag(bytes, minBytes, samples), config);
    case DnsDecision(_) =>
      var y :| DnsKicked(y, c, d, config);
      Scanner.DnsKicksAreIncriminating(y.state, y.poll, y.flagged, y.standings, y.clients, config);
      assert Scanner.Incriminates(Scanner.Kick(c, d));
  }

  /** Each of the three detector paths ends at the allowlist. */
  lemma {:induction false} GenuineIsOffTheAllowlist(c: Client, d: R.Decision, config: Config)
    requires Genuine(c, d, config)
    ensures c.CanonicalMac() !in config.allowlist
  {
    match d
    case RfDecision(flag) =>
      var s, timeOfDay :| RfFlagged(s, c, timeOfDay, flag, config);
    case InactivityDecision(bytes, minBytes, samples) =>
      var s :| IdleFlagged(s, c, I.Flag(bytes, minBytes, samples), config);
    case DnsDecision(_) =>
      var y :| DnsKicked(y, c, d, config);
      Scanner.DnsKicksAreIncriminating(y.state, y.poll, y.flagged, y.standings, y.clients, config);
  }

  /** The row of a handle is a fallback without a rationale or carries the one built here. */
  predicate RowOf(row: L.KickRow, c: Client, d: R.Decision, config: Config) {
    && row.mac == c.mac && row.trigger == R.TriggerOf(d)
    && row.rationale == if row.mechanism.RowFallback? then None else Some(R.BuildKickRationale(c, d, config))
  }

  lemma {:induction false} FreshRows(p: A.Pipe, ledger: L.Rows, c: Client, d: R.Decision, env: A.Env)
    ensures var rows := A.FreshHandle(p, ledger, c, d, env).rows;
            rows == [] || (|rows| == 1 && RowOf(rows[0], c, d, p.config))
  {
    var gated := p.(limiter := RL.AfterCanKick(p.limiter, c.apId, env.monoGate));
    var rows := A.FreshSend(gated, c, d, env).rows;
    assert rows == [] || rows == [A.FreshRow(c, d, p.config, env)];
  }

  lemma {:induction false} HandleRows(p: A.Pipe, ledger: L.Rows, c: Client, d: R.Decision, env: A.Env)
    ensures var rows := A.HandleEffect(p, ledger, c, d, env).rows;
            rows == [] || (|rows| == 1 && RowOf(rows[0], c, d, p.config))
  {
    if !p.config.scanner.dryRun {
      FreshRows(A.Touched(p, c.mac), ledger, c, d, env);
    }
  }

  /** The rows a step adds, if any, were built by its handle. */
  ghost predicate AddsRows(w: World, e: Event, next: World) {
    && w.ledger <= next.ledger
    && forall j :: |w.ledger| <= j < |next.ledger| ==>
         Acts(w, e) && RowOf(next.ledger[j], e.client, e.decision, ActingPipe(w, e).config)
  }

  lemma {:induction false} StepAddsRows(w: World, e: Event)
    ensures AddsRows(w, e, Step(w, e))
  {
    if Acts(w, e) {
      HandleRows(ActingPipe(w, e), w.ledger, e.client, e.decision, e.env);
    }
  }

  ghost predicate AddsRowsAlong(ws: seq<World>, events: seq<Event>) {
    |ws| == |events| + 1 && forall k :: 0 <= k < |events| ==> AddsRows(ws[k], events[k], ws[k + 1])
  }

  lemma {:induction false} RunAddsRows(ws: seq<World>, events: seq<Event>)
    requires Run(ws, events)
    ensures AddsRowsAlong(ws, events)
  {
    forall k | 0 <= k < |events| ensures AddsRows(ws[k], events[k], ws[k + 1]) {
      assert StepsTo(ws[k], events[k], ws[k + 1]);
      StepAddsRows(ws[k], events[k]);
    }
  }

  /** Step n appended this row, its j-th. */
  ghost predicate RowAddedAt(ws: seq<World>, events: seq<Event>, n: nat, j: nat, row: L.KickRow) {
    && n < |events| && n + 1 < |ws| && |ws[n].ledger| <= j < |ws[n + 1].ledger| && ws[n + 1].ledger[j] == row
    && Acts(ws[n], events[n])
    && RowOf(row, events[n].client, events[n].decision, ActingPipe(ws[n], events[n]).config)
  }

  lemma {:induction false} RowOrigin(ws: seq<World>, events: seq<Event>, k: nat, j: nat) returns (n: nat)
    requires AddsRowsAlong(ws, events) && ws[0].ledger == [] && k < |ws| && j < |ws[k].ledger|
    ensures n < k && RowAddedAt(ws, events, n, j, ws[k].ledger[j])
  {
    assert AddsRows(ws[k - 1], events[k - 1], ws[k]);
    if j < |ws[k - 1].ledger| {
      n := RowOrigin(ws, events, k - 1, j);
    } else {
      n := k - 1;
    }
  }

  /** In every run from an empty ledger, through any failures, reloads and restarts, every row
      carries a rationale that convicts the client it names, fallback rows excepted, which
      carry none. */
  lemma {:induction false} EveryRowExplainsItself(ws: seq<World>, events: seq<Event>, k: nat, j: nat)
    requires Run(ws, events) && GenuineAlong(ws, events) && ws[0].ledger == []
    requires k < |ws| && j < |ws[k].ledger|
    ensures Explained(ws[k].ledger[j])
  {
    RunAddsRows(ws, events);
    var n := RowOrigin(ws, events, k, j);
    assert GenuineStep(ws[n], events[n]);
    GenuineConvicts(events[n].client, events[n].decision, ActingPipe(ws[n], events[n]).config);
  }

  // ---- the allowlist ----

  /** The step handled this MAC, which the configuration then in force did not allowlist. */
  ghost predicate HandledOffAllowlist(w: World, e: Event, mac: Mac) {
    Acts(w, e) && e.client.mac == mac && NormalizeMac(mac) !in ActingPipe(w, e).config.allowlist
  }

  lemma {:induction false} GenuineStepIsOffTheAllowlist(w: World, e: Event)
    requires GenuineStep(w, e) && Acts(w, e)
    ensures HandledOffAllowlist(w, e, e.client.mac)
  {
    GenuineIsOffTheAllowlist(e.client, e.decision, ActingPipe(w, e).config);
  }

  /** The allowlist is absolute: in every run, whatever fails, every ledger row was appended by
      a step whose acting pipeline did not allowlist the row's MAC at that very step. */
  lemma {:induction false} EveryRowIsOffTheAllowlist(ws: seq<World>, events: seq<Event>, k: nat, j: nat) returns (n: nat)
    requires Run(ws, events) && GenuineAlong(ws, events) && ws[0].ledger == []
    requires k < |ws| && j < |ws[k].ledger|
    ensures n < k && RowAddedAt(ws, events, n, j, ws[k].ledger[j])
    ensures HandledOffAllowlist(ws[n], events[n], ws[k].ledger[j].mac)
  {
    RunAddsRows(ws, events);
    n := RowOrigin(ws, events, k, j);
    assert GenuineStep(ws[n], events[n]);
    GenuineStepIsOffTheAllowlist(ws[n], events[n]);
  }

  /** Step n sent this call, the j-th of pipe i. */
  ghost predicate CallAddedAt(ws: seq<World>, events: seq<Event>, n: nat, i: nat, j: nat, call: A.WireCall) {
    && n < |events| && n + 1 < |ws| && i < |ws[n].pipes| && i < |ws[n + 1].pipes|
    && |ws[n].pipes[i].wire| <= j < |ws[n + 1].pipes[i].wire| && ws[n + 1].pipes[i].wire[j] == call
    && Acts(ws[n], events[n]) && events[n].pipe == i && events[n].client.mac == call.mac
  }

  /** A pipe's calls after a step: those it had, and at most one more by its own handle. */
  lemma {:induction false} StepAddsCall(w: World, e: Event, next: World, i: nat, j: nat)
    requires WorldMoves(w, e, next) && i < |next.pipes| && j < |next.pipes[i].wire|
    ensures i < |w.pipes|
    ensures if j < |w.pipes[i].wire| then next.pipes[i].wire[j] == w.pipes[i].wire[j]
            else Acts(w, e) && e.pipe == i && e.client.mac == next.pipes[i].wire[j].mac
  {
    assert PipeMoves(w, e, next, i);
  }

  lemma {:induction false} CallOrigin(ws: seq<World>, events: seq<Event>, k: nat, i: nat, j: nat) returns (n: nat)
    requires MovesAlong(ws, events) && WR.AllBooted(ws[0])
    requires k < |ws| && i < |ws[k].pipes| && j < |ws[k].pipes[i].wire|
    ensures n < k && CallAddedAt(ws, events, n, i, j, ws[k].pipes[i].wire[j])
  {
    assert k > 0;
    assert WorldMoves(ws[k - 1], events[k - 1], ws[k]);
    StepAddsCall(ws[k - 1], events[k - 1], ws[k], i, j);
    if j < |ws[k - 1].pipes[i].wire| {
      n := CallOrigin(ws, events, k - 1, i, j);
    } else {
      n := k - 1;
    }
  }

  /** And so was every wire call sent. */
  lemma {:induction false} EveryCallIsOffTheAllowlist(ws: seq<World>, events: seq<Event>, k: nat, i: nat, j: nat)
    returns (n: nat)
    requires Run(ws, events) && GenuineAlong(ws, events) && WR.AllBooted(ws[0])
    requires k < |ws| && i < |ws[k].pipes| && j < |ws[k].pipes[i].wire|
    ensures n < k && CallAddedAt(ws, events, n, i, j, ws[k].pipes[i].wire[j])
    ensures HandledOffAllowlist(ws[n], events[n], ws[k].pipes[i].wire[j].mac)
  {
    RunMoves(ws, events);
    n := CallOrigin(ws, events, k, i, j);
    assert GenuineStep(ws[n], events[n]);
    GenuineStepIsOffTheAllowlist(ws[n], events[n]);
  }
}
