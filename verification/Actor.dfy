/** The gate pipeline: what one `handle` does to the in-flight state, the wire and the ledger. */
module Actor {
  import opened Config
  import opened Resolution
  import R = Rationale
  import L = Ledger
  import B = Backoff
  import RL = RateLimit
  import P = Pending

  const DRY_RUN_DEFAULT_THROTTLE_SECONDS: Seconds := 300.0

  /** Everything one `handle` takes from outside: clock readings before the wire call and
      after it, a fresh attempt group, and which awaited calls return rather than raise. */
  datatype Env = Env(
    wallGate: real, wallRow: real, monoGate: real, monoRecord: real,
    group: L.Group, wireOk: bool, insertOk: bool, notifyOk: bool)

  /** A wire call that went out. `spacing` is the global minimum in force when it was sent,
      `counted` whether the per-AP cap was on and took it in, `recorded` whether its ledger row
      was written. History only: no gate reads it. */
  datatype WireCall = WireCall(
    mac: Mac, apId: Ap, kind: L.RowMechanism, group: L.Group,
    at: real, spacing: Seconds, counted: bool, recorded: bool)

  /** A dry-run row the throttle let through, and the interval in force. History only. */
  datatype DryWrite = DryWrite(mac: Mac, at: real, interval: Seconds, rowAt: real, recorded: bool)

  datatype Severity = QuarantineNotice | KickNotice

  datatype Notice = Notice(mac: Mac, severity: Severity)

  /** One controller's detection pipeline, as far as kicking is concerned. */
  datatype Pipe = Pipe(
    config: Config, notifier: bool, pending: P.InFlight,
    states: B.States, quarantineAfter: int, limiter: RL.Limiter, dryLast: map<Mac, real>,
    wire: seq<WireCall>, dryWrites: seq<DryWrite>, notices: seq<Notice>)

  /** What a call leaves behind: the pipe, the rows it appended, and whether it raised. */
  datatype Effect = Effect(pipe: Pipe, rows: L.Rows, raised: bool)

  function Quiet(p: Pipe): Effect { Effect(p, [], false) }
  function Raised(p: Pipe): Effect { Effect(p, [], true) }

  function NewPipe(config: Config, notifier: bool): Pipe {
    Pipe(config, notifier, P.InFlight(map[], map[]), map[], config.backoff.quarantineAfterKicks,
         RL.Limiter(config.rails, None, map[]), map[], [], [], [])
  }

  function SentMechanism(m: Mechanism): L.RowMechanism {
    if m.Deauth? then L.RowDeauth else L.RowBtm
  }

  function PolicyFor(mac: Mac, config: Config): B.Policy {
    var caps := CapsFor(mac, config);
    B.Policy(config.backoff.cooldowns, caps.0, caps.1)
  }

  // ---- the dry-run path ----

  function DryRunInterval(config: Config): Seconds {
    if config.backoff.cooldowns != [] then config.backoff.cooldowns[0]
    else DRY_RUN_DEFAULT_THROTTLE_SECONDS
  }

  function DryRow(c: Client, d: R.Decision, config: Config, ts: real): L.KickRow {
    L.KickRow(ts, c.mac, true, SentMechanism(MechanismFor(c.mac, config)), None, R.TriggerOf(d),
              Some(R.BuildKickRationale(c, d, config)))
  }

  function DryHandle(p: Pipe, c: Client, d: R.Decision, env: Env): Effect {
    var interval := DryRunInterval(p.config);
    if c.mac in p.dryLast && env.wallGate - p.dryLast[c.mac] < interval then Quiet(p) else
      var written := p.(dryLast := p.dryLast[c.mac := env.wallGate],
                        dryWrites := p.dryWrites + [DryWrite(c.mac, env.wallGate, interval, env.wallRow, env.insertOk)]);
      if env.insertOk then Effect(written, [DryRow(c, d, p.config, env.wallRow)], false)
      else Raised(written)
  }

  // ---- quarantine ----

  function Touched(p: Pipe, mac: Mac): Pipe {
    p.(states := p.states[mac := B.Entry(p.states, mac)])
  }

  function Quarantined(p: Pipe, mac: Mac): bool {
    B.Entry(p.states, mac).kickCount >= p.quarantineAfter
  }

  function QuarantineHandle(p: Pipe, mac: Mac, env: Env): Effect {
    var entry := B.Entry(p.states, mac);
    if !p.notifier || entry.quarantineNotified then Quiet(p)
    else if !env.notifyOk then Raised(p)
    else Quiet(p.(states := p.states[mac := entry.(quarantineNotified := true)],
                  notices := p.notices + [Notice(mac, QuarantineNotice)]))
  }

  // ---- the deauth fallback of a pending BTM ----

  predicate FallsBack(p: Pipe, c: Client) {
    c.mac in p.pending.btm && p.pending.btm[c.mac].apId == c.apId
  }

  function FallbackRow(c: Client, d: R.Decision, group: L.Group, ts: real): L.KickRow {
    L.KickRow(ts, c.mac, false, L.RowFallback, Some(group), R.TriggerOf(d), None)
  }

  function FallbackHandle(p: Pipe, c: Client, d: R.Decision, env: Env): Effect
    requires FallsBack(p, c)
  {
    var group := p.pending.btm[c.mac].group;
    if RL.GlobalGate(p.limiter, env.monoGate).Deferred? then Quiet(p)
    else if !env.wireOk then Raised(p)
    else
      var sent := p.(
        limiter := RL.RecordedWireCall(p.limiter, env.monoRecord),
        wire := p.wire + [WireCall(c.mac, c.apId, L.RowFallback, group, env.monoRecord,
                                   p.limiter.rails.minSecondsBetweenKicks, false, env.insertOk)]);
      if !env.insertOk then Raised(sent)
      else Effect(
        sent.(pending := P.InFlight(
                p.pending.btm - {c.mac},
                p.pending.outcome[c.mac := P.Outcome(c.apId, L.RowFallback, group)])),
        [FallbackRow(c, d, group, env.wallRow)], false)
  }

  // ---- the fresh kick ----

  predicate BackoffAllows(p: Pipe, ledger: L.Rows, mac: Mac, now: real) {
    var policy := PolicyFor(mac, p.config);
    policy.Off() || B.GateVerdict(ledger, mac, now, policy).Allowed?
  }

  function FreshRow(c: Client, d: R.Decision, config: Config, env: Env): L.KickRow {
    L.KickRow(env.wallRow, c.mac, false, SentMechanism(MechanismFor(c.mac, config)), Some(env.group),
              R.TriggerOf(d), Some(R.BuildKickRationale(c, d, config)))
  }

  /** The pipe once the fresh wire call has gone out and been counted, before its row. */
  function FreshSent(p: Pipe, c: Client, env: Env): Pipe {
    var kind := SentMechanism(MechanismFor(c.mac, p.config));
    var entry := B.Entry(p.states, c.mac);
    p.(pending := if kind.RowBtm?
                  then p.pending.(btm := p.pending.btm[c.mac := P.PendingBtm(env.group, c.apId)])
                  else p.pending,
       limiter := RL.RecordedKick(p.limiter, c.apId, env.monoRecord),
       states := p.states[c.mac := entry.(kickCount := entry.kickCount + 1)],
       wire := p.wire + [WireCall(c.mac, c.apId, kind, env.group, env.monoRecord,
                                  p.limiter.rails.minSecondsBetweenKicks,
                                  p.limiter.rails.maxKicksPerApPerWindow > 0, env.insertOk)])
  }

  function FreshRecorded(sent: Pipe, c: Client, kind: L.RowMechanism, env: Env): Pipe {
    sent.(pending := sent.pending.(
            outcome := sent.pending.outcome[c.mac := P.Outcome(c.apId, kind, env.group)]),
          notices := if sent.notifier && env.notifyOk
                     then sent.notices + [Notice(c.mac, KickNotice)] else sent.notices)
  }

  /** Past both gates: send, count, record, note the outcome, notify. */
  function FreshSend(p: Pipe, c: Client, d: R.Decision, env: Env): Effect {
    if !env.wireOk then Raised(p) else
      var sent := FreshSent(p, c, env);
      if !env.insertOk then Raised(sent) else
        var kind := SentMechanism(MechanismFor(c.mac, p.config));
        Effect(FreshRecorded(sent, c, kind, env), [FreshRow(c, d, p.config, env)],
               p.notifier && !env.notifyOk)
  }

  function FreshHandle(p: Pipe, ledger: L.Rows, c: Client, d: R.Decision, env: Env): Effect {
    if !BackoffAllows(p, ledger, c.mac, env.wallGate) then Quiet(p) else
      var gated := p.(limiter := RL.AfterCanKick(p.limiter, c.apId, env.monoGate));
      if RL.KickGate(p.limiter, c.apId, env.monoGate).Deferred? then Quiet(gated)
      else FreshSend(gated, c, d, env)
  }

  // ---- the whole pipeline ----

  function LiveHandle(p: Pipe, ledger: L.Rows, c: Client, d: R.Decision, env: Env): Effect {
    var t := Touched(p, c.mac);
    if Quarantined(p, c.mac) then QuarantineHandle(t, c.mac, env)
    else if FallsBack(t, c) then FallbackHandle(t, c, d, env)
    else FreshHandle(t, ledger, c, d, env)
  }

  function HandleEffect(p: Pipe, ledger: L.Rows, c: Client, d: R.Decision, env: Env): Effect {
    if p.config.scanner.dryRun then DryHandle(p, c, d, env) else LiveHandle(p, ledger, c, d, env)
  }

  /** The post-kick roam check: a BTM that roamed clears its pending entry. */
  function Checked(p: Pipe, c: Client): Pipe {
    match P.GetOutcome(p.pending, c.mac)
    case None => p.(pending := p.pending.(outcome := p.pending.outcome - {c.mac}))
    case Some(o) =>
      p.(pending := P.InFlight(
           if o.apId != c.apId && o.mechanism.RowBtm? then p.pending.btm - {c.mac} else p.pending.btm,
           p.pending.outcome - {c.mac}))
  }

  /** Kick_succeeded or kick_no_roam, when a kick is awaiting its check. */
  datatype RoamReport = KickSucceeded | KickNoRoam

  function ReloadedPipe(p: Pipe, config: Config): Pipe {
    p.(config := config, quarantineAfter := config.backoff.quarantineAfterKicks,
       limiter := p.limiter.(rails := config.rails))
  }

  // ---- the classes ----

  class Store {
    var rows: L.Rows

    constructor ()
      ensures rows == []
    {
      rows := [];
    }

    method InsertKick(row: L.KickRow, ok: bool) returns (raised: bool)
      modifies this
      ensures raised == !ok
      ensures rows == if ok then old(rows) + [row] else old(rows)
    {
      if !ok { return true; }
      rows := rows + [row];
      return false;
    }
  }

  class Actor {
    var config: Config
    const notifier: bool
    const db: Store
    const backoff: B.BackoffManager
    const rateLimiter: RL.KickRateLimiter
    const pending: P.PendingKicks
    var dryRunLastWrite: map<Mac, real>
    ghost var wire: seq<WireCall>
    ghost var dryWrites: seq<DryWrite>
    ghost var notices: seq<Notice>

    ghost function Model(): Pipe
      reads this, backoff, rateLimiter, pending
    {
      Pipe(config, notifier, pending.Model(), backoff.states, backoff.quarantineAfterKicks,
           rateLimiter.Model(), dryRunLastWrite, wire, dryWrites, notices)
    }

    constructor (config: Config, notifier: bool, db: Store, backoff: B.BackoffManager,
                 rateLimiter: RL.KickRateLimiter)
      ensures this.config == config && this.notifier == notifier && this.db == db
      ensures this.backoff == backoff && this.rateLimiter == rateLimiter && fresh(pending)
      ensures pending.Model() == P.InFlight(map[], map[]) && dryRunLastWrite == map[]
      ensures wire == [] && dryWrites == [] && notices == []
    {
      this.config, this.notifier, this.db := config, notifier, db;
      this.backoff, this.rateLimiter := backoff, rateLimiter;
      pending := new P.PendingKicks();
      dryRunLastWrite := map[];
      wire, dryWrites, notices := [], [], [];
    }

    method Handle(client: Client, decision: R.Decision, env: Env) returns (raised: bool)
      modifies this, backoff`states, rateLimiter`lastKickAt, rateLimiter`perAp, pending, db
      ensures var e := HandleEffect(old(Model()), old(db.rows), client, decision, env);
              Model() == e.pipe && db.rows == old(db.rows) + e.rows && raised == e.raised
    {
      if config.scanner.dryRun {
        raised := HandleDryRun(client, decision, env);
        return;
      }
      var quarantined := backoff.ShouldQuarantine(client.mac);
      if quarantined {
        raised := NotifyQuarantine(client.mac, env);
        return;
      }
      var inFlight := pending.ReadBtm(client.mac);
      if inFlight.Some? && inFlight.value.apId == client.apId {
        raised := FallBack(client, decision, env);
        return;
      }
      raised := KickFresh(client, decision, env);
    }

    method HandleDryRun(client: Client, decision: R.Decision, env: Env) returns (raised: bool)
      modifies this, db
      ensures var e := DryHandle(old(Model()), client, decision, env);
              Model() == e.pipe && db.rows == old(db.rows) + e.rows && raised == e.raised
    {
      var interval := DryRunInterval(config);
      if client.mac !in dryRunLastWrite || env.wallGate - dryRunLastWrite[client.mac] >= interval {
        dryRunLastWrite := dryRunLastWrite[client.mac := env.wallGate];
        dryWrites := dryWrites + [DryWrite(client.mac, env.wallGate, interval, env.wallRow, env.insertOk)];
        raised := db.InsertKick(DryRow(client, decision, config, env.wallRow), env.insertOk);
        return;
      }
      return false;
    }

    method NotifyQuarantine(mac: Mac, env: Env) returns (raised: bool)
      requires mac in backoff.states
      modifies this`notices, backoff`states
      ensures var e := QuarantineHandle(old(Model()), mac, env);
              Model() == e.pipe && e.rows == [] && raised == e.raised
    {
      var notified := backoff.QuarantineNotified(mac);
      assert backoff.states == old(backoff.states);
      if notifier && !notified {
        if !env.notifyOk { return true; }
        notices := notices + [Notice(mac, QuarantineNotice)];
        backoff.MarkQuarantineNotified(mac);
      }
      return false;
    }

    method FallBack(client: Client, decision: R.Decision, env: Env) returns (raised: bool)
      requires FallsBack(Model(), client)
      modifies this`wire, rateLimiter`lastKickAt, pending, db
      ensures var e := FallbackHandle(old(Model()), client, decision, env);
              Model() == e.pipe && db.rows == old(db.rows) + e.rows && raised == e.raised
    {
      var group := pending.btm[client.mac].group;
      var gate := rateLimiter.CanWireCall(env.monoGate);
      if gate.Deferred? { return false; }  // the pending BTM stays for the next cycle
      if !env.wireOk { return true; }
      wire := wire + [WireCall(client.mac, client.apId, L.RowFallback, group, env.monoRecord,
                               rateLimiter.rails.minSecondsBetweenKicks, false, env.insertOk)];
      rateLimiter.RecordWireCall(env.monoRecord);
      raised := db.InsertKick(FallbackRow(client, decision, group, env.wallRow), env.insertOk);
      if raised { return; }
      pending.SetOutcome(client.mac, client.apId, L.RowFallback, group);
      pending.ClearBtm(client.mac);
    }

    method PassesBackoff(mac: Mac, wallNow: real) returns (allowed: bool)
      ensures allowed == BackoffAllows(Model(), db.rows, mac, wallNow)
    {
      var maxHour, maxDay := ResolveCaps(mac, config);
      var policy := B.Policy(config.backoff.cooldowns, maxHour, maxDay);
      if policy.cooldowns != [] || maxHour > 0 || maxDay > 0 {
        var verdict := B.LookUp(db.rows, mac, wallNow, policy);
        return verdict.Allowed?;
      }
      return true;
    }

    method KickFresh(client: Client, decision: R.Decision, env: Env) returns (raised: bool)
      modifies this`wire, this`notices, backoff`states, rateLimiter`lastKickAt, rateLimiter`perAp,
               pending, db
      ensures var e := FreshHandle(old(Model()), old(db.rows), client, decision, env);
              Model() == e.pipe && db.rows == old(db.rows) + e.rows && raised == e.raised
    {
      var allowed := PassesBackoff(client.mac, env.wallGate);
      if !allowed { return false; }
      var gate := rateLimiter.CanKick(client.apId, env.monoGate);
      if gate.Deferred? { return false; }
      raised := SendFresh(client, decision, env);
    }

    method SendFresh(client: Client, decision: R.Decision, env: Env) returns (raised: bool)
      modifies this`wire, this`notices, backoff`states, rateLimiter`lastKickAt, rateLimiter`perAp,
               pending, db
      ensures var e := FreshSend(old(Model()), client, decision, env);
              Model() == e.pipe && db.rows == old(db.rows) + e.rows && raised == e.raised
    {
      if !env.wireOk { return true; }
      var sent := CountFresh(client, env);
      raised := RecordFresh(client, decision, sent, env);
    }

    /** The wire call went out: the pending BTM, the limiter and the counter take it in. */
    method CountFresh(client: Client, env: Env) returns (sent: L.RowMechanism)
      modifies this`wire, backoff`states, rateLimiter`lastKickAt, rateLimiter`perAp, pending
      ensures Model() == FreshSent(old(Model()), client, env)
      ensures sent == SentMechanism(MechanismFor(client.mac, config))
    {
      var mac := client.mac;
      sent := SentMechanism(MechanismFor(mac, config));
      if sent.RowBtm? {
        pending.SetBtm(mac, env.group, client.apId);
      }
      wire := wire + [WireCall(mac, client.apId, sent, env.group, env.monoRecord,
                               rateLimiter.rails.minSecondsBetweenKicks,
                               rateLimiter.rails.maxKicksPerApPerWindow > 0, env.insertOk)];
      rateLimiter.RecordKick(client.apId, env.monoRecord);
      backoff.RecordKick(mac);
    }

    /** After the wire call: the row, then the outcome to check, then the notice. */
    method RecordFresh(client: Client, decision: R.Decision, sent: L.RowMechanism, env: Env) returns (raised: bool)
      modifies this`notices, pending, db
      ensures var row := FreshRow(client, decision, config, env);
              && Model() == (if env.insertOk then FreshRecorded(old(Model()), client, sent, env) else old(Model()))
              && db.rows == (if env.insertOk then old(db.rows) + [row] else old(db.rows))
              && raised == (!env.insertOk || (notifier && !env.notifyOk))
    {
      raised := db.InsertKick(FreshRow(client, decision, config, env), env.insertOk);
      if raised { return; }
      pending.SetOutcome(client.mac, client.apId, sent, env.group);
      if notifier {
        if !env.notifyOk { return true; }
        notices := notices + [Notice(client.mac, KickNotice)];
      }
    }

    method CheckPostKickOutcome(client: Client) returns (report: Option<RoamReport>)
      modifies pending
      ensures Model() == Checked(old(Model()), client)
      ensures report.Some? <==> client.mac in old(pending.outcome)
      ensures report.Some? ==>
                (report.value.KickSucceeded? <==> old(pending.outcome)[client.mac].apId != client.apId)
    {
      var outcome := pending.PopOutcome(client.mac);
      if outcome.None? { return None; }
      var roamed := outcome.value.apId != client.apId;
      if roamed && outcome.value.mechanism.RowBtm? {
        pending.ClearBtm(client.mac);
      }
      return Some(if roamed then KickSucceeded else KickNoRoam);
    }
  }
}
