/** Proactive reboots: a per-device cooldown with a rolling daily cap, and a scheduler that
    sweeps the opted-in devices at most once per date. */
module Reboot {
  import opened Config
  import opened Windows

  const DAY_SECONDS := 86400.0

  // ---- the cooldown ----

  datatype CooldownReason = InCooldown | DailyCap

  datatype Verdict = Allowed | Denied(reason: CooldownReason, retryAfter: real)

  datatype Cooldown = Cooldown(
    perDeviceSeconds: Seconds, maxPerDay: nat, lastRebootAt: map<Mac, real>, perDevice: map<Mac, seq<real>>)

  function NewCooldown(config: RebootConfig): Cooldown {
    Cooldown(config.perDeviceSeconds, config.maxPerDevicePerDay, map[], map[])
  }

  function WindowOf(c: Cooldown, mac: Mac): seq<real> {
    if mac in c.perDevice then c.perDevice[mac] else []
  }

  predicate GapHolds(c: Cooldown, mac: Mac, now: real) {
    c.perDeviceSeconds > 0.0 && mac in c.lastRebootAt
    && now - c.lastRebootAt[mac] < c.perDeviceSeconds
  }

  function Pruned(c: Cooldown, mac: Mac, now: real): Cooldown {
    c.(perDevice := c.perDevice[mac := DropBefore(WindowOf(c, mac), now - DAY_SECONDS)])
  }

  function AfterCanReboot(c: Cooldown, mac: Mac, now: real): Cooldown {
    if GapHolds(c, mac, now) || c.maxPerDay == 0 then c else Pruned(c, mac, now)
  }

  function CanRebootVerdict(c: Cooldown, mac: Mac, now: real): Verdict {
    if GapHolds(c, mac, now) then
      Denied(InCooldown, c.perDeviceSeconds - (now - c.lastRebootAt[mac]))
    else if c.maxPerDay == 0 then Allowed
    else
      var window := WindowOf(Pruned(c, mac, now), mac);
      if |window| >= c.maxPerDay then Denied(DailyCap, DAY_SECONDS - (now - window[0])) else Allowed
  }

  function Recorded(c: Cooldown, mac: Mac, now: real): Cooldown {
    var timed := c.(lastRebootAt := c.lastRebootAt[mac := now]);
    if c.maxPerDay > 0 then timed.(perDevice := c.perDevice[mac := WindowOf(c, mac) + [now]]) else timed
  }

  function Retuned(c: Cooldown, config: RebootConfig): Cooldown {
    c.(perDeviceSeconds := config.perDeviceSeconds, maxPerDay := config.maxPerDevicePerDay)
  }

  class RebootCooldown {
    var perDeviceSeconds: Seconds
    var maxPerDevicePerDay: nat
    var lastRebootAt: map<Mac, real>
    var perDevice: map<Mac, seq<real>>

    function Model(): Cooldown reads this {
      Cooldown(perDeviceSeconds, maxPerDevicePerDay, lastRebootAt, perDevice)
    }

    constructor (config: RebootConfig)
      ensures Model() == NewCooldown(config)
    {
      perDeviceSeconds, maxPerDevicePerDay := config.perDeviceSeconds, config.maxPerDevicePerDay;
      lastRebootAt, perDevice := map[], map[];
    }

    method CanReboot(mac: Mac, now: real) returns (verdict: Verdict)
      modifies this`perDevice
      ensures Model() == AfterCanReboot(old(Model()), mac, now)
      ensures verdict == CanRebootVerdict(old(Model()), mac, now)
    {
      if perDeviceSeconds > 0.0 && mac in lastRebootAt {
        var elapsed := now - lastRebootAt[mac];
        if elapsed < perDeviceSeconds {
          return Denied(InCooldown, perDeviceSeconds - elapsed);
        }
      }
      if maxPerDevicePerDay > 0 {
        var window := Prune(mac, now);
        if |window| >= maxPerDevicePerDay {
          return Denied(DailyCap, DAY_SECONDS - (now - window[0]));
        }
      }
      return Allowed;
    }

    method Prune(mac: Mac, now: real) returns (window: seq<real>)
      modifies this`perDevice
      ensures Model() == Pruned(old(Model()), mac, now)
      ensures window == WindowOf(Model(), mac)
    {
      if mac !in perDevice { perDevice := perDevice[mac := []]; }
      ghost var before := perDevice[mac];
      var cutoff := now - DAY_SECONDS;
      window := perDevice[mac];
      while window != [] && window[0] < cutoff
        invariant DropBefore(before, cutoff) == DropBefore(window, cutoff)
        decreases |window|
      {
        window := window[1..];
      }
      perDevice := perDevice[mac := window];
    }

    method RecordReboot(mac: Mac, now: real)
      modifies this`lastRebootAt, this`perDevice
      ensures Model() == Recorded(old(Model()), mac, now)
    {
      lastRebootAt := lastRebootAt[mac := now];
      if maxPerDevicePerDay > 0 {
        if mac !in perDevice { perDevice := perDevice[mac := []]; }
        perDevice := perDevice[mac := perDevice[mac] + [now]];
      }
    }

    method UpdateParams(config: RebootConfig)
      modifies this`perDeviceSeconds, this`maxPerDevicePerDay
      ensures Model() == Retuned(old(Model()), config)
    {
      perDeviceSeconds, maxPerDevicePerDay := config.perDeviceSeconds, config.maxPerDevicePerDay;
    }
  }

  // ---- the scheduler ----

  /** Allowlist beats opt-in; both are compared in canonical form. */
  predicate Eligible(mac: Mac, config: Config) {
    && config.reboot.enabled
    && NormalizeMac(mac) !in NormalizedSet(config.allowlist)
    && NormalizeMac(mac) in NormalizedSet(config.reboot.eligible)
  }

  /** What one attempt takes from outside. `target` is None when the resolver finds none. */
  datatype Env = Env(
    gate: real, record: real, resolveOk: bool, target: Option<string>,
    rebootOk: bool, insertOk: bool, notifyOk: bool)

  /** A reboot that went out; `gap` is the per-device minimum then in force. History only. */
  datatype Fired = Fired(mac: Mac, at: real, gap: Seconds)

  datatype RowOutcome = RowDryRun | RowFired

  datatype RebootRow = RebootRow(mac: Mac, outcome: RowOutcome, target: Option<string>)

  /** Dates are day numbers, times of day minutes. `attempts` and `sweeps` are history. */
  datatype Scheduler = Scheduler(
    config: Config, cooldown: Cooldown, lastFiredDate: Option<int>,
    fired: seq<Fired>, rows: seq<RebootRow>, attempts: seq<Mac>, sweeps: seq<int>)

  function NewScheduler(config: Config): Scheduler {
    Scheduler(config, NewCooldown(config.reboot), None, [], [], [], [])
  }

  /** One attempt on an eligible device that is not a dry run and passed the cooldown. */
  function Fire(s: Scheduler, mac: Mac, env: Env): Scheduler {
    if !env.resolveOk || env.target.None? || !env.rebootOk then s
    else
      var sent := s.(cooldown := Recorded(s.cooldown, mac, env.record),
                     fired := s.fired + [Fired(mac, env.record, s.cooldown.perDeviceSeconds)]);
      if env.insertOk then sent.(rows := s.rows + [RebootRow(mac, RowFired, env.target)]) else sent
  }

  function Attempted(s: Scheduler, mac: Mac, env: Env): Scheduler {
    if !Eligible(mac, s.config) then s
    else if s.config.reboot.dryRun then
      if env.resolveOk && env.insertOk then s.(rows := s.rows + [RebootRow(mac, RowDryRun, env.target)]) else s
    else
      var gated := s.(cooldown := AfterCanReboot(s.cooldown, mac, env.gate));
      if CanRebootVerdict(s.cooldown, mac, env.gate).Denied? then gated else Fire(gated, mac, env)
  }

  /** A dry-run or live attempt raises when an awaited call does. */
  predicate AttemptRaises(s: Scheduler, mac: Mac, env: Env) {
    Eligible(mac, s.config)
    && if s.config.reboot.dryRun then !env.resolveOk || !env.insertOk
       else CanRebootVerdict(s.cooldown, mac, env.gate).Allowed?
            && (!env.resolveOk || (env.target.Some? && (!env.rebootOk || !env.insertOk || !env.notifyOk)))
  }

  predicate IsDue(s: Scheduler, date: int, minute: nat) {
    && s.config.reboot.proactiveEnabled
    && minute == s.config.reboot.schedule
    && s.lastFiredDate != Some(date)
  }

  /** The sweep over the listed devices; `envs` answers the attempts in order. */
  function SweptOver(s: Scheduler, macs: seq<Mac>, envs: seq<Env>): Scheduler
    requires |macs| == |envs|
  {
    if macs == [] then s else
      var n := |macs| - 1;
      var before := SweptOver(s, macs[..n], envs[..n]);
      Attempted(before, macs[n], envs[n]).(attempts := before.attempts + [macs[n]])
  }

  lemma {:induction false} SweepStep(s: Scheduler, macs: seq<Mac>, envs: seq<Env>, i: nat)
    requires i < |macs| == |envs|
    ensures var before := SweptOver(s, macs[..i], envs[..i]);
            var after := Attempted(before, macs[i], envs[i]);
            && SweptOver(s, macs[..i + 1], envs[..i + 1]) == after.(attempts := before.attempts + [macs[i]])
            && after.attempts == before.attempts
  {
    assert macs[..i + 1][..i] == macs[..i] && envs[..i + 1][..i] == envs[..i];
  }

  function Ran(s: Scheduler, date: int, minute: nat, envs: seq<Env>): Scheduler
    requires |envs| == |s.config.reboot.eligible|
  {
    if !IsDue(s, date, minute) then s
    else SweptOver(s.(lastFiredDate := Some(date), sweeps := s.sweeps + [date]), s.config.reboot.eligible, envs)
  }

  function ReloadedScheduler(s: Scheduler, config: Config): Scheduler {
    s.(config := config, cooldown := Retuned(s.cooldown, config.reboot))
  }

  class RebootScheduler {
    var config: Config
    const cooldown: RebootCooldown
    var lastFiredDate: Option<int>
    var rows: seq<RebootRow>
    ghost var fired: seq<Fired>
    ghost var attempts: seq<Mac>
    ghost var sweeps: seq<int>

    ghost function Model(): Scheduler
      reads this, cooldown
    {
      Scheduler(config, cooldown.Model(), lastFiredDate, fired, rows, attempts, sweeps)
    }

    constructor (config: Config)
      ensures Model() == NewScheduler(config) && fresh(cooldown)
    {
      this.config := config;
      cooldown := new RebootCooldown(config.reboot);
      lastFiredDate, rows, fired, attempts, sweeps := None, [], [], [], [];
    }

    method CheckDue(date: int, minute: nat) returns (due: bool)
      ensures due == IsDue(Model(), date, minute)
    {
      if !config.reboot.proactiveEnabled { return false; }
      if minute != config.reboot.schedule { return false; }
      return lastFiredDate != Some(date);
    }

    /** One device's failure does not stop the sweep: whatever `Attempt` reports, the loop
        goes on. */
    method RunDue(date: int, minute: nat, envs: seq<Env>)
      requires |envs| == |config.reboot.eligible|
      modifies this, cooldown
      ensures Model() == Ran(old(Model()), date, minute, envs)
    {
      var due := CheckDue(date, minute);
      if !due { return; }
      lastFiredDate := Some(date);
      sweeps := sweeps + [date];
      Sweep(config.reboot.eligible, envs);
    }

    method Sweep(macs: seq<Mac>, envs: seq<Env>)
      requires |envs| == |macs|
      modifies this`rows, this`fired, this`attempts, cooldown
      ensures Model() == SweptOver(old(Model()), macs, envs)
    {
      for i := 0 to |macs|
        invariant Model() == SweptOver(old(Model()), macs[..i], envs[..i])
      {
        SweepStep(old(Model()), macs, envs, i);
        var raised := Attempt(macs[i], envs[i]);
        attempts := attempts + [macs[i]];
      }
      assert macs[..|macs|] == macs && envs[..|macs|] == envs;
    }

    method Attempt(mac: Mac, env: Env) returns (raised: bool)
      modifies this`rows, this`fired, cooldown
      ensures Model() == Attempted(old(Model()), mac, env)
      ensures raised == AttemptRaises(old(Model()), mac, env)
    {
      if !Eligible(mac, config) { return false; }
      if config.reboot.dryRun {
        if !env.resolveOk || !env.insertOk { return true; }
        rows := rows + [RebootRow(mac, RowDryRun, env.target)];
        return false;
      }
      var verdict := cooldown.CanReboot(mac, env.gate);
      if verdict.Denied? { return false; }
      if !env.resolveOk { return true; }
      if env.target.None? { return false; }
      if !env.rebootOk { return true; }
      fired := fired + [Fired(mac, env.record, cooldown.perDeviceSeconds)];
      cooldown.RecordReboot(mac, env.record);
      if !env.insertOk { return true; }
      rows := rows + [RebootRow(mac, RowFired, env.target)];
      return !env.notifyOk;
    }

    method UpdateConfig(config: Config)
      modifies this`config, cooldown
      ensures Model() == ReloadedScheduler(old(Model()), config)
    {
      this.config := config;
      cooldown.UpdateParams(config.reboot);
    }
  }

  // ---- one attempt ----

  /** When this MAC's reboots went out. */
  function FiredAt(fired: seq<Fired>, mac: Mac): seq<real> {
    if fired == [] then [] else
      var last := fired[|fired| - 1];
      FiredAt(fired[..|fired| - 1], mac) + (if last.mac == mac then [last.at] else [])
  }

  lemma {:induction false} FiredAtAppend(fired: seq<Fired>, f: Fired, mac: Mac)
    ensures FiredAt(fired + [f], mac) == FiredAt(fired, mac) + (if f.mac == mac then [f.at] else [])
  {
    assert (fired + [f])[..|fired|] == fired;
  }

  /** Each reboot of a MAC is at least its own in-force gap after every earlier one. */
  ghost predicate GapsHold(fired: seq<Fired>) {
    forall i, j :: 0 <= i < j < |fired| && fired[i].mac == fired[j].mac ==>
                     fired[j].at - fired[i].at >= fired[j].gap
  }

  /** The last-reboot map remembers the newest reboot, none of which lies in the future. */
  ghost predicate Remembers(s: Scheduler, now: real) {
    forall i :: 0 <= i < |s.fired| ==>
                  && s.fired[i].mac in s.cooldown.lastRebootAt
                  && s.fired[i].at <= s.cooldown.lastRebootAt[s.fired[i].mac] <= now
  }

  ghost predicate CapTracked(s: Scheduler, mac: Mac, most: nat, now: real) {
    var history := FiredAt(s.fired, mac);
    && 0 < s.cooldown.maxPerDay <= most
    && Tracked(WindowOf(s.cooldown, mac), history, DAY_SECONDS, now)
    && Spaced(history, DAY_SECONDS, most)
  }

  /** An attempt leaves the reboots as they were or adds one the cooldown allowed. */
  ghost predicate AttemptMoves(s: Scheduler, mac: Mac, env: Env, next: Scheduler) {
    && next.config == s.config && next.sweeps == s.sweeps && next.lastFiredDate == s.lastFiredDate
    && next.attempts == s.attempts
    && ((next.fired == s.fired
         && (next.cooldown == s.cooldown || next.cooldown == AfterCanReboot(s.cooldown, mac, env.gate)))
        || (next.fired == s.fired + [Fired(mac, env.record, s.cooldown.perDeviceSeconds)]
            && CanRebootVerdict(s.cooldown, mac, env.gate).Allowed?
            && next.cooldown == Recorded(AfterCanReboot(s.cooldown, mac, env.gate), mac, env.record)))
  }

  lemma {:induction false} AttemptIsAMove(s: Scheduler, mac: Mac, env: Env)
    ensures AttemptMoves(s, mac, env, Attempted(s, mac, env))
  {
  }

  lemma {:induction false} MoveKeepsGaps(s: Scheduler, mac: Mac, env: Env, next: Scheduler, now: real)
    requires AttemptMoves(s, mac, env, next) && now <= env.gate <= env.record
    requires GapsHold(s.fired) && Remembers(s, now)
    ensures GapsHold(next.fired) && Remembers(next, env.record)
  {
    if next.fired != s.fired {
      var n := |s.fired|;
      assert !GapHolds(s.cooldown, mac, env.gate);
      forall i | 0 <= i < n && s.fired[i].mac == mac
        ensures env.record - s.fired[i].at >= s.cooldown.perDeviceSeconds
      {
        assert s.fired[i].at <= s.cooldown.lastRebootAt[mac] <= now;
      }
    }
  }

  lemma {:induction false} PruneOnWindow(c: Cooldown, mac: Mac, other: Mac, g: real)
    ensures var after := WindowOf(AfterCanReboot(c, other, g), mac);
            after == WindowOf(c, mac) || after == DropBefore(WindowOf(c, mac), g - DAY_SECONDS)
  {
  }

  lemma {:induction false} RecordOnWindow(c: Cooldown, mac: Mac, other: Mac, g: real, t: real)
    requires c.maxPerDay > 0 && CanRebootVerdict(c, other, g).Allowed?
    ensures var kept := DropBefore(WindowOf(c, mac), g - DAY_SECONDS);
            var after := WindowOf(Recorded(AfterCanReboot(c, other, g), other, t), mac);
            if mac == other then |kept| < c.maxPerDay && after == kept + [t] else after == WindowOf(c, mac)
  {
  }

  lemma {:induction false} MoveKeepsCap(s: Scheduler, mac: Mac, env: Env, next: Scheduler, tracked: Mac, most: nat, now: real)
    requires AttemptMoves(s, mac, env, next) && now <= env.gate <= env.record
    requires CapTracked(s, tracked, most, now)
    ensures CapTracked(next, tracked, most, env.record)
  {
    if next.fired == s.fired {
      IdleKeepsCap(s, mac, env, next, tracked, most, now);
    } else {
      FiredKeepsCap(s, mac, env, next, tracked, most, now);
    }
  }

  lemma {:induction false} IdleKeepsCap(s: Scheduler, mac: Mac, env: Env, next: Scheduler, tracked: Mac, most: nat, now: real)
    requires AttemptMoves(s, mac, env, next) && now <= env.gate <= env.record && next.fired == s.fired
    requires CapTracked(s, tracked, most, now)
    ensures CapTracked(next, tracked, most, env.record)
  {
    var window, history := WindowOf(s.cooldown, tracked), FiredAt(s.fired, tracked);
    WaitKeepsTracked(window, history, DAY_SECONDS, now, env.record);
    GateKeepsTracked(window, history, DAY_SECONDS, now, env.gate - DAY_SECONDS, env.record);
    PruneOnWindow(s.cooldown, tracked, mac, env.gate);
  }

  lemma {:induction false} FiredKeepsCap(s: Scheduler, mac: Mac, env: Env, next: Scheduler, tracked: Mac, most: nat, now: real)
    requires AttemptMoves(s, mac, env, next) && now <= env.gate <= env.record && next.fired != s.fired
    requires CapTracked(s, tracked, most, now)
    ensures CapTracked(next, tracked, most, env.record)
  {
    var window, history := WindowOf(s.cooldown, tracked), FiredAt(s.fired, tracked);
    FiredAtAppend(s.fired, Fired(mac, env.record, s.cooldown.perDeviceSeconds), tracked);
    RecordOnWindow(s.cooldown, tracked, mac, env.gate, env.record);
    if mac == tracked {
      RecordKeepsTracked(window, history, DAY_SECONDS, now, env.gate - DAY_SECONDS, env.record);
      RoomKeepsSpacing(window, history, DAY_SECONDS, most, now, env.gate - DAY_SECONDS, env.gate, env.record);
    } else {
      assert FiredAt(next.fired, tracked) == history;
      WaitKeepsTracked(window, history, DAY_SECONDS, now, env.record);
    }
  }

  // ---- whole runs ----

  datatype Event =
    | Tick(date: int, minute: nat, envs: seq<Env>)
    | Reload(config: Config)

  /** The monotonic clock along a sweep, starting no earlier than `now`. */
  ghost predicate ClockAlong(envs: seq<Env>, now: real) {
    envs == [] ||
      (var n := |envs| - 1;
       ClockAlong(envs[..n], now) && ClockAfter(envs[..n], now) <= envs[n].gate <= envs[n].record)
  }

  function ClockAfter(envs: seq<Env>, now: real): real {
    if envs == [] then now else envs[|envs| - 1].record
  }

  ghost predicate Steps(s: Scheduler, now: real, e: Event, next: Scheduler, later: real) {
    match e
    case Tick(date, minute, envs) =>
      && |envs| == |s.config.reboot.eligible| && ClockAlong(envs, now)
      && next == Ran(s, date, minute, envs) && later == ClockAfter(envs, now)
    case Reload(config) => next == ReloadedScheduler(s, config) && later == now
  }

  /** A scheduler's life: its states and the clock between events. */
  ghost predicate Run(ss: seq<Scheduler>, clock: seq<real>, events: seq<Event>) {
    && |ss| == |clock| == |events| + 1 && ss[0] == NewScheduler(ss[0].config)
    && forall k :: 0 <= k < |events| ==> Steps(ss[k], clock[k], events[k], ss[k + 1], clock[k + 1])
  }

  lemma {:induction false} SweepKeepsGaps(s: Scheduler, macs: seq<Mac>, envs: seq<Env>, now: real)
    requires |macs| == |envs| && ClockAlong(envs, now) && GapsHold(s.fired) && Remembers(s, now)
    ensures var next := SweptOver(s, macs, envs);
            GapsHold(next.fired) && Remembers(next, ClockAfter(envs, now))
  {
    if macs != [] {
      var n := |macs| - 1;
      SweepKeepsGaps(s, macs[..n], envs[..n], now);
      var before := SweptOver(s, macs[..n], envs[..n]);
      AttemptIsAMove(before, macs[n], envs[n]);
      MoveKeepsGaps(before, macs[n], envs[n], Attempted(before, macs[n], envs[n]), ClockAfter(envs[..n], now));
    }
  }

  lemma {:induction false} SweepKeepsCap(
      s: Scheduler, macs: seq<Mac>, envs: seq<Env>, now: real, tracked: Mac, most: nat)
    requires |macs| == |envs| && ClockAlong(envs, now) && CapTracked(s, tracked, most, now)
    ensures CapTracked(SweptOver(s, macs, envs), tracked, most, ClockAfter(envs, now))
  {
    if macs != [] {
      var n := |macs| - 1;
      SweepKeepsCap(s, macs[..n], envs[..n], now, tracked, most);
      var before := SweptOver(s, macs[..n], envs[..n]);
      AttemptIsAMove(before, macs[n], envs[n]);
      MoveKeepsCap(before, macs[n], envs[n], Attempted(before, macs[n], envs[n]), tracked, most,
                   ClockAfter(envs[..n], now));
    }
  }

  lemma {:induction false} ClockAlongAdvances(envs: seq<Env>, now: real)
    requires ClockAlong(envs, now)
    ensures now <= ClockAfter(envs, now)
  {
    if envs != [] {
      ClockAlongAdvances(envs[..|envs| - 1], now);
    }
  }

  lemma {:induction false} RunKeepsGaps(ss: seq<Scheduler>, clock: seq<real>, events: seq<Event>, k: nat)
    requires Run(ss, clock, events) && k < |ss|
    ensures GapsHold(ss[k].fired) && Remembers(ss[k], clock[k])
  {
    if k > 0 {
      RunKeepsGaps(ss, clock, events, k - 1);
      var s, e := ss[k - 1], events[k - 1];
      assert Steps(s, clock[k - 1], e, ss[k], clock[k]);
      if e.Tick? {
        ClockAlongAdvances(e.envs, clock[k - 1]);
        if IsDue(s, e.date, e.minute) {
          SweepKeepsGaps(s.(lastFiredDate := Some(e.date), sweeps := s.sweeps + [e.date]),
                         s.config.reboot.eligible, e.envs, clock[k - 1]);
        }
      }
    }
  }

  /** In every run, under any reloads, reboots of one MAC are at least the per-device gap then
      in force apart. */
  lemma {:induction false} RebootsKeepTheirGap(
      ss: seq<Scheduler>, clock: seq<real>, events: seq<Event>, k: nat, a: nat, b: nat)
    requires Run(ss, clock, events) && k < |ss| && a < b < |ss[k].fired|
    requires ss[k].fired[a].mac == ss[k].fired[b].mac
    ensures ss[k].fired[b].at - ss[k].fired[a].at >= ss[k].fired[b].gap
  {
    RunKeepsGaps(ss, clock, events, k);
  }

  predicate CapWithin(config: Config, most: nat) { 0 < config.reboot.maxPerDevicePerDay <= most }

  lemma {:induction false} RunKeepsCap(
      ss: seq<Scheduler>, clock: seq<real>, events: seq<Event>, k: nat, mac: Mac, most: nat)
    requires Run(ss, clock, events) && k < |ss| && CapWithin(ss[0].config, most)
    requires forall j :: 0 <= j < |events| && events[j].Reload? ==> CapWithin(events[j].config, most)
    ensures CapTracked(ss[k], mac, most, clock[k])
  {
    if k > 0 {
      RunKeepsCap(ss, clock, events, k - 1, mac, most);
      var s, e := ss[k - 1], events[k - 1];
      assert Steps(s, clock[k - 1], e, ss[k], clock[k]);
      if e.Tick? {
        ClockAlongAdvances(e.envs, clock[k - 1]);
        if IsDue(s, e.date, e.minute) {
          SweepKeepsCap(s.(lastFiredDate := Some(e.date), sweeps := s.sweeps + [e.date]),
                        s.config.reboot.eligible, e.envs, clock[k - 1], mac, most);
        } else {
          WaitKeepsTracked(WindowOf(s.cooldown, mac), FiredAt(s.fired, mac), DAY_SECONDS,
                           clock[k - 1], clock[k]);
        }
      }
    }
  }

  /** In every run with the daily cap on, every closed 24-hour window holds at most the cap's
      number of reboots of a MAC, as spelled in the eligible list. */
  lemma {:induction false} EveryDayHoldsTheRebootCap(
      ss: seq<Scheduler>, clock: seq<real>, events: seq<Event>, k: nat, mac: Mac, most: nat)
    requires Run(ss, clock, events) && k < |ss| && CapWithin(ss[0].config, most)
    requires forall j :: 0 <= j < |events| && events[j].Reload? ==> CapWithin(events[j].config, most)
    ensures WindowCap(FiredAt(ss[k].fired, mac), DAY_SECONDS, most)
  {
    RunKeepsCap(ss, clock, events, k, mac, most);
    SpacingIsWindowCap(FiredAt(ss[k].fired, mac), DAY_SECONDS, most);
  }

  // ---- one sweep per date ----

  lemma {:induction false} SweepAttemptsEveryone(s: Scheduler, macs: seq<Mac>, envs: seq<Env>)
    requires |macs| == |envs|
    ensures var next := SweptOver(s, macs, envs);
            && next.attempts == s.attempts + macs
            && next.sweeps == s.sweeps && next.lastFiredDate == s.lastFiredDate && next.config == s.config
  {
    if macs == [] {
      assert s.attempts + macs == s.attempts;
    } else {
      var n := |macs| - 1;
      SweepAttemptsEveryone(s, macs[..n], envs[..n]);
      AttemptIsAMove(SweptOver(s, macs[..n], envs[..n]), macs[n], envs[n]);
      assert macs == macs[..n] + [macs[n]];
    }
  }

  /** A due tick attempts every listed device, in order, whichever of them raise. */
  lemma {:induction false} DueTickAttemptsEveryone(s: Scheduler, date: int, minute: nat, envs: seq<Env>)
    requires |envs| == |s.config.reboot.eligible|
    ensures var next := Ran(s, date, minute, envs);
            if s.config.reboot.proactiveEnabled && minute == s.config.reboot.schedule && s.lastFiredDate != Some(date)
            then next.attempts == s.attempts + s.config.reboot.eligible && next.sweeps == s.sweeps + [date]
                 && next.lastFiredDate == Some(date)
            else next == s
  {
    if IsDue(s, date, minute) {
      SweepAttemptsEveryone(s.(lastFiredDate := Some(date), sweeps := s.sweeps + [date]),
                            s.config.reboot.eligible, envs);
    }
  }

  ghost predicate DatesAdvance(events: seq<Event>) {
    forall i, j :: 0 <= i < j < |events| && events[i].Tick? && events[j].Tick? ==> events[i].date <= events[j].date
  }

  ghost predicate Increasing(s: seq<int>) {
    forall i, j :: 0 <= i < j < |s| ==> s[i] < s[j]
  }

  /** The sweeps so far strictly increase, end in the remembered date, and are not ahead of
      any tick still to come. */
  ghost predicate SweepsOrdered(s: Scheduler, events: seq<Event>, k: nat) {
    && Increasing(s.sweeps)
    && (s.sweeps == [] <==> s.lastFiredDate.None?)
    && (s.sweeps != [] ==> s.lastFiredDate == Some(s.sweeps[|s.sweeps| - 1]))
    && forall i, j :: 0 <= i < |s.sweeps| && k <= j < |events| && events[j].Tick? ==> s.sweeps[i] <= events[j].date
  }

  lemma {:induction false} DueTickKeepsSweepsOrdered(s: Scheduler, next: Scheduler, events: seq<Event>, k: nat)
    requires k < |events| && events[k].Tick? && DatesAdvance(events) && SweepsOrdered(s, events, k)
    requires s.lastFiredDate != Some(events[k].date)
    requires next.sweeps == s.sweeps + [events[k].date] && next.lastFiredDate == Some(events[k].date)
    ensures SweepsOrdered(next, events, k + 1)
  {
    assert s.sweeps != [] ==> s.sweeps[|s.sweeps| - 1] < events[k].date;
  }

  lemma {:induction false} RunKeepsSweepsOrdered(ss: seq<Scheduler>, clock: seq<real>, events: seq<Event>, k: nat)
    requires Run(ss, clock, events) && k < |ss| && DatesAdvance(events)
    ensures SweepsOrdered(ss[k], events, k)
  {
    if k > 0 {
      RunKeepsSweepsOrdered(ss, clock, events, k - 1);
      var s, e := ss[k - 1], events[k - 1];
      assert Steps(s, clock[k - 1], e, ss[k], clock[k]);
      if e.Tick? && IsDue(s, e.date, e.minute) {
        SweepAttemptsEveryone(s.(lastFiredDate := Some(e.date), sweeps := s.sweeps + [e.date]),
                              s.config.reboot.eligible, e.envs);
        DueTickKeepsSweepsOrdered(s, ss[k], events, k - 1);
      } else {
        assert ss[k].sweeps == s.sweeps && ss[k].lastFiredDate == s.lastFiredDate;
      }
    }
  }

  /** With dates that do not run backwards there is at most one sweep per date. */
  lemma {:induction false} OneSweepPerDate(
      ss: seq<Scheduler>, clock: seq<real>, events: seq<Event>, k: nat, a: nat, b: nat)
    requires Run(ss, clock, events) && k < |ss| && DatesAdvance(events) && a < b < |ss[k].sweeps|
    ensures ss[k].sweeps[a] < ss[k].sweeps[b]
  {
    RunKeepsSweepsOrdered(ss, clock, events, k);
  }

  /** If the date does run backwards, a date is swept again: only the last one is remembered,
      and every listed device is attempted twice more. */
  lemma {:induction false} DateRunningBackSweepsAgain(
      s: Scheduler, d: int, minute: nat, envs: seq<Env>, later: seq<Env>)
    requires s.config.reboot.proactiveEnabled && minute == s.config.reboot.schedule && s.lastFiredDate == Some(d)
    requires |envs| == |later| == |s.config.reboot.eligible|
    ensures var there := Ran(s, d + 1, minute, envs);
            && there.config == s.config
            && Ran(there, d, minute, later).sweeps == s.sweeps + [d + 1] + [d]
            && Ran(there, d, minute, later).attempts == s.attempts + s.config.reboot.eligible + s.config.reboot.eligible
  {
    SweepAttemptsEveryone(s.(lastFiredDate := Some(d + 1), sweeps := s.sweeps + [d + 1]),
                          s.config.reboot.eligible, envs);
    var there := Ran(s, d + 1, minute, envs);
    SweepAttemptsEveryone(there.(lastFiredDate := Some(d), sweeps := there.sweeps + [d]),
                          s.config.reboot.eligible, later);
  }

  ghost predicate Distinct(s: seq<int>) {
    forall i, j :: 0 <= i < j < |s| ==> s[i] != s[j]
  }

  /** Exactly which tick sweeps a date again: a due one whose date was swept before. */
  lemma {:induction false} SweepsStayDistinctIff(s: Scheduler, date: int, minute: nat, envs: seq<Env>)
    requires |envs| == |s.config.reboot.eligible| && Distinct(s.sweeps)
    ensures Distinct(Ran(s, date, minute, envs).sweeps) <==> !(IsDue(s, date, minute) && date in s.sweeps)
  {
    if IsDue(s, date, minute) {
      SweepAttemptsEveryone(s.(lastFiredDate := Some(date), sweeps := s.sweeps + [date]),
                            s.config.reboot.eligible, envs);
      var longer := s.sweeps + [date];
      if date in s.sweeps {
        var i :| 0 <= i < |s.sweeps| && s.sweeps[i] == date;
        assert longer[i] == longer[|s.sweeps|];
      }
    }
  }

  /** Over a whole run the sweeps are distinct if and only if no due tick ever found its date
      already swept. */
  lemma {:induction false} RunSweepsDistinctIff(ss: seq<Scheduler>, clock: seq<real>, events: seq<Event>, k: nat)
    requires Run(ss, clock, events) && k < |ss|
    ensures Distinct(ss[k].sweeps) <==> forall j :: 0 <= j < k ==> !SweepsAgain(ss[j], events[j])
  {
    if k > 0 {
      RunSweepsDistinctIff(ss, clock, events, k - 1);
      var s, e := ss[k - 1], events[k - 1];
      assert Steps(s, clock[k - 1], e, ss[k], clock[k]);
      if Distinct(s.sweeps) {
        if e.Tick? { SweepsStayDistinctIff(s, e.date, e.minute, e.envs); }
      } else {
        SweepsOnlyGrow(s, e, ss[k]);
      }
    }
  }

  predicate SweepsAgain(s: Scheduler, e: Event) {
    e.Tick? && IsDue(s, e.date, e.minute) && e.date in s.sweeps
  }

  lemma {:induction false} SweepsOnlyGrow(s: Scheduler, e: Event, next: Scheduler)
    requires e.Tick? ==> |e.envs| == |s.config.reboot.eligible| && next == Ran(s, e.date, e.minute, e.envs)
    requires e.Reload? ==> next == ReloadedScheduler(s, e.config)
    ensures s.sweeps <= next.sweeps
  {
    if e.Tick? && IsDue(s, e.date, e.minute) {
      SweepAttemptsEveryone(s.(lastFiredDate := Some(e.date), sweeps := s.sweeps + [e.date]),
                            s.config.reboot.eligible, e.envs);
    }
  }
}
