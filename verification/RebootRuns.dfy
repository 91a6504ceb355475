/** What a reboot takes: whom, when and on whose word, attempt by attempt and over whole runs. */
module RebootRuns {
  import opened Config
  import opened Windows
  import opened Reboot

  // ---- one attempt ----

  /** Reboots are enabled, some opt-in entry is this MAC and no allowlist entry is, whatever the
      spelling. */
  ghost predicate MayReboot(mac: Mac, config: Config) {
    config.reboot.enabled && ListsMac(config.reboot.eligible, mac) && !ListsMac(config.allowlist, mac)
  }

  lemma {:induction false} EligibleIff(mac: Mac, config: Config)
    ensures Eligible(mac, config) <==> MayReboot(mac, config)
  {
    NormalizedSetLists(config.allowlist, mac);
    NormalizedSetLists(config.reboot.eligible, mac);
  }

  /** The per-device minimum is off, the device was never rebooted, or it is long enough ago. */
  predicate GapPassed(c: Cooldown, mac: Mac, now: real) {
    mac in c.lastRebootAt && c.perDeviceSeconds != 0.0 ==> c.lastRebootAt[mac] + c.perDeviceSeconds <= now
  }

  /** The daily cap is off, or fewer than its number of reboots are left of the device's day. */
  predicate DayHasRoom(c: Cooldown, mac: Mac, now: real) {
    c.maxPerDay == 0 || |DropBefore(WindowOf(c, mac), now - 86400.0)| < c.maxPerDay
  }

  /** The cooldown both ways, and what its retry-after says: exactly when the gap has passed, or
      when the oldest reboot left of the day is a whole day old. */
  lemma {:induction false} CooldownAllowsIff(c: Cooldown, mac: Mac, now: real)
    ensures var verdict := CanRebootVerdict(c, mac, now);
            && (verdict.Allowed? <==> GapPassed(c, mac, now) && DayHasRoom(c, mac, now))
            && (verdict.Denied? ==> (verdict.reason.InCooldown? <==> !GapPassed(c, mac, now)))
            && (verdict.Denied? && verdict.reason.InCooldown? ==>
                  forall later :: GapPassed(c, mac, later) <==> later >= now + verdict.retryAfter)
            && (verdict.Denied? && verdict.reason.DailyCap? ==>
                  var kept := DropBefore(WindowOf(c, mac), now - 86400.0);
                  kept != [] && now + verdict.retryAfter == kept[0] + 86400.0)
  {
  }

  /** An attempt reboots the device if and only if it may be rebooted, this is not a dry run, the
      gap has passed and the day has room, the resolver finds a target and the reboot call
      returns. Nothing else does, and the cooldown then remembers it; with the cap off no device's
      day is kept. */
  lemma {:induction false} AttemptFiresIff(s: Scheduler, mac: Mac, env: Env)
    ensures var next := Attempted(s, mac, env);
            if && MayReboot(mac, s.config) && !s.config.reboot.dryRun
               && GapPassed(s.cooldown, mac, env.gate) && DayHasRoom(s.cooldown, mac, env.gate)
               && env.resolveOk && env.target.Some? && env.rebootOk
            then && next.fired == s.fired + [Fired(mac, env.record, s.cooldown.perDeviceSeconds)]
                 && next.cooldown.lastRebootAt == s.cooldown.lastRebootAt[mac := env.record]
            else next.fired == s.fired && next.cooldown.lastRebootAt == s.cooldown.lastRebootAt
    ensures s.cooldown.maxPerDay == 0 ==> Attempted(s, mac, env).cooldown.perDevice == s.cooldown.perDevice
  {
    EligibleIff(mac, s.config);
    CooldownAllowsIff(s.cooldown, mac, env.gate);
  }

  /** Its audit row: a dry run leaves one when the resolver and the insert return, a reboot that
      went out when the insert does, and nothing else leaves one. */
  lemma {:induction false} AttemptLeavesItsRow(s: Scheduler, mac: Mac, env: Env)
    ensures var next := Attempted(s, mac, env);
            var previews := MayReboot(mac, s.config) && s.config.reboot.dryRun && env.resolveOk;
            next.rows == s.rows + (if !env.insertOk then []
                                   else if next.fired != s.fired then [RebootRow(mac, RowFired, env.target)]
                                   else if previews then [RebootRow(mac, RowDryRun, env.target)] else [])
  {
    EligibleIff(mac, s.config);
    assert s.rows + [] == s.rows;
  }

  /** An attempt raises exactly when a call it gets to fails: for a preview the resolver or the insert;
      for a reboot that gap and day allow the resolver or, with a target, the reboot call, the insert
      or the notification. */
  lemma {:induction false} AttemptRaisesIff(s: Scheduler, mac: Mac, env: Env)
    ensures AttemptRaises(s, mac, env) <==>
              && MayReboot(mac, s.config)
              && if s.config.reboot.dryRun then !(env.resolveOk && env.insertOk)
                 else && GapPassed(s.cooldown, mac, env.gate) && DayHasRoom(s.cooldown, mac, env.gate)
                      && !(env.resolveOk && (env.target.Some? ==> env.rebootOk && env.insertOk && env.notifyOk))
  {
    EligibleIff(mac, s.config);
    CooldownAllowsIff(s.cooldown, mac, env.gate);
  }

  // ---- whole runs ----

  /** Step n of the run swept the opt-in list, on schedule, under a configuration that lets this
      MAC be rebooted. */
  ghost predicate SweptUnder(ss: seq<Scheduler>, events: seq<Event>, n: nat, mac: Mac) {
    && n < |events| && n < |ss| && events[n].Tick? && MayReboot(mac, ss[n].config)
    && ss[n].config.reboot.proactiveEnabled && events[n].minute == ss[n].config.reboot.schedule
  }

  /** What a sweep adds is of MACs that may be rebooted, and a dry run adds no reboot. */
  ghost predicate AddsAllowed(s: Scheduler, next: Scheduler) {
    && next.config == s.config && s.fired <= next.fired && s.rows <= next.rows
    && (forall j :: |s.fired| <= j < |next.fired| ==> MayReboot(next.fired[j].mac, s.config))
    && (forall j :: |s.rows| <= j < |next.rows| ==> MayReboot(next.rows[j].mac, s.config))
    && (s.config.reboot.dryRun ==> next.fired == s.fired)
    && (forall j :: |s.rows| <= j < |next.rows| ==> (next.rows[j].outcome.RowDryRun? <==> s.config.reboot.dryRun))
  }

  lemma {:induction false} AttemptAddsAllowed(s: Scheduler, mac: Mac, env: Env)
    ensures AddsAllowed(s, Attempted(s, mac, env))
  {
    EligibleIff(mac, s.config);
  }

  lemma {:induction false} AddsAllowedMore(s: Scheduler, mid: Scheduler, next: Scheduler)
    requires AddsAllowed(s, mid) && AddsAllowed(mid, next)
    ensures AddsAllowed(s, next)
  {
  }

  lemma {:induction false} SweepAddsAllowed(s: Scheduler, macs: seq<Mac>, envs: seq<Env>)
    requires |macs| == |envs|
    ensures AddsAllowed(s, SweptOver(s, macs, envs))
  {
    if macs != [] {
      var n := |macs| - 1;
      var before := SweptOver(s, macs[..n], envs[..n]);
      SweepAddsAllowed(s, macs[..n], envs[..n]);
      AttemptAddsAllowed(before, macs[n], envs[n]);
      AddsAllowedMore(s, before, Attempted(before, macs[n], envs[n]));
      AddsAllowedMore(s, before, SweptOver(s, macs, envs));
    }
  }

  /** The cooldown runs on the configured gap and cap, and each reboot added was held to that gap. */
  ghost predicate OnConfiguredKnobs(s: Scheduler) {
    && s.cooldown.perDeviceSeconds == s.config.reboot.perDeviceSeconds
    && s.cooldown.maxPerDay == s.config.reboot.maxPerDevicePerDay
  }

  ghost predicate AddsOnKnobs(s: Scheduler, next: Scheduler) {
    && OnConfiguredKnobs(next) && next.config == s.config && |s.fired| <= |next.fired|
    && forall j :: |s.fired| <= j < |next.fired| ==> next.fired[j].gap == s.config.reboot.perDeviceSeconds
  }

  lemma {:induction false} SweepAddsOnKnobs(s: Scheduler, macs: seq<Mac>, envs: seq<Env>)
    requires |macs| == |envs| && OnConfiguredKnobs(s)
    ensures AddsOnKnobs(s, SweptOver(s, macs, envs))
  {
    if macs != [] {
      var n := |macs| - 1;
      SweepAddsOnKnobs(s, macs[..n], envs[..n]);
      AttemptKeepsKnobs(SweptOver(s, macs[..n], envs[..n]), macs[n], envs[n]);
    }
  }

  lemma {:induction false} AttemptKeepsKnobs(s: Scheduler, mac: Mac, env: Env)
    requires OnConfiguredKnobs(s)
    ensures AddsOnKnobs(s, Attempted(s, mac, env)) && s.fired <= Attempted(s, mac, env).fired
  {
  }

  lemma {:induction false} StepKeepsKnobs(s: Scheduler, now: real, e: Event, next: Scheduler, later: real)
    requires Steps(s, now, e, next, later) && OnConfiguredKnobs(s)
    ensures OnConfiguredKnobs(next) && (e.Tick? ==> AddsOnKnobs(s, next))
  {
    if e.Tick? && IsDue(s, e.date, e.minute) {
      SweepAddsOnKnobs(Begun(s, e.date), s.config.reboot.eligible, e.envs);
    }
  }

  lemma {:induction false} RunKeepsKnobs(ss: seq<Scheduler>, clock: seq<real>, events: seq<Event>, k: nat)
    requires Run(ss, clock, events) && k < |ss|
    ensures OnConfiguredKnobs(ss[k])
  {
    if k > 0 {
      RunKeepsKnobs(ss, clock, events, k - 1);
      assert Steps(ss[k - 1], clock[k - 1], events[k - 1], ss[k], clock[k]);
      StepKeepsKnobs(ss[k - 1], clock[k - 1], events[k - 1], ss[k], clock[k]);
    }
  }

  /** A sweep of this date, before its first attempt. */
  function Begun(s: Scheduler, date: int): Scheduler {
    s.(lastFiredDate := Some(date), sweeps := s.sweeps + [date])
  }

  /** A step adds nothing, or is a due sweep. */
  ghost predicate StepAdds(s: Scheduler, e: Event, next: Scheduler) {
    || (next.fired == s.fired && next.rows == s.rows)
    || (&& e.Tick? && AddsAllowed(s, next)
        && s.config.reboot.proactiveEnabled && e.minute == s.config.reboot.schedule && s.lastFiredDate != Some(e.date))
  }

  lemma {:induction false} StepDoesAdd(s: Scheduler, now: real, e: Event, next: Scheduler, later: real)
    requires Steps(s, now, e, next, later)
    ensures StepAdds(s, e, next)
  {
    if e.Tick? && IsDue(s, e.date, e.minute) {
      SweepAddsAllowed(Begun(s, e.date), s.config.reboot.eligible, e.envs);
    }
  }

  /** In every run, under any reloads, each reboot went out in a due sweep of a configuration that
      enables reboots, opts the device in, does not allowlist it and is not a dry run, and was
      held to the gap that configuration asks for. */
  lemma {:induction false} EveryRebootWasAllowed(
      ss: seq<Scheduler>, clock: seq<real>, events: seq<Event>, k: nat, j: nat) returns (n: nat)
    requires Run(ss, clock, events) && k < |ss| && j < |ss[k].fired|
    ensures n < k && SweptUnder(ss, events, n, ss[k].fired[j].mac) && !ss[n].config.reboot.dryRun
    ensures |ss[n].fired| <= j < |ss[n + 1].fired| && ss[n + 1].fired[j] == ss[k].fired[j]
    ensures ss[k].fired[j].gap == ss[n].config.reboot.perDeviceSeconds
  {
    assert Steps(ss[k - 1], clock[k - 1], events[k - 1], ss[k], clock[k]);
    StepDoesAdd(ss[k - 1], clock[k - 1], events[k - 1], ss[k], clock[k]);
    RunKeepsKnobs(ss, clock, events, k - 1);
    StepKeepsKnobs(ss[k - 1], clock[k - 1], events[k - 1], ss[k], clock[k]);
    if j < |ss[k - 1].fired| {
      n := EveryRebootWasAllowed(ss, clock, events, k - 1, j);
    } else {
      n := k - 1;
    }
  }

  /** And so was each audit row's attempt, previews included; the row says which of the two. */
  lemma {:induction false} EveryRebootRowWasAllowed(
      ss: seq<Scheduler>, clock: seq<real>, events: seq<Event>, k: nat, j: nat) returns (n: nat)
    requires Run(ss, clock, events) && k < |ss| && j < |ss[k].rows|
    ensures n < k && SweptUnder(ss, events, n, ss[k].rows[j].mac)
    ensures |ss[n].rows| <= j < |ss[n + 1].rows| && ss[n + 1].rows[j] == ss[k].rows[j]
    ensures ss[k].rows[j].outcome.RowDryRun? <==> ss[n].config.reboot.dryRun
  {
    assert Steps(ss[k - 1], clock[k - 1], events[k - 1], ss[k], clock[k]);
    StepDoesAdd(ss[k - 1], clock[k - 1], events[k - 1], ss[k], clock[k]);
    if j < |ss[k - 1].rows| {
      n := EveryRebootRowWasAllowed(ss, clock, events, k - 1, j);
    } else {
      n := k - 1;
    }
  }

  // ---- an attempt on history alone ----

  /** The last-reboot map holds each device's newest reboot, and nothing else. */
  ghost predicate RemembersNewest(s: Scheduler) {
    forall mac :: NewestIs(s, mac)
  }

  ghost predicate NewestIs(s: Scheduler, mac: Mac) {
    var history := FiredAt(s.fired, mac);
    if history == [] then mac !in s.cooldown.lastRebootAt
    else mac in s.cooldown.lastRebootAt && s.cooldown.lastRebootAt[mac] == history[|history| - 1]
  }

  lemma {:induction false} AttemptRemembersNewest(s: Scheduler, mac: Mac, env: Env)
    requires RemembersNewest(s)
    ensures RemembersNewest(Attempted(s, mac, env))
  {
    var next := Attempted(s, mac, env);
    AttemptFiresIff(s, mac, env);
    forall other ensures NewestIs(next, other) {
      assert NewestIs(s, other);
      FiredAtAppend(s.fired, Fired(mac, env.record, s.cooldown.perDeviceSeconds), other);
    }
  }

  lemma {:induction false} SweepRemembersNewest(s: Scheduler, macs: seq<Mac>, envs: seq<Env>)
    requires |macs| == |envs| && RemembersNewest(s)
    ensures RemembersNewest(SweptOver(s, macs, envs))
  {
    if macs != [] {
      var n := |macs| - 1;
      SweepRemembersNewest(s, macs[..n], envs[..n]);
      var before := SweptOver(s, macs[..n], envs[..n]);
      AttemptRemembersNewest(before, macs[n], envs[n]);
      SameNewest(Attempted(before, macs[n], envs[n]), SweptOver(s, macs, envs));
    }
  }

  lemma {:induction false} SameNewest(s: Scheduler, next: Scheduler)
    requires RemembersNewest(s) && next.fired == s.fired
    requires next.cooldown.lastRebootAt == s.cooldown.lastRebootAt
    ensures RemembersNewest(next)
  {
    forall mac ensures NewestIs(next, mac) {
      assert NewestIs(s, mac);
    }
  }

  lemma {:induction false} RunRemembersNewest(ss: seq<Scheduler>, clock: seq<real>, events: seq<Event>, k: nat)
    requires Run(ss, clock, events) && k < |ss|
    ensures RemembersNewest(ss[k])
  {
    if k > 0 {
      RunRemembersNewest(ss, clock, events, k - 1);
      var s, e := ss[k - 1], events[k - 1];
      assert Steps(s, clock[k - 1], e, ss[k], clock[k]);
      if e.Tick? && IsDue(s, e.date, e.minute) {
        SameNewest(s, Begun(s, e.date));
        SweepRemembersNewest(Begun(s, e.date), s.config.reboot.eligible, e.envs);
      } else {
        SameNewest(s, ss[k]);
      }
    }
  }

  /** The j-th attempt of a tick's sweep finds the scheduler here. */
  function Midway(s: Scheduler, e: Event, j: nat): Scheduler
    requires e.Tick? && |e.envs| == |s.config.reboot.eligible| && j <= |e.envs|
  {
    SweptOver(Begun(s, e.date), s.config.reboot.eligible[..j], e.envs[..j])
  }

  lemma {:induction false} ClockAlongPrefix(envs: seq<Env>, now: real, j: nat)
    requires ClockAlong(envs, now) && j < |envs|
    ensures ClockAlong(envs[..j], now) && ClockAfter(envs[..j], now) <= envs[j].gate
  {
    var n := |envs| - 1;
    if j < n {
      ClockAlongPrefix(envs[..n], now, j);
      assert envs[..n][..j] == envs[..j];
    }
  }

  /** No reboot of the device, or the gap has gone by since its newest. */
  predicate SinceLastReboot(history: seq<real>, gap: Seconds, now: real) {
    history != [] && gap != 0.0 ==> now - history[|history| - 1] >= gap
  }

  lemma {:induction false} CooldownOnHistory(s: Scheduler, mac: Mac, most: nat, mono: real, now: real)
    requires RemembersNewest(s) && CapTracked(s, mac, most, mono) && mono <= now
    ensures var history := FiredAt(s.fired, mac);
            && (GapPassed(s.cooldown, mac, now) <==> SinceLastReboot(history, s.cooldown.perDeviceSeconds, now))
            && (DayHasRoom(s.cooldown, mac, now) <==> CountIn(history, now - 86400.0, now) < s.cooldown.maxPerDay)
  {
    assert NewestIs(s, mac);
    DequeCounts(WindowOf(s.cooldown, mac), FiredAt(s.fired, mac), DAY_SECONDS, mono, now);
  }

  lemma {:induction false} MidwayIsTracked(
      ss: seq<Scheduler>, clock: seq<real>, events: seq<Event>, k: nat, j: nat, mac: Mac, most: nat)
    requires Run(ss, clock, events) && k < |events| && CapWithin(ss[0].config, most)
    requires forall i :: 0 <= i < |events| && events[i].Reload? ==> CapWithin(events[i].config, most)
    requires events[k].Tick? && j < |events[k].envs|
    ensures |events[k].envs| == |ss[k].config.reboot.eligible| && OnConfiguredKnobs(Midway(ss[k], events[k], j))
    ensures var s, now := Midway(ss[k], events[k], j), ClockAfter(events[k].envs[..j], clock[k]);
            && RemembersNewest(s) && CapTracked(s, mac, most, now) && now <= events[k].envs[j].gate
            && s.config == ss[k].config
  {
    var s, e := ss[k], events[k];
    assert Steps(s, clock[k], e, ss[k + 1], clock[k + 1]);
    ClockAlongPrefix(e.envs, clock[k], j);
    RunKeepsCap(ss, clock, events, k, mac, most);
    RunRemembersNewest(ss, clock, events, k);
    SameNewest(s, Begun(s, e.date));
    SweepRemembersNewest(Begun(s, e.date), s.config.reboot.eligible[..j], e.envs[..j]);
    RunKeepsKnobs(ss, clock, events, k);
    SweepAddsOnKnobs(Begun(s, e.date), s.config.reboot.eligible[..j], e.envs[..j]);
    SweepKeepsCap(Begun(s, e.date), s.config.reboot.eligible[..j], e.envs[..j], clock[k], mac, most);
  }

  /** What it takes to reboot this device, said of the reboots so far. */
  ghost predicate RebootIsOpen(history: seq<real>, config: Config, mac: Mac, now: real) {
    && MayReboot(mac, config) && !config.reboot.dryRun
    && SinceLastReboot(history, config.reboot.perDeviceSeconds, now)
    && CountIn(history, now - 86400.0, now) < config.reboot.maxPerDevicePerDay
  }

  lemma {:induction false} AttemptOnHistory(s: Scheduler, mac: Mac, env: Env, most: nat, now: real)
    requires RemembersNewest(s) && CapTracked(s, mac, most, now) && OnConfiguredKnobs(s) && now <= env.gate
    ensures Attempted(s, mac, env).fired != s.fired <==>
              RebootIsOpen(FiredAt(s.fired, mac), s.config, mac, env.gate)
              && env.resolveOk && env.target.Some? && env.rebootOk
  {
    CooldownOnHistory(s, mac, most, now, env.gate);
    AttemptFiresIff(s, mac, env);
  }

  /** In every run with the daily cap on, the j-th attempt of a sweep reboots its device if and
      only if the device may be rebooted, this is not a dry run, its newest reboot so far is a
      gap ago, fewer than the cap's number lie in the day that ends at the gate, and the resolver
      and the reboot call come through: a statement about the reboots that went out, in which
      neither the map nor a deque is left. */
  lemma {:induction false} FiresOnHistoryIff(
      ss: seq<Scheduler>, clock: seq<real>, events: seq<Event>, k: nat, j: nat, most: nat)
    requires Run(ss, clock, events) && k < |events| && CapWithin(ss[0].config, most)
    requires forall i :: 0 <= i < |events| && events[i].Reload? ==> CapWithin(events[i].config, most)
    requires events[k].Tick? && j < |events[k].envs|
    ensures |events[k].envs| == |ss[k].config.reboot.eligible|
    ensures var s, mac, env := Midway(ss[k], events[k], j), ss[k].config.reboot.eligible[j], events[k].envs[j];
            Attempted(s, mac, env).fired != s.fired <==>
              RebootIsOpen(FiredAt(s.fired, mac), ss[k].config, mac, env.gate)
              && env.resolveOk && env.target.Some? && env.rebootOk
  {
    assert Steps(ss[k], clock[k], events[k], ss[k + 1], clock[k + 1]);
    var mac := ss[k].config.reboot.eligible[j];
    MidwayIsTracked(ss, clock, events, k, j, mac, most);
    AttemptOnHistory(Midway(ss[k], events[k], j), mac, events[k].envs[j], most, ClockAfter(events[k].envs[..j], clock[k]));
  }
}
