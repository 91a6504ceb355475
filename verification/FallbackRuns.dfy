/** Runs in which a pending BTM outlives its kick: the fallback of a stale one goes out past the
    per-MAC caps, and one whose row cannot be written goes out again and again. */
module FallbackRuns {
  import opened Config
  import opened Resolution
  import opened ScanRuns
  import opened Windows
  import opened World
  import opened Moves
  import A = Actor
  import B = Backoff
  import L = Ledger
  import P = Pending
  import R = Rationale
  import WR = WireRuns

  // ---- growing a run ----

  /** A run of one pipeline in scan order, from boot, with clocks that never run back. */
  ghost predicate Lawful(ws: seq<World>, events: seq<Event>) {
    && Run(ws, events) && ClocksAdvanceAlong(ws, events) && ScanOrdered(events)
    && WR.AllBooted(ws[0]) && ws[0].ledger == [] && |ws[|events|].pipes| == 1
  }

  lemma {:induction false} LawfulStep(ws: seq<World>, events: seq<Event>, e: Event)
    requires Lawful(ws, events) && ClocksAdvance(ws[|events|], e) && FollowsItsCheck(events, e)
    requires |Step(ws[|events|], e).pipes| == 1
    ensures Lawful(ws + [Step(ws[|events|], e)], events + [e])
  {
    var n := |events|;
    var longer, steps := ws + [Step(ws[n], e)], events + [e];
    OrderedAppend(events, e);
    forall k | 0 <= k < |steps| ensures StepsTo(longer[k], steps[k], longer[k + 1]) && ClocksAdvance(longer[k], steps[k]) {
      if k < n {
        assert StepsTo(ws[k], events[k], ws[k + 1]) && ClocksAdvance(ws[k], events[k]);
      }
    }
  }

  /** The pipeline of a lawful run's last world. */
  function Last(ws: seq<World>): A.Pipe
    requires ws != [] && |ws[|ws| - 1].pipes| == 1
  {
    ws[|ws| - 1].pipes[0]
  }

  lemma {:induction false} LawfulCheck(ws: seq<World>, events: seq<Event>, c: Client)
    returns (longer: seq<World>, steps: seq<Event>)
    requires Lawful(ws, events)
    ensures Lawful(longer, steps) && steps == events + [CheckOutcome(0, c)] && ws <= longer
    ensures longer[|steps|] == ws[|events|].(pipes := [A.Checked(Last(ws), c)])
  {
    var e := CheckOutcome(0, c);
    var w := ws[|events|];
    assert w.pipes[0 := A.Checked(w.pipes[0], c)] == [A.Checked(w.pipes[0], c)];
    LawfulStep(ws, events, e);
    longer, steps := ws + [Step(w, e)], events + [e];
  }

  lemma {:induction false} LawfulHandle(ws: seq<World>, events: seq<Event>, c: Client, d: R.Decision, env: A.Env)
    returns (longer: seq<World>, steps: seq<Event>)
    requires Lawful(ws, events) && Seen(events, 0, c.mac) == Some(c)
    requires ClocksAdvance(ws[|events|], Handle(0, c, d, env))
    ensures Lawful(longer, steps) && steps == events + [Handle(0, c, d, env)] && ws <= longer
    ensures var ef := A.HandleEffect(Last(ws), ws[|events|].ledger, c, d, env);
            && longer[|steps|].pipes == [ef.pipe] && longer[|steps|].ledger == ws[|events|].ledger + ef.rows
            && longer[|steps|].wall == env.wallRow && longer[|steps|].mono == env.monoRecord
  {
    var e := Handle(0, c, d, env);
    var w := ws[|events|];
    var ef := EffectOf(w, e);
    assert w.pipes[0 := ef.pipe] == [ef.pipe];
    LawfulStep(ws, events, e);
    longer, steps := ws + [Step(w, e)], events + [e];
  }

  // ---- polls of one client ----

  /** A poll that lists this client alone, with the RF and inactivity flags it raises. */
  function Poll(c: Client, rf: Option<Attempt>, idle: Option<Attempt>): Block {
    Cycle(0, [Visit(c, rf, idle)], [])
  }

  predicate IsPoll(b: Block) { b.Cycle? && b.pipe == 0 && |b.visits| == 1 && b.dns == [] }

  /** The run is what the scanner makes of these polls. */
  ghost predicate ByPolls(blocks: seq<Block>, events: seq<Event>) {
    events == EventsOf(blocks) && forall k :: 0 <= k < |blocks| ==> IsPoll(blocks[k]) && BlockOk(blocks[k])
  }

  function PollEvents(c: Client, rf: Option<Attempt>, idle: Option<Attempt>): seq<Event> {
    [CheckOutcome(0, c)] + HandleOf(0, c, rf) + HandleOf(0, c, idle)
  }

  lemma {:induction false} OnePollMore(
      blocks: seq<Block>, events: seq<Event>, c: Client, rf: Option<Attempt>, idle: Option<Attempt>, added: seq<Event>)
    requires ByPolls(blocks, events) && added == PollEvents(c, rf, idle)
    ensures ByPolls(blocks + [Poll(c, rf, idle)], events + added)
  {
    var b := Poll(c, rf, idle);
    var visit := Visit(c, rf, idle);
    assert [visit][..0] == [];
    assert VisitsEvents(0, [visit]) == [] + VisitEvents(0, visit);
    assert BlockEvents(b) == added;
    assert (blocks + [b])[..|blocks|] == blocks;
    assert EventsOf(blocks + [b]) == events + BlockEvents(b);
  }

  /** No insert of the run fails. */
  predicate AllInserted(events: seq<Event>) {
    forall j :: 0 <= j < |events| && events[j].Handle? ==> events[j].env.insertOk
  }

  lemma {:induction false} InsertedAppend(events: seq<Event>, added: seq<Event>)
    requires AllInserted(events) && AllInserted(added)
    ensures AllInserted(events + added)
  {
  }

  // ---- the first kick ----

  /** Live, with a BTM mechanism for this MAC, and a limit that leaves room for a fallback. */
  predicate SendsBtm(config: Config, mac: Mac) {
    !config.scanner.dryRun && !MechanismFor(mac, config).Deauth? && config.backoff.quarantineAfterKicks >= 2
  }

  /** Both wall readings `wall`, both monotonic readings `mono`; only the insert may fail. */
  function EnvAt(wall: real, mono: real, group: L.Group, insertOk: bool): A.Env {
    A.Env(wall, wall, mono, mono, group, true, insertOk, true)
  }

  lemma {:induction false} BootAndCheck(config: Config, c: Client) returns (ws: seq<World>, events: seq<Event>)
    ensures Lawful(ws, events) && events == [CheckOutcome(0, c)] && Seen(events, 0, c.mac) == Some(c)
    ensures ws[1] == World([A.NewPipe(config, false)], [], 0.0, 0.0, {})
  {
    var boot := A.NewPipe(config, false);
    ws, events := [World([boot], [], 0.0, 0.0, {})], [];
    ws, events := LawfulCheck(ws, events, c);
    assert A.Checked(boot, c) == boot;
    SeenAppend([], CheckOutcome(0, c), 0, c.mac);
    assert [] + [CheckOutcome(0, c)] == [CheckOutcome(0, c)];
  }

  /** What the first kick leaves: a BTM under group 0 waits at the client's AP. */
  lemma {:induction false} FirstKickWaits(config: Config, c: Client, d: R.Decision, env: A.Env)
    requires SendsBtm(config, c.mac) && env == EnvAt(0.0, 0.0, 0, true)
    ensures var ef := A.HandleEffect(A.NewPipe(config, false), [], c, d, env);
            && Waits(ef.pipe, config, c) && NoRoamAwaited(ef.pipe, c)
            && ef.pipe.limiter.lastKickAt == Some(0.0) && ef.rows == [A.FreshRow(c, d, config, env)]
            && |ef.pipe.wire| == 1 && ef.pipe.wire[0].mac == c.mac && ef.pipe.wire[0].kind.RowBtm?
            && ef.pipe.wire[0].group == 0 && ef.pipe.wire[0].at == 0.0
  {
  }

  /** All the clocks still read 0, and the only call and the only row are the first kick's. */
  predicate Kicked(w: World, p: A.Pipe, config: Config, c: Client, d: R.Decision) {
    && w.wall == w.mono == 0.0 && p.limiter.lastKickAt == Some(0.0)
    && |p.wire| == 1 && p.wire[0].mac == c.mac && p.wire[0].kind.RowBtm? && p.wire[0].group == 0
    && p.wire[0].at == 0.0
    && w.ledger == [A.FreshRow(c, d, config, EnvAt(0.0, 0.0, 0, true))]
  }

  /** One poll: boot, check, kick. */
  lemma {:induction false} FirstKick(config: Config, c: Client, d: R.Decision)
    returns (ws: seq<World>, events: seq<Event>, blocks: seq<Block>)
    requires SendsBtm(config, c.mac)
    ensures Lawful(ws, events) && Waits(Last(ws), config, c)
    ensures blocks == [Poll(c, Some(Attempt(d, EnvAt(0.0, 0.0, 0, true))), None)] && ByPolls(blocks, events)
    ensures Kicked(ws[|events|], Last(ws), config, c, d) && NoRoamAwaited(Last(ws), c)
    ensures AllInserted(events) && Seen(events, 0, c.mac) == Some(c)
    ensures events == [CheckOutcome(0, c), Handle(0, c, d, EnvAt(0.0, 0.0, 0, true))]
  {
    var env := EnvAt(0.0, 0.0, 0, true);
    FirstKickWaits(config, c, d, env);
    ws, events := BootAndCheck(config, c);
    SeenAppend(events, Handle(0, c, d, env), 0, c.mac);
    ws, events := LawfulHandle(ws, events, c, d, env);
    blocks := [] + [Poll(c, Some(Attempt(d, env)), None)];
    assert events == PollEvents(c, Some(Attempt(d, env)), None);
    OnePollMore([], [], c, Some(Attempt(d, env)), None, events);
    assert [] + events == events;
  }

  /** A BTM of group 0 waits for its fallback at this client's AP, short of quarantine. */
  predicate Waits(p: A.Pipe, config: Config, c: Client) {
    && p.config == config && p.limiter.rails == config.rails && !config.scanner.dryRun
    && c.mac in p.pending.btm && p.pending.btm[c.mac] == P.PendingBtm(0, c.apId)
    && !A.Quarantined(p, c.mac)
  }

  /** No outcome of another AP is awaited. */
  predicate NoRoamAwaited(p: A.Pipe, c: Client) {
    c.mac in p.pending.outcome ==> p.pending.outcome[c.mac].apId == c.apId
  }

  /** A check that finds no awaited roam reads the outcome and changes nothing else. */
  lemma {:induction false} QuietCheck(ws: seq<World>, events: seq<Event>, seen: Client, config: Config, c: Client)
    returns (longer: seq<World>, steps: seq<Event>)
    requires Lawful(ws, events) && NoRoamAwaited(Last(ws), seen) && seen.mac == c.mac && Waits(Last(ws), config, c)
    ensures Lawful(longer, steps) && steps == events + [CheckOutcome(0, seen)]
    ensures Waits(Last(longer), config, c) && c.mac !in Last(longer).pending.outcome
    ensures Last(longer).wire == Last(ws).wire && Last(longer).limiter == Last(ws).limiter
    ensures var w, next := ws[|events|], longer[|steps|];
            next.wall == w.wall && next.mono == w.mono && next.ledger == w.ledger
    ensures Seen(steps, 0, c.mac) == Some(seen)
  {
    longer, steps := LawfulCheck(ws, events, seen);
    SeenAppend(events, CheckOutcome(0, seen), 0, c.mac);
  }

  // ---- in one cycle ----

  /** One scan cycle, no failure at all: its RF flag sends a BTM and its inactivity flag, as soon
      as the single-flight minimum has passed, the deauth fallback of that BTM. */
  lemma {:induction false} OneCycleKicksTwice(config: Config, c: Client, rf: R.Decision, idle: R.Decision)
    returns (ws: seq<World>, events: seq<Event>, second: A.Env)
    requires SendsBtm(config, c.mac)
    ensures Lawful(ws, events) && AllInserted(events) && second.wireOk && second.notifyOk
    ensures events == EventsOf([Poll(c, Some(Attempt(rf, EnvAt(0.0, 0.0, 0, true))), Some(Attempt(idle, second)))])
    ensures second.monoGate == config.rails.minSecondsBetweenKicks
    ensures var wire := Last(ws).wire;
            && |wire| == 2 && wire[0].kind.RowBtm? && wire[1].kind.RowFallback?
            && wire[1].mac == wire[0].mac == c.mac && wire[1].group == wire[0].group
  {
    var wait := config.rails.minSecondsBetweenKicks;
    second := EnvAt(wait, wait, 1, true);
    var blocks: seq<Block>;
    ws, events, blocks := FirstKick(config, c, rf);
    assert events + [Handle(0, c, idle, second)]
        == PollEvents(c, Some(Attempt(rf, EnvAt(0.0, 0.0, 0, true))), Some(Attempt(idle, second)));
    ws, events := SecondHandle(config, c, rf, idle, second, ws, events);
    OneCycleEvents(c, Some(Attempt(rf, EnvAt(0.0, 0.0, 0, true))), Some(Attempt(idle, second)), events);
  }

  /** The second flag of the cycle, once the minimum has passed. */
  lemma {:induction false} SecondHandle(
      config: Config, c: Client, rf: R.Decision, idle: R.Decision, env: A.Env, ws: seq<World>, events: seq<Event>)
    returns (longer: seq<World>, steps: seq<Event>)
    requires Lawful(ws, events) && AllInserted(events) && Seen(events, 0, c.mac) == Some(c)
    requires Waits(Last(ws), config, c) && Kicked(ws[|events|], Last(ws), config, c, rf)
    requires env == EnvAt(config.rails.minSecondsBetweenKicks, config.rails.minSecondsBetweenKicks, 1, true)
    ensures Lawful(longer, steps) && AllInserted(steps) && steps == events + [Handle(0, c, idle, env)]
    ensures var wire := Last(longer).wire;
            && |wire| == 2 && wire[0].kind.RowBtm? && wire[1].kind.RowFallback?
            && wire[1].mac == wire[0].mac == c.mac && wire[1].group == wire[0].group
  {
    SecondCallIsFallback(Last(ws), ws[|events|].ledger, config, c, idle, env);
    longer, steps := LawfulHandle(ws, events, c, idle, env);
  }

  lemma {:induction false} OneCycleEvents(c: Client, rf: Option<Attempt>, idle: Option<Attempt>, events: seq<Event>)
    requires events == PollEvents(c, rf, idle)
    ensures events == EventsOf([Poll(c, rf, idle)])
  {
    OnePollMore([], [], c, rf, idle, events);
    assert [] + [Poll(c, rf, idle)] == [Poll(c, rf, idle)] && [] + events == events;
  }

  lemma {:induction false} SecondCallIsFallback(
      p: A.Pipe, ledger: L.Rows, config: Config, c: Client, d: R.Decision, env: A.Env)
    requires Waits(p, config, c) && env.wireOk && p.limiter.lastKickAt == Some(0.0)
    requires env.monoGate >= config.rails.minSecondsBetweenKicks && |p.wire| == 1
    ensures var wire := A.HandleEffect(p, ledger, c, d, env).pipe.wire;
            && |wire| == 2 && wire[0] == p.wire[0] && wire[1].kind.RowFallback? && wire[1].mac == c.mac
            && wire[1].group == 0 && wire[1].at == env.monoRecord
  {
  }

  // ---- past the caps ----

  /** Polls that see the MAC, wherever it is, and raise no flag. */
  function Sightings(seen: seq<Client>): seq<Block> {
    if seen == [] then [] else Sightings(seen[..|seen| - 1]) + [Poll(seen[|seen| - 1], None, None)]
  }

  /** Once its outcome has been read, no roam clears a waiting BTM. */
  lemma {:induction false} SightingsClearNothing(
      config: Config, c: Client, d: R.Decision, ws: seq<World>, events: seq<Event>, blocks: seq<Block>, seen: seq<Client>)
    returns (longer: seq<World>, steps: seq<Event>)
    requires Lawful(ws, events) && ByPolls(blocks, events) && AllInserted(events)
    requires Waits(Last(ws), config, c) && Kicked(ws[|events|], Last(ws), config, c, d)
    requires c.mac !in Last(ws).pending.outcome && forall k :: 0 <= k < |seen| ==> seen[k].mac == c.mac
    ensures Lawful(longer, steps) && ByPolls(blocks + Sightings(seen), steps) && AllInserted(steps)
    ensures Waits(Last(longer), config, c) && Kicked(longer[|steps|], Last(longer), config, c, d)
    ensures c.mac !in Last(longer).pending.outcome
    decreases |seen|
  {
    if seen == [] {
      longer, steps := ws, events;
      assert blocks + [] == blocks;
    } else {
      var n := |seen| - 1;
      longer, steps := SightingsClearNothing(config, c, d, ws, events, blocks, seen[..n]);
      var so, all := blocks + Sightings(seen[..n]), blocks + Sightings(seen);
      assert all == so + [Poll(seen[n], None, None)];
      longer, steps := OneSighting(config, c, d, longer, steps, so, all, seen[n]);
    }
  }

  lemma {:induction false} OneSighting(
      config: Config, c: Client, d: R.Decision, ws: seq<World>, events: seq<Event>,
      blocks: seq<Block>, more: seq<Block>, seen: Client)
    returns (longer: seq<World>, steps: seq<Event>)
    requires Lawful(ws, events) && ByPolls(blocks, events) && AllInserted(events)
    requires more == blocks + [Poll(seen, None, None)]
    requires Waits(Last(ws), config, c) && Kicked(ws[|events|], Last(ws), config, c, d)
    requires NoRoamAwaited(Last(ws), seen) && seen.mac == c.mac
    ensures Lawful(longer, steps) && ByPolls(more, steps) && AllInserted(steps)
    ensures Waits(Last(longer), config, c) && Kicked(longer[|steps|], Last(longer), config, c, d)
    ensures c.mac !in Last(longer).pending.outcome
  {
    assert [CheckOutcome(0, seen)] == PollEvents(seen, None, None);
    OnePollMore(blocks, events, seen, None, None, [CheckOutcome(0, seen)]);
    InsertedAppend(events, [CheckOutcome(0, seen)]);
    longer, steps := QuietCheck(ws, events, seen, config, c);
  }

  /** After its kick the client stays for one poll, so its outcome is read. */
  lemma {:induction false} KickedAndStayed(config: Config, c: Client, d: R.Decision)
    returns (ws: seq<World>, events: seq<Event>, blocks: seq<Block>)
    requires SendsBtm(config, c.mac)
    ensures Lawful(ws, events) && ByPolls(blocks, events) && AllInserted(events)
    ensures blocks == [Poll(c, Some(Attempt(d, EnvAt(0.0, 0.0, 0, true))), None), Poll(c, None, None)]
    ensures Waits(Last(ws), config, c) && Kicked(ws[|events|], Last(ws), config, c, d)
    ensures c.mac !in Last(ws).pending.outcome
  {
    ws, events, blocks := FirstKick(config, c, d);
    var two := blocks + [Poll(c, None, None)];
    ws, events := OneSighting(config, c, d, ws, events, blocks, two, c);
    blocks := two;
  }

  /** Then it is seen any number of times, at any APs. The BTM still waits. */
  lemma {:induction false} StayedAndWandered(config: Config, c: Client, seen: seq<Client>, d: R.Decision)
    returns (ws: seq<World>, events: seq<Event>, blocks: seq<Block>)
    requires SendsBtm(config, c.mac) && forall k :: 0 <= k < |seen| ==> seen[k].mac == c.mac
    ensures Lawful(ws, events) && ByPolls(blocks, events) && AllInserted(events)
    ensures blocks == [Poll(c, Some(Attempt(d, EnvAt(0.0, 0.0, 0, true))), None), Poll(c, None, None)] + Sightings(seen)
    ensures Waits(Last(ws), config, c) && Kicked(ws[|events|], Last(ws), config, c, d)
    ensures c.mac !in Last(ws).pending.outcome
  {
    ws, events, blocks := KickedAndStayed(config, c, d);
    ws, events := SightingsClearNothing(config, c, d, ws, events, blocks, seen);
    blocks := blocks + Sightings(seen);
  }

  /** With every insert succeeding: the client is kicked, stays for one poll, is seen anywhere at
      all or nowhere, and turns bad again at its old AP, `wait` seconds after the kick. That
      handle is the fallback of the old kick, under the old group, although the caps deny the
      client a kick. */
  lemma {:induction false} StaleBtmFallsBackPastTheCaps(
      config: Config, c: Client, seen: seq<Client>, d: R.Decision, wait: real)
    returns (ws: seq<World>, events: seq<Event>, blocks: seq<Block>)
    requires SendsBtm(config, c.mac) && A.PolicyFor(c.mac, config).maxPerHour == 1
    requires forall k :: 0 <= k < |seen| ==> seen[k].mac == c.mac
    requires config.rails.minSecondsBetweenKicks <= wait <= B.HOUR_SECONDS
    ensures Lawful(ws, events) && ByPolls(blocks, events) && AllInserted(events)
    ensures blocks == [Poll(c, Some(Attempt(d, EnvAt(0.0, 0.0, 0, true))), None), Poll(c, None, None)] + Sightings(seen)
                      + [Poll(c, Some(Attempt(d, EnvAt(wait, wait, 1, true))), None)]
    ensures var n := |events| - 1;
            && n >= 0 && |ws[n].pipes| == 1 && !A.BackoffAllows(ws[n].pipes[0], ws[n].ledger, c.mac, wait)
    ensures var wire := Last(ws).wire;
            && |wire| == 2 && wire[1].kind.RowFallback? && wire[1].mac == c.mac && wire[0].kind.RowBtm?
            && wire[1].group == wire[0].group && wire[1].at == wait && wire[0].at == 0.0
  {
    var env := EnvAt(wait, wait, 1, true);
    ws, events, blocks := StayedAndWandered(config, c, seen, d);
    var added := [CheckOutcome(0, c), Handle(0, c, d, env)];
    assert added == PollEvents(c, Some(Attempt(d, env)), None);
    OnePollMore(blocks, events, c, Some(Attempt(d, env)), None, added);
    InsertedAppend(events, added);
    blocks := blocks + [Poll(c, Some(Attempt(d, env)), None)];
    assert events + added == events + [CheckOutcome(0, c)] + [Handle(0, c, d, env)];
    ws, events := QuietCheck(ws, events, c, config, c);
    StaleHandle(Last(ws), ws[|events|].ledger, config, c, d, env, wait);
    ws, events := LawfulHandle(ws, events, c, d, env);
  }

  /** The last handle of that run: denied a kick, and a fallback all the same. */
  lemma {:induction false} StaleHandle(
      p: A.Pipe, ledger: L.Rows, config: Config, c: Client, d: R.Decision, env: A.Env, wait: real)
    requires Waits(p, config, c) && env == EnvAt(wait, wait, 1, true) && p.limiter.lastKickAt == Some(0.0)
    requires config.rails.minSecondsBetweenKicks <= wait <= B.HOUR_SECONDS && |p.wire| == 1
    requires A.PolicyFor(c.mac, config).maxPerHour == 1
    requires ledger == [A.FreshRow(c, d, config, EnvAt(0.0, 0.0, 0, true))]
    ensures !A.BackoffAllows(p, ledger, c.mac, wait)
    ensures var wire := A.HandleEffect(p, ledger, c, d, env).pipe.wire;
            && |wire| == 2 && wire[0] == p.wire[0] && wire[1].kind.RowFallback? && wire[1].mac == c.mac
            && wire[1].group == 0 && wire[1].at == wait
  {
    OneRowFillsTheHour(p, ledger, c, d, config, wait);
    SecondCallIsFallback(p, ledger, config, c, d, env);
  }

  /** One logical row at time 0 fills an hourly cap of one for the hour. */
  lemma {:induction false} OneRowFillsTheHour(
      p: A.Pipe, ledger: L.Rows, c: Client, d: R.Decision, config: Config, now: real)
    requires p.config == config && 0.0 <= now <= B.HOUR_SECONDS && A.PolicyFor(c.mac, config).maxPerHour == 1
    requires ledger == [A.FreshRow(c, d, config, EnvAt(0.0, 0.0, 0, true))]
    ensures !A.BackoffAllows(p, ledger, c.mac, now)
  {
    var policy := A.PolicyFor(c.mac, config);
    B.TruncatedLookupIsExact(ledger, c.mac, now, policy);
  }

  // ---- again and again ----

  /** At most one flag a poll: a handle is the last thing its poll does, so one that raises has
      nothing after it to cut off. */
  predicate OneFlagAPoll(blocks: seq<Block>) {
    forall k :: 0 <= k < |blocks| ==> IsPoll(blocks[k]) && blocks[k].visits[0].idle.None?
  }

  /** For every n there is a run of polls, under one configuration, in which a MAC below its
      quarantine limit gets n fallback calls for one kick, one a poll: each insert after the
      first fails, and each failure ends its poll. */
  lemma {:induction false} FallbacksAreUnbounded(config: Config, c: Client, d: R.Decision, n: nat)
    returns (ws: seq<World>, events: seq<Event>, blocks: seq<Block>)
    requires SendsBtm(config, c.mac)
    ensures Lawful(ws, events) && ByPolls(blocks, events) && OneFlagAPoll(blocks) && |blocks| == n + 1
    ensures Stuck(ws[|events|], Last(ws), config, c)
    ensures WR.FreshCalls(Last(ws).wire, c.mac) == 1 && WR.CallsTo(Last(ws).wire, c.mac) == n + 1
  {
    if n == 0 {
      ws, events, blocks := FirstKick(config, c, d);
      var wire := Last(ws).wire;
      assert wire[..0] == [] && wire[|wire| - 1] == wire[0];
    } else {
      ws, events, blocks := FallbacksAreUnbounded(config, c, d, n - 1);
      ws, events, blocks := OneMoreFallback(config, c, d, ws, events, blocks);
    }
  }

  /** A BTM that waits, with nothing awaited elsewhere, and the timer at the last reading. */
  predicate Stuck(w: World, p: A.Pipe, config: Config, c: Client) {
    Waits(p, config, c) && NoRoamAwaited(p, c) && p.limiter.lastKickAt == Some(w.mono)
  }

  /** One more poll: the check, then a fallback whose row is not written. */
  lemma {:induction false} OneMoreFallback(
      config: Config, c: Client, d: R.Decision, ws: seq<World>, events: seq<Event>, blocks: seq<Block>)
    returns (longer: seq<World>, steps: seq<Event>, more: seq<Block>)
    requires Lawful(ws, events) && ByPolls(blocks, events) && OneFlagAPoll(blocks)
    requires Stuck(ws[|events|], Last(ws), config, c)
    ensures Lawful(longer, steps) && ByPolls(more, steps) && OneFlagAPoll(more) && |more| == |blocks| + 1
    ensures Stuck(longer[|steps|], Last(longer), config, c)
    ensures WR.FreshCalls(Last(longer).wire, c.mac) == WR.FreshCalls(Last(ws).wire, c.mac)
    ensures WR.CallsTo(Last(longer).wire, c.mac) == WR.CallsTo(Last(ws).wire, c.mac) + 1
  {
    var env := EnvAt(ws[|events|].wall + config.rails.minSecondsBetweenKicks,
                     ws[|events|].mono + config.rails.minSecondsBetweenKicks, 0, false);
    longer, steps := FallbackPoll(config, c, d, ws, events, env);
    more := blocks + [Poll(c, Some(Attempt(d, env)), None)];
    assert [CheckOutcome(0, c), Handle(0, c, d, env)] == PollEvents(c, Some(Attempt(d, env)), None);
    OnePollMore(blocks, events, c, Some(Attempt(d, env)), None, [CheckOutcome(0, c), Handle(0, c, d, env)]);
  }

  lemma {:induction false} FallbackPoll(
      config: Config, c: Client, d: R.Decision, ws: seq<World>, events: seq<Event>, env: A.Env)
    returns (longer: seq<World>, steps: seq<Event>)
    requires Lawful(ws, events) && Stuck(ws[|events|], Last(ws), config, c)
    requires env == EnvAt(ws[|events|].wall + config.rails.minSecondsBetweenKicks,
                          ws[|events|].mono + config.rails.minSecondsBetweenKicks, 0, false)
    ensures Lawful(longer, steps) && steps == events + [CheckOutcome(0, c), Handle(0, c, d, env)]
    ensures Stuck(longer[|steps|], Last(longer), config, c)
    ensures WR.FreshCalls(Last(longer).wire, c.mac) == WR.FreshCalls(Last(ws).wire, c.mac)
    ensures WR.CallsTo(Last(longer).wire, c.mac) == WR.CallsTo(Last(ws).wire, c.mac) + 1
  {
    longer, steps := QuietCheck(ws, events, c, config, c);
    assert steps + [Handle(0, c, d, env)] == events + [CheckOutcome(0, c), Handle(0, c, d, env)];
    longer, steps := LawfulHandle(longer, steps, c, d, env);
  }
}
