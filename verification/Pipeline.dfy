/** One controller's detection pipeline: construction, and the reload that keeps or rebuilds
    its collaborators. */
module Pipeline {
  import opened Config
  import S = Scorer
  import I = Inactivity
  import A = Actor
  import B = Backoff
  import RL = RateLimit
  import R = Rationale
  import L = Ledger
  import M = Moves

  datatype State = State(scorer: S.State, inactivity: I.State, pipe: A.Pipe)

  function Built(config: Config, notifier: bool): State {
    State(S.State(config, map[]), I.State(config, map[], map[]), A.NewPipe(config, notifier))
  }

  function Updated(s: State, config: Config): State {
    State(S.Reloaded(s.scorer, config), I.Reloaded(s.inactivity, config), A.ReloadedPipe(s.pipe, config))
  }

  /** Every knob cached outside the configuration object is the configured one: the quarantine
      limit, the three rate limits, and the limit baked into every sample and delta window. */
  ghost predicate KnobsAgree(s: State, config: Config) {
    && s.scorer.config == config && s.inactivity.config == config && s.pipe.config == config
    && s.pipe.quarantineAfter == config.backoff.quarantineAfterKicks
    && s.pipe.limiter.rails == config.rails
    && (forall mac :: mac in s.scorer.windows ==> s.scorer.windows[mac].maxlen == config.scanner.windowSamples)
    && (forall mac :: mac in s.inactivity.windows ==>
          s.inactivity.windows[mac].maxlen == config.detection.inactivity.windowSamples)
  }

  /** What a reload does not touch: counts, pending kicks, the throttle, the single-flight timer
      and per-AP deques, and the sample windows unless their size changes. */
  lemma {:induction false} UpdateAgreesAndKeepsState(s: State, was: Config, config: Config)
    requires KnobsAgree(s, was)
    ensures KnobsAgree(Updated(s, config), config)
    ensures var next := Updated(s, config);
            && next.pipe.states == s.pipe.states && next.pipe.pending == s.pipe.pending
            && next.pipe.dryLast == s.pipe.dryLast && next.pipe.limiter.lastKickAt == s.pipe.limiter.lastKickAt
            && next.pipe.limiter.perAp == s.pipe.limiter.perAp
            && (config.scanner.windowSamples == was.scanner.windowSamples ==>
                  next.scorer.windows == s.scorer.windows)
            && (config.detection.inactivity.windowSamples == was.detection.inactivity.windowSamples ==>
                  next.inactivity.windows == s.inactivity.windows && next.inactivity.prev == s.inactivity.prev)
            && (config.scanner.windowSamples != was.scanner.windowSamples ==> next.scorer.windows == map[])
            && (config.detection.inactivity.windowSamples != was.detection.inactivity.windowSamples ==>
                  next.inactivity.windows == map[] && next.inactivity.prev == map[])
            && next.pipe.wire == s.pipe.wire && next.pipe.notices == s.pipe.notices && next.pipe.notifier == s.pipe.notifier
  {
  }

  /** A new pipeline runs on the configured knobs, and remembers no sample, kick or call. */
  lemma {:induction false} BuiltAgreesAndIsEmpty(config: Config, notifier: bool)
    ensures KnobsAgree(Built(config, notifier), config)
    ensures var s := Built(config, notifier);
            && s.scorer.windows == map[] && s.inactivity.windows == map[] && s.inactivity.prev == map[]
            && s.pipe.pending.btm == map[] && s.pipe.pending.outcome == map[] && s.pipe.dryLast == map[]
            && (forall mac :: M.Count(s.pipe, mac) == 0) && s.pipe.wire == [] && s.pipe.notices == []
            && s.pipe.limiter.lastKickAt == None && s.pipe.limiter.perAp == map[] && s.pipe.notifier == notifier
  {
  }

  // ---- what the scan loop does between reloads ----

  datatype Act =
    | Score(client: Client)
    | Watch(client: Client)
    | HandleKick(client: Client, decision: R.Decision, ledger: L.Rows, env: A.Env)
    | Check(client: Client)

  function Acted(s: State, act: Act): State {
    match act
    case Score(c) => s.(scorer := S.Ingested(s.scorer, c))
    case Watch(c) => s.(inactivity := I.Ingested(s.inactivity, c))
    case HandleKick(c, d, ledger, env) => s.(pipe := A.HandleEffect(s.pipe, ledger, c, d, env).pipe)
    case Check(c) => s.(pipe := A.Checked(s.pipe, c))
  }

  lemma {:induction false} HandleKeepsKnobs(p: A.Pipe, ledger: L.Rows, c: Client, d: R.Decision, env: A.Env)
    ensures var q := A.HandleEffect(p, ledger, c, d, env).pipe;
            q.config == p.config && q.quarantineAfter == p.quarantineAfter && q.limiter.rails == p.limiter.rails
  {
    M.HandleMoves(p, ledger, c, d, env);
  }

  lemma {:induction false} ActKeepsKnobs(s: State, act: Act, config: Config)
    requires KnobsAgree(s, config)
    ensures KnobsAgree(Acted(s, act), config)
  {
    match act
    case Score(c) =>
    case Watch(c) =>
    case HandleKick(c, d, ledger, env) => HandleKeepsKnobs(s.pipe, ledger, c, d, env);
    case Check(c) =>
  }

  // ---- the class ----

  class DetectionPipeline {
    var scorer: S.Scorer
    var inactivity: I.InactivityScorer
    const backoff: B.BackoffManager
    const rateLimiter: RL.KickRateLimiter
    const actor: A.Actor

    ghost function Repr(): set<object>
      reads this
    {
      {this, scorer, inactivity, backoff, rateLimiter, actor, actor.pending}
    }

    ghost predicate Valid() {
      actor.backoff == backoff && actor.rateLimiter == rateLimiter
    }

    ghost function Model(): State
      reads this, scorer, inactivity, actor, actor.backoff, actor.rateLimiter, actor.pending
    {
      State(scorer.Model(), inactivity.Model(), actor.Model())
    }

    constructor (config: Config, notifier: bool, db: A.Store)
      ensures Valid() && fresh(Repr()) && actor.db == db
      ensures Model() == Built(config, notifier)
    {
      var manager := new B.BackoffManager(config.backoff.quarantineAfterKicks);
      var limiter := new RL.KickRateLimiter(config.rails);
      var kicker := new A.Actor(config, notifier, db, manager, limiter);
      var rf := new S.Scorer(config);
      var watcher := new I.InactivityScorer(config);
      backoff, rateLimiter, actor, scorer, inactivity := manager, limiter, kicker, rf, watcher;
    }

    method UpdateConfig(config: Config)
      requires Valid()
      modifies Repr()
      ensures Model() == Updated(old(Model()), config)
      ensures fresh(Repr() - old(Repr()))
    {
      if scorer.config.scanner.windowSamples != config.scanner.windowSamples {
        scorer := new S.Scorer(config);
      } else {
        scorer.config := config;
      }
      if inactivity.config.detection.inactivity.windowSamples != config.detection.inactivity.windowSamples {
        inactivity := new I.InactivityScorer(config);
      } else {
        inactivity.config := config;
      }
      actor.config := config;
      backoff.quarantineAfterKicks := config.backoff.quarantineAfterKicks;
      rateLimiter.rails := config.rails;
    }
  }
}
