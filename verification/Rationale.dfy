/** Why a kick fired, frozen when the actor handled it. */
module Rationale {
  import opened Config
  import opened Resolution
  import opened BoundedDeque
  import S = Scorer

  datatype Trigger = Rf | Inactivity | DnsThrash

  /** The detector decision the actor receives. */
  datatype Decision =
    | RfDecision(flag: S.Flag)
    | InactivityDecision(windowBytes: int, minBytesPerWindow: nat, windowSamples: nat)
    | DnsDecision(top: Option<Standing>)

  /** One (MAC, domain) standing of the DNS detector. */
  datatype Standing = Standing(
    mac: Mac, domain: string, count: nat, threshold: nat, overSince: Option<real>)

  datatype Criterion = Signal | TxRate | RetryRate

  datatype Evidence =
    | RfEvidence(thresholds: Thresholds, cuRecorded: bool, retryPct: Option<real>, breached: seq<Criterion>)
    | InactivityEvidence(windowBytes: int, minBytesPerWindow: nat)
    | DnsEvidence(top: Option<Standing>)

  datatype Envelope = Envelope(
    trigger: Trigger, windowSamples: nat, quietHours: bool, overridden: bool, evidence: Evidence)

  function TriggerOf(d: Decision): Trigger {
    match d
    case RfDecision(_) => Rf
    case InactivityDecision(_, _, _) => Inactivity
    case DnsDecision(_) => DnsThrash
  }

  function Breached(c: Client, t: Thresholds): seq<Criterion> {
    (if t.signalMax.Some? && c.signal < t.signalMax.value then [Signal] else [])
    + (if t.txRateMax.Some? && c.txRateKbps < t.txRateMax.value then [TxRate] else [])
    + (if t.retryMax.Some? && c.txAttempts > 0 && S.RetryPct(c) > t.retryMax.value as real
       then [RetryRate] else [])
  }

  function BuildKickRationale(c: Client, d: Decision, config: Config): Envelope {
    match d
    case RfDecision(flag) =>
      var retry := if c.txAttempts > 0 then Some(S.RetryPct(c)) else None;
      Envelope(Rf, config.scanner.windowSamples, flag.quietHours, MacHasOverride(c.mac, config),
               RfEvidence(flag.thresholds, flag.thresholds.cuMin != 0, retry, Breached(c, flag.thresholds)))
    case InactivityDecision(bytes, minBytes, samples) =>
      Envelope(Inactivity, samples, false, MacHasOverride(c.mac, config), InactivityEvidence(bytes, minBytes))
    case DnsDecision(top) =>
      Envelope(DnsThrash, config.scanner.windowSamples, false, MacHasOverride(c.mac, config), DnsEvidence(top))
  }

  /** The criteria an operator left enabled. */
  function ActiveCriteria(t: Thresholds): seq<Criterion> {
    (if t.signalMax.Some? then [Signal] else [])
    + (if t.txRateMax.Some? then [TxRate] else [])
    + (if t.retryMax.Some? then [RetryRate] else [])
  }

  /** The rationale of an RF kick, built from the flag and the sample that raised it, names
      exactly the active criteria as breached, and at least one. */
  lemma RationaleNamesActiveCriteria(s: S.State, c: Client, timeOfDay: nat, config: Config)
    requires S.FlagFor(s, c, timeOfDay).Some?
    ensures var flag := S.FlagFor(s, c, timeOfDay).value;
            var e := BuildKickRationale(c, RfDecision(flag), config).evidence;
            e.breached == ActiveCriteria(e.thresholds) && e.breached != []
  {
    var flag := S.FlagFor(s, c, timeOfDay).value;
    var window := S.Window(S.Ingested(s, c), c.mac).items;
    LastNIsSuffix(S.Window(s, c.mac).items + [c], S.Window(s, c.mac).maxlen);
    assert S.BadState(window, flag.thresholds, s.config.detection.radios);
    assert window[|window| - 1] == c;
    assert S.BadSample(c, flag.thresholds, s.config.detection.radios);
  }

  /** c breaches this criterion, which must be set; a retry rate in whole numbers. */
  predicate Breaches(c: Client, t: Thresholds, criterion: Criterion) {
    match criterion
    case Signal => t.signalMax.Some? && c.signal < t.signalMax.value
    case TxRate => t.txRateMax.Some? && c.txRateKbps < t.txRateMax.value
    case RetryRate =>
      t.retryMax.Some? && c.txAttempts > 0 && 100 * c.txRetries > t.retryMax.value * c.txAttempts
  }

  /** The rationale quotes its sources: the decision's own numbers, whether the MAC has a row of
      overrides, the sample's retry rate, and as breached the criteria the sample breaches. */
  lemma RationaleQuotesItsSources(c: Client, d: Decision, config: Config)
    ensures var e := BuildKickRationale(c, d, config);
            && (e.overridden <==> !NoRowFor(config.overrides, c.mac))
            && match d
               case RfDecision(flag) =>
                 && e.evidence.RfEvidence? && e.trigger == Rf && e.quietHours == flag.quietHours
                 && e.windowSamples == config.scanner.windowSamples
                 && e.evidence.thresholds == flag.thresholds && (e.evidence.cuRecorded <==> flag.thresholds.cuMin != 0)
                 && (e.evidence.retryPct.Some? <==> c.txAttempts > 0)
                 && (c.txAttempts > 0 ==>
                       e.evidence.retryPct.value * c.txAttempts as real == 100.0 * c.txRetries as real)
                 && forall x :: x in e.evidence.breached <==> Breaches(c, flag.thresholds, x)
               case InactivityDecision(bytes, minBytes, samples) =>
                 e == Envelope(Inactivity, samples, false, e.overridden, InactivityEvidence(bytes, minBytes))
               case DnsDecision(top) =>
                 e == Envelope(DnsThrash, config.scanner.windowSamples, false, e.overridden, DnsEvidence(top))
  {
    assert MacHasOverride(c.mac, config) <==> !NoRowFor(config.overrides, c.mac);
    if d.RfDecision? && c.txAttempts > 0 && d.flag.thresholds.retryMax.Some? {
      S.RetryBreachInIntegers(c.txRetries, c.txAttempts, d.flag.thresholds.retryMax.value);
    }
  }
}
