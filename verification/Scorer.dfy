/** The RF scorer: a client is flagged when its whole sample window is bad. */
module Scorer {
  import opened Config
  import opened Resolution
  import opened BoundedDeque

  predicate AnyActive(t: Thresholds) {
    t.signalMax.Some? || t.txRateMax.Some? || t.retryMax.Some?
  }

  function RetryPct(c: Client): real
    requires c.txAttempts > 0
  {
    (c.txRetries as real * 100.0) / c.txAttempts as real
  }

  predicate SignalBreach(c: Client, t: Thresholds) {
    t.signalMax.Some? ==> c.signal < t.signalMax.value
  }

  predicate TxRateBreach(c: Client, t: Thresholds) {
    t.txRateMax.Some? ==> c.txRateKbps < t.txRateMax.value
  }

  predicate RetryBreach(c: Client, t: Thresholds) {
    t.retryMax.Some? ==> c.txAttempts > 0 && RetryPct(c) > t.retryMax.value as real
  }

  predicate BadSample(c: Client, t: Thresholds, radios: seq<string>) {
    && c.radio in radios
    && c.apCuTotal >= t.cuMin
    && SignalBreach(c, t) && TxRateBreach(c, t) && RetryBreach(c, t)
  }

  predicate BadState(samples: seq<Client>, t: Thresholds, radios: seq<string>) {
    samples != [] && AnyActive(t) && forall k :: 0 <= k < |samples| ==> BadSample(samples[k], t, radios)
  }

  method IsBadState(samples: seq<Client>, t: Thresholds, radios: seq<string>) returns (bad: bool)
    ensures bad == BadState(samples, t, radios)
  {
    if samples == [] { return false; }
    if t.signalMax.None? && t.txRateMax.None? && t.retryMax.None? { return false; }
    for i := 0 to |samples|
      invariant forall k :: 0 <= k < i ==> BadSample(samples[k], t, radios)
    {
      var sample := samples[i];
      if sample.radio !in radios { return false; }
      if sample.apCuTotal < t.cuMin { return false; }
      if t.signalMax.Some? && sample.signal >= t.signalMax.value { return false; }
      if t.txRateMax.Some? && sample.txRateKbps >= t.txRateMax.value { return false; }
      if t.retryMax.Some? {
        if sample.txAttempts <= 0 { return false; }
        if RetryPct(sample) <= t.retryMax.value as real { return false; }
      }
    }
    return true;
  }

  // ---- the scorer as a state machine ----

  /** The decision handed to the actor: the thresholds in force, and whether quiet hours
      tightened them. */
  datatype Flag = Flag(thresholds: Thresholds, quietHours: bool)

  datatype State = State(config: Config, windows: map<Mac, Deque<Client>>)

  predicate Allowlisted(c: Client, config: Config) { c.CanonicalMac() in config.allowlist }

  predicate QuietNow(config: Config, timeOfDay: nat) {
    config.quietHours.Some? && QuietHoursActive(timeOfDay, config.quietHours.value)
  }

  function InForce(mac: Mac, config: Config, timeOfDay: nat): Thresholds {
    if QuietNow(config, timeOfDay)
    then Tighten(ThresholdsFor(mac, config), config.quietHours.value)
    else ThresholdsFor(mac, config)
  }

  /** A deque's limit is baked in at first sight of the MAC. */
  function Window(s: State, mac: Mac): Deque<Client> {
    if mac in s.windows then s.windows[mac] else Deque([], s.config.scanner.windowSamples)
  }

  function Ingested(s: State, c: Client): State {
    if Allowlisted(c, s.config) then s
    else s.(windows := s.windows[c.mac := Appended(Window(s, c.mac), c)])
  }

  function FlagFor(s: State, c: Client, timeOfDay: nat): Option<Flag> {
    if Allowlisted(c, s.config) then None
    else
      var window := Window(Ingested(s, c), c.mac).items;
      var t := InForce(c.mac, s.config, timeOfDay);
      if |window| < s.config.scanner.windowSamples
         || !BadState(window, t, s.config.detection.radios) then None
      else Some(Flag(t, QuietNow(s.config, timeOfDay)))
  }

  /** A reload keeps the sample windows unless the window size changes. */
  function Reloaded(s: State, config: Config): State {
    if s.config.scanner.windowSamples != config.scanner.windowSamples then State(config, map[])
    else s.(config := config)
  }

  class Scorer {
    var config: Config
    var windows: map<Mac, Deque<Client>>

    function Model(): State reads this { State(config, windows) }

    constructor (config: Config)
      ensures Model() == State(config, map[])
    {
      this.config := config;
      windows := map[];
    }

    method Ingest(client: Client, timeOfDay: nat) returns (decision: Option<Flag>)
      modifies this
      ensures Model() == Ingested(old(Model()), client)
      ensures decision == FlagFor(old(Model()), client, timeOfDay)
    {
      var mac := client.mac;
      if client.CanonicalMac() in config.allowlist { return None; }
      var thresholds := ResolveThresholds(mac, config);
      var quietApplied := false;
      if config.quietHours.Some? && QuietHoursActive(timeOfDay, config.quietHours.value) {
        thresholds := ApplyQuietHours(thresholds, config.quietHours.value);
        quietApplied := true;
      }
      if mac !in windows { windows := windows[mac := Deque([], config.scanner.windowSamples)]; }
      windows := windows[mac := Appended(windows[mac], client)];
      var window := windows[mac].items;
      if |window| < config.scanner.windowSamples { return None; }
      var bad := IsBadState(window, thresholds, config.detection.radios);
      if bad { return Some(Flag(thresholds, quietApplied)); }
      return None;
    }
  }

  // ---- what a whole sample stream does ----

  /** A sample as it reaches the scorer, with the configuration and time of day in force. */
  datatype Sample = Sample(client: Client, config: Config, timeOfDay: nat)

  /** The scorer's state after a stream, reloading whenever the configuration moves. */
  function After(initial: Config, stream: seq<Sample>): State {
    if stream == [] then State(initial, map[]) else
      var n := |stream| - 1;
      Ingested(Reloaded(After(initial, stream[..n]), stream[n].config), stream[n].client)
  }

  function ConfigAfter(initial: Config, stream: seq<Sample>): Config {
    if stream == [] then initial else stream[|stream| - 1].config
  }

  /** This MAC's samples since the last change of window size, skipping those taken while
      it was allowlisted. */
  function Counted(initial: Config, stream: seq<Sample>, mac: Mac): seq<Client> {
    if stream == [] then [] else
      var n := |stream| - 1;
      var x := stream[n];
      var kept := if ConfigAfter(initial, stream[..n]).scanner.windowSamples != x.config.scanner.windowSamples then []
                  else Counted(initial, stream[..n], mac);
      if x.client.mac == mac && NormalizeMac(mac) !in x.config.allowlist then kept + [x.client] else kept
  }

  /** Every per-MAC deque is the tail of that MAC's counted samples, and the limit it was
      created with is the one now configured, whatever reloads came between. */
  lemma {:induction false} WindowIsTail(initial: Config, stream: seq<Sample>, mac: Mac)
    ensures After(initial, stream).config == ConfigAfter(initial, stream)
    ensures var w := ConfigAfter(initial, stream).scanner.windowSamples;
            Window(After(initial, stream), mac) == Deque(LastN(Counted(initial, stream, mac), w), w)
  {
    if stream != [] {
      var n := |stream| - 1;
      var x := stream[n];
      var s := After(initial, stream[..n]);
      var w := x.config.scanner.windowSamples;
      WindowIsTail(initial, stream[..n], mac);
      var kept := if s.config.scanner.windowSamples != w then []
                  else Counted(initial, stream[..n], mac);
      AppendedKeepsTail(kept, x.client, w);
    }
  }

  /** Below the signal and rate ceilings that are set, and retrying more than the ceiling if that
      is set: r retries in a attempts are more than p percent when 100 r > p a. */
  predicate Suffers(c: Client, signal: Option<int>, txRate: Option<int>, retry: Option<int>) {
    && (signal.Some? ==> c.signal < signal.value)
    && (txRate.Some? ==> c.txRateKbps < txRate.value)
    && (retry.Some? ==> c.txAttempts > 0 && 100 * c.txRetries > retry.value * c.txAttempts)
  }

  lemma RetryBreachInIntegers(retries: int, attempts: int, ceiling: int)
    requires attempts > 0
    ensures (retries as real * 100.0) / attempts as real > ceiling as real <==> 100 * retries > ceiling * attempts
  {
    var pct := (retries as real * 100.0) / attempts as real;
    assert pct * attempts as real == retries as real * 100.0;
    assert (ceiling * attempts) as real == ceiling as real * attempts as real;
    assert pct > ceiling as real <==> pct * attempts as real > ceiling as real * attempts as real;
  }

  /** A sample is bad on a watched radio of a busy AP when it suffers under every criterion that is
      set; a retry rate is compared without rounding. */
  lemma BadSampleIff(c: Client, t: Thresholds, radios: seq<string>)
    ensures BadSample(c, t, radios) <==>
              c.radio in radios && c.apCuTotal >= t.cuMin && Suffers(c, t.signalMax, t.txRateMax, t.retryMax)
  {
    if t.retryMax.Some? && c.txAttempts > 0 {
      RetryBreachInIntegers(c.txRetries, c.txAttempts, t.retryMax.value);
    }
  }

  /** A quiet-hours ceiling counts only for a criterion that is set outside quiet hours too. */
  function Both(q: Option<int>, t: Option<int>): Option<int> { if t.Some? then q else None }

  /** Tightening asks a sample to be bad twice: under the thresholds, and under those of quiet hours
      for the criteria set on both sides. */
  lemma TightenedBadIff(c: Client, t: Thresholds, q: QuietHours, radios: seq<string>)
    ensures BadSample(c, Tighten(t, q), radios) <==>
              && BadSample(c, t, radios)
              && Suffers(c, Both(q.signalMax, t.signalMax), Both(q.txRateMax, t.txRateMax), Both(q.retryMax, t.retryMax))
  {
    BadSampleIff(c, t, radios);
    BadSampleIff(c, Tighten(t, q), radios);
    if q.retryMax.Some? && t.retryMax.Some? && c.txAttempts > 0 {
      RetryBreachInIntegers(c.txRetries, c.txAttempts, q.retryMax.value);
      RetryBreachInIntegers(c.txRetries, c.txAttempts, t.retryMax.value);
    }
  }

  /** The last n of these samples, n of them, are all bad. */
  ghost predicate TailIsBad(history: seq<Client>, n: nat, t: Thresholds, radios: seq<string>) {
    n <= |history| && forall k :: |history| - n <= k < |history| ==> BadSample(history[k], t, radios)
  }

  lemma TailIsBadIffWindowIs(history: seq<Client>, n: nat, t: Thresholds, radios: seq<string>)
    ensures |LastN(history, n)| >= n && BadState(LastN(history, n), t, radios)
            <==> n >= 1 && AnyActive(t) && TailIsBad(history, n, t, radios)
  {
    var window := LastN(history, n);
    LastNIsSuffix(history, n);
    if n <= |history| {
      var d := |history| - n;
      assert forall k :: 0 <= k < n ==> window[k] == history[d + k];
      assert forall k :: d <= k < |history| ==> history[k] == window[k - d];
    }
  }

  /** The quiet hours in force at this time of day, if any. */
  function QuietAt(config: Config, timeOfDay: nat): Option<QuietHours> {
    if config.quietHours.Some? && QuietHoursActive(timeOfDay, config.quietHours.value) then config.quietHours else None
  }

  /** A bad sample under thresholds and, while they last, quiet hours. */
  predicate BadUnder(c: Client, t: Thresholds, quiet: Option<QuietHours>, radios: seq<string>) {
    && c.radio in radios && c.apCuTotal >= t.cuMin
    && Suffers(c, t.signalMax, t.txRateMax, t.retryMax)
    && (quiet.Some? ==>
          var q := quiet.value;
          Suffers(c, Both(q.signalMax, t.signalMax), Both(q.txRateMax, t.txRateMax), Both(q.retryMax, t.retryMax)))
  }

  lemma BadInForceIff(c: Client, mac: Mac, config: Config, timeOfDay: nat)
    ensures BadSample(c, InForce(mac, config, timeOfDay), config.detection.radios) <==>
            BadUnder(c, ThresholdsFor(mac, config), QuietAt(config, timeOfDay), config.detection.radios)
  {
    BadSampleIff(c, ThresholdsFor(mac, config), config.detection.radios);
    if QuietAt(config, timeOfDay).Some? {
      TightenedBadIff(c, ThresholdsFor(mac, config), config.quietHours.value, config.detection.radios);
    }
  }

  /** The last n of these samples, n of them, are all bad there and then. */
  ghost predicate TailSuffers(
    history: seq<Client>, n: nat, t: Thresholds, quiet: Option<QuietHours>, radios: seq<string>)
  {
    n <= |history| && forall k :: |history| - n <= k < |history| ==> BadUnder(history[k], t, quiet, radios)
  }

  /** A sample is flagged exactly when its MAC is not allowlisted, some criterion is set, and its
      last W counted samples, the new one included, exist and are all bad under the MAC's thresholds
      and, if quiet hours are on now, under theirs. The flag says whether they are. */
  lemma {:induction false} FlaggedIffWholeWindowBad(initial: Config, stream: seq<Sample>, x: Sample)
    ensures var s := Reloaded(After(initial, stream), x.config);
            var mac := x.client.mac;
            var w := x.config.scanner.windowSamples;
            var t := ThresholdsFor(mac, x.config);
            var flag := FlagFor(s, x.client, x.timeOfDay);
            && (flag.Some? <==>
                  && NormalizeMac(mac) !in x.config.allowlist
                  && w >= 1 && (t.signalMax.Some? || t.txRateMax.Some? || t.retryMax.Some?)
                  && TailSuffers(Counted(initial, stream + [x], mac), w, t, QuietAt(x.config, x.timeOfDay),
                                 x.config.detection.radios))
            && (flag.Some? ==> (flag.value.quietHours <==> QuietAt(x.config, x.timeOfDay).Some?))
  {
    var longer := stream + [x];
    var mac, w := x.client.mac, x.config.scanner.windowSamples;
    var history := Counted(initial, longer, mac);
    assert longer[..|stream|] == stream && longer[|stream|] == x;
    WindowIsTail(initial, longer, mac);
    TailIsBadIffWindowIs(history, w, InForce(mac, x.config, x.timeOfDay), x.config.detection.radios);
    TailInForceIff(history, w, mac, x.config, x.timeOfDay);
    if QuietNow(x.config, x.timeOfDay) {
      TighteningKeepsCriteria(ThresholdsFor(mac, x.config), x.config.quietHours.value);
    }
  }

  lemma TailInForceIff(history: seq<Client>, n: nat, mac: Mac, config: Config, timeOfDay: nat)
    ensures TailIsBad(history, n, InForce(mac, config, timeOfDay), config.detection.radios) <==>
            TailSuffers(history, n, ThresholdsFor(mac, config), QuietAt(config, timeOfDay), config.detection.radios)
  {
    forall k | 0 <= k < |history|
      ensures BadSample(history[k], InForce(mac, config, timeOfDay), config.detection.radios) <==>
              BadUnder(history[k], ThresholdsFor(mac, config), QuietAt(config, timeOfDay), config.detection.radios)
    {
      BadInForceIff(history[k], mac, config, timeOfDay);
    }
  }

  // ---- quiet hours never add a kick ----

  /** Tightening neither disables nor re-enables a criterion. */
  lemma {:induction false} TighteningKeepsCriteria(t: Thresholds, q: QuietHours)
    ensures var out := Tighten(t, q);
            && (out.signalMax.Some? <==> t.signalMax.Some?)
            && (out.txRateMax.Some? <==> t.txRateMax.Some?)
            && (out.retryMax.Some? <==> t.retryMax.Some?)
            && out.cuMin == t.cuMin
  {
  }

  function WithoutQuiet(config: Config): Config { config.(quietHours := None) }

  function StreamWithoutQuiet(stream: seq<Sample>): (r: seq<Sample>)
    ensures |r| == |stream|
    ensures forall i :: 0 <= i < |stream| ==>
              r[i] == stream[i].(config := WithoutQuiet(stream[i].config))
  {
    seq(|stream|, i requires 0 <= i < |stream| => stream[i].(config := WithoutQuiet(stream[i].config)))
  }

  /** The sample windows do not depend on quiet hours at all. */
  lemma {:induction false} QuietHoursLeaveWindowsAlone(initial: Config, stream: seq<Sample>)
    ensures var s := After(initial, stream);
            After(WithoutQuiet(initial), StreamWithoutQuiet(stream)) == s.(config := WithoutQuiet(s.config))
  {
    if stream != [] {
      var n := |stream| - 1;
      QuietHoursLeaveWindowsAlone(initial, stream[..n]);
      assert StreamWithoutQuiet(stream)[..n] == StreamWithoutQuiet(stream[..n]);
    }
  }

  lemma TighteningKeepsBadState(samples: seq<Client>, t: Thresholds, q: QuietHours, radios: seq<string>)
    requires BadState(samples, Tighten(t, q), radios)
    ensures BadState(samples, t, radios)
  {
    TighteningKeepsCriteria(t, q);
    forall k | 0 <= k < |samples| ensures BadSample(samples[k], t, radios) {
      TightenedBadIff(samples[k], t, q, radios);
    }
  }

  lemma FlagSurvivesWithoutQuiet(s: State, c: Client, timeOfDay: nat)
    requires FlagFor(s, c, timeOfDay).Some?
    ensures FlagFor(s.(config := WithoutQuiet(s.config)), c, timeOfDay).Some?
  {
    var window := Window(Ingested(s, c), c.mac).items;
    assert Window(Ingested(s.(config := WithoutQuiet(s.config)), c), c.mac).items == window;
    var t := ThresholdsFor(c.mac, s.config);
    assert InForce(c.mac, WithoutQuiet(s.config), timeOfDay) == t;
    if QuietNow(s.config, timeOfDay) {
      TighteningKeepsBadState(window, t, s.config.quietHours.value, s.config.detection.radios);
    }
  }

  /** Running one scorer with quiet hours and one without on the same stream: at every step
      a flag of the first is a flag of the second. */
  lemma {:induction false} QuietHoursNeverAddAFlag(initial: Config, stream: seq<Sample>, x: Sample)
    requires FlagFor(Reloaded(After(initial, stream), x.config), x.client, x.timeOfDay).Some?
    ensures FlagFor(Reloaded(After(WithoutQuiet(initial), StreamWithoutQuiet(stream)), WithoutQuiet(x.config)),
                    x.client, x.timeOfDay).Some?
  {
    QuietHoursLeaveWindowsAlone(initial, stream);
    FlagSurvivesWithoutQuiet(Reloaded(After(initial, stream), x.config), x.client, x.timeOfDay);
  }
}
