/** The traffic-inactivity detector: a bounded window of byte-counter deltas per opted-in MAC.

    The window is proved against a reference that keeps the counter totals themselves, so that
    a flag is a statement about two readings W usable samples apart. */
module Inactivity {
  import opened Config
  import opened BoundedDeque

  datatype Flag = Flag(windowBytes: int, minBytesPerWindow: nat, windowSamples: nat)

  datatype State = State(config: Config, prev: map<Mac, int>, windows: map<Mac, Deque<int>>)

  function Knobs(config: Config): InactivityConfig { config.detection.inactivity }

  /** Enabled, opted in and not allowlisted. */
  predicate Watched(c: Client, config: Config) {
    && Knobs(config).enabled
    && c.CanonicalMac() !in config.allowlist
    && c.CanonicalMac() in Knobs(config).macs
  }

  /** Both counters, or no reading at all. */
  function Total(c: Client): Option<int> {
    if c.txBytes.Some? && c.rxBytes.Some? then Some(c.txBytes.value + c.rxBytes.value) else None
  }

  function Sum(s: seq<int>): int {
    if s == [] then 0 else Sum(s[..|s| - 1]) + s[|s| - 1]
  }

  // ---- one MAC ----

  datatype Cell = Cell(prev: Option<int>, window: Deque<int>)

  function Empty(w: nat): Deque<int> { Deque([], w) }

  /** A full window below the floor. */
  predicate Flat(window: Deque<int>, minBytes: nat) {
    |window.items| >= window.maxlen && Sum(window.items) < minBytes
  }

  /** `w` is the limit a window created now would get. */
  function CellAfter(cell: Cell, total: Option<int>, w: nat, minBytes: nat): Cell {
    if total.None? then Cell(None, Empty(w))
    else if cell.prev.None? then cell.(prev := total)
    else if total.value < cell.prev.value then Cell(total, Empty(w))
    else
      var window := Appended(cell.window, total.value - cell.prev.value);
      Cell(total, if Flat(window, minBytes) then Empty(w) else window)
  }

  /** A flag carries the window's sum and its own limit. */
  function CellFlag(cell: Cell, total: Option<int>, minBytes: nat): Option<Flag> {
    if total.None? || cell.prev.None? || total.value < cell.prev.value then None
    else
      var window := Appended(cell.window, total.value - cell.prev.value);
      if Flat(window, minBytes) then Some(Flag(Sum(window.items), minBytes, window.maxlen)) else None
  }

  // ---- the detector ----

  function CellOf(s: State, mac: Mac): Cell {
    Cell(if mac in s.prev then Some(s.prev[mac]) else None,
         if mac in s.windows then s.windows[mac] else Empty(Knobs(s.config).windowSamples))
  }

  /** A reading's effect on the two dictionaries. */
  function Observed(s: State, mac: Mac, total: Option<int>): State {
    var k := Knobs(s.config);
    if total.None? then s.(prev := s.prev - {mac}, windows := s.windows - {mac})
    else
      var recorded := s.(prev := s.prev[mac := total.value]);
      if mac !in s.prev then recorded
      else if total.value < s.prev[mac] then recorded.(windows := s.windows - {mac})
      else
        var window := Appended(CellOf(s, mac).window, total.value - s.prev[mac]);
        recorded.(windows := if Flat(window, k.minBytesPerWindow)
                             then s.windows - {mac} else s.windows[mac := window])
  }

  function Ingested(s: State, c: Client): State {
    if Watched(c, s.config) then Observed(s, c.CanonicalMac(), Total(c)) else s
  }

  /** The dictionaries hold one cell per MAC, and a reading touches only its own. */
  lemma {:induction false} ObservedCell(s: State, mac: Mac, total: Option<int>, other: Mac)
    ensures CellOf(Observed(s, mac, total), other)
         == if other == mac
            then CellAfter(CellOf(s, mac), total, Knobs(s.config).windowSamples, Knobs(s.config).minBytesPerWindow)
            else CellOf(s, other)
  {
  }

  function FlagFor(s: State, c: Client): Option<Flag> {
    if Watched(c, s.config)
    then CellFlag(CellOf(s, c.CanonicalMac()), Total(c), Knobs(s.config).minBytesPerWindow) else None
  }

  function Reloaded(s: State, config: Config): State {
    if Knobs(s.config).windowSamples != Knobs(config).windowSamples then State(config, map[], map[])
    else s.(config := config)
  }

  method SumOf(window: seq<int>) returns (total: int)
    ensures total == Sum(window)
  {
    total := 0;
    for i := 0 to |window|
      invariant total == Sum(window[..i])
    {
      assert window[..i + 1][..i] == window[..i];
      total := total + window[i];
    }
    assert window[..|window|] == window;
  }

  class InactivityScorer {
    var config: Config
    var prev: map<Mac, int>
    var windows: map<Mac, Deque<int>>

    function Model(): State reads this { State(config, prev, windows) }

    constructor (config: Config)
      ensures Model() == State(config, map[], map[])
    {
      this.config := config;
      prev, windows := map[], map[];
    }

    method Clear(mac: Mac)
      modifies this`prev, this`windows
      ensures prev == old(prev) - {mac} && windows == old(windows) - {mac}
    {
      prev := prev - {mac};
      windows := windows - {mac};
    }

    method Ingest(client: Client) returns (decision: Option<Flag>)
      modifies this`prev, this`windows
      ensures Model() == Ingested(old(Model()), client)
      ensures decision == FlagFor(old(Model()), client)
    {
      var cfg := config.detection.inactivity;
      if !cfg.enabled { return None; }
      var mac := client.CanonicalMac();
      if mac in config.allowlist { return None; }
      if mac !in cfg.macs { return None; }
      decision := Observe(mac, client.txBytes, client.rxBytes);
    }

    /** The watched path: gap, baseline, counter reset, or a delta for the window. */
    method Observe(mac: Mac, tx: Option<int>, rx: Option<int>) returns (flagged: Option<Flag>)
      modifies this`prev, this`windows
      ensures var total := if tx.Some? && rx.Some? then Some(tx.value + rx.value) else None;
              && Model() == Observed(old(Model()), mac, total)
              && flagged == CellFlag(CellOf(old(Model()), mac), total, Knobs(config).minBytesPerWindow)
    {
      if tx.None? || rx.None? {
        Clear(mac);
        return None;
      }
      var total := tx.value + rx.value;
      var before: Option<int> := None;
      if mac in prev { before := Some(prev[mac]); }
      prev := prev[mac := total];
      if before.None? { return None; }
      var delta := total - before.value;
      if delta < 0 {
        windows := windows - {mac};
        return None;
      }
      flagged := Append(mac, delta);
    }

    /** Append to the bounded window; a full window below the floor is reported and dropped. */
    method Append(mac: Mac, delta: int) returns (flagged: Option<Flag>)
      modifies this`windows
      ensures var window := Appended(CellOf(old(Model()), mac).window, delta);
              var minBytes := Knobs(config).minBytesPerWindow;
              if Flat(window, minBytes)
              then windows == old(windows) - {mac}
                   && flagged == Some(Flag(Sum(window.items), minBytes, window.maxlen))
              else windows == old(windows)[mac := window] && flagged == None
    {
      var cfg := config.detection.inactivity;
      var window := Empty(cfg.windowSamples);
      if mac in windows { window := windows[mac]; }
      window := Appended(window, delta);
      windows := windows[mac := window];
      if |window.items| < window.maxlen { return None; }
      var totalBytes := SumOf(window.items);
      if totalBytes < cfg.minBytesPerWindow {
        windows := windows - {mac};
        return Some(Flag(totalBytes, cfg.minBytesPerWindow, window.maxlen));
      }
      return None;
    }
  }

  // ---- the reference: counter totals since the last reset, gap or flag ----

  /** The operator enabled the detector and listed this client for it, and did not allowlist it. */
  ghost predicate OptedIn(c: Client, config: Config) {
    var watch := config.detection.inactivity.macs;
    && config.detection.inactivity.enabled
    && (exists k :: 0 <= k < |watch| && watch[k] == NormalizeMac(c.mac))
    && (forall k :: 0 <= k < |config.allowlist| ==> config.allowlist[k] != NormalizeMac(c.mac))
  }

  /** What the controller reports of the client's traffic: bytes both ways, if it reports both. */
  function Counters(c: Client): Option<int> {
    match (c.txBytes, c.rxBytes)
    case (Some(tx), Some(rx)) => Some(tx + rx)
    case _ => None
  }

  lemma {:induction false} SeesOptedIn(c: Client, config: Config)
    ensures Watched(c, config) <==> OptedIn(c, config)
    ensures Total(c) == Counters(c)
  {
  }

  /** A reading that flags: at least W readings back, the counter was less than `minBytes`
      below. */
  predicate Flatlined(totals: seq<int>, w: nat, minBytes: nat) {
    |totals| > w && totals[|totals| - 1] - totals[|totals| - 1 - w] < minBytes
  }

  /** Totals with a new reading, restarting at a gap or when the counter falls. */
  function Extended(totals: seq<int>, total: Option<int>): seq<int> {
    if total.None? then []
    else if totals != [] && total.value < totals[|totals| - 1] then [total.value]
    else totals + [total.value]
  }

  /** A first reading is a baseline, never a flag. */
  predicate RefFlags(totals: seq<int>, total: Option<int>, w: nat, minBytes: nat) {
    var t := Extended(totals, total);
    totals != [] && |t| > 1 && Flatlined(t, w, minBytes)
  }

  /** A flag starts over from the flagged reading. */
  function RefAfter(totals: seq<int>, total: Option<int>, w: nat, minBytes: nat): seq<int> {
    var t := Extended(totals, total);
    if RefFlags(totals, total, w, minBytes) then [t[|t| - 1]] else t
  }

  /** Successive differences. */
  function Deltas(totals: seq<int>): (r: seq<int>)
    ensures |r| == if totals == [] then 0 else |totals| - 1
  {
    if |totals| <= 1 then [] else
      var n := |totals| - 1;
      Deltas(totals[..n]) + [totals[n] - totals[n - 1]]
  }

  /** The cell holds the newest total and the last W differences, in a window limited to W. */
  ghost predicate Matches(cell: Cell, totals: seq<int>, w: nat) {
    && cell.prev == (if totals == [] then None else Some(totals[|totals| - 1]))
    && cell.window == Deque(LastN(Deltas(totals), w), w)
  }

  /** One more delta: the longer tail is the shorter one of the totals before, and the new rise. */
  lemma {:induction false} TailGrows(totals: seq<int>, k: nat)
    requires 0 < k < |totals|
    ensures var n := |totals| - 1;
            LastN(Deltas(totals), k) == LastN(Deltas(totals[..n]), k - 1) + [totals[n] - totals[n - 1]]
  {
    var n := |totals| - 1;
    LastNIsSuffix(Deltas(totals), k);
    LastNIsSuffix(Deltas(totals[..n]), k - 1);
  }

  /** The telescoping sum: the window adds up to the rise over the last k readings. */
  lemma {:induction false} WindowTelescopes(totals: seq<int>, k: nat)
    requires k < |totals|
    ensures Sum(LastN(Deltas(totals), k)) == totals[|totals| - 1] - totals[|totals| - 1 - k]
  {
    if k > 0 {
      var n := |totals| - 1;
      WindowTelescopes(totals[..n], k - 1);
      TailGrows(totals, k);
    } else {
      assert LastN(Deltas(totals), 0) == [];
    }
  }

  lemma {:induction false} ReadingMatches(cell: Cell, totals: seq<int>, total: int, w: nat)
    requires Matches(cell, totals, w) && totals != [] && total >= totals[|totals| - 1]
    ensures Appended(cell.window, total - cell.prev.value) == Deque(LastN(Deltas(totals + [total]), w), w)
  {
    var longer := totals + [total];
    assert longer[..|totals|] == totals;
    assert Deltas(longer) == Deltas(totals) + [total - cell.prev.value];
    AppendedKeepsTail(Deltas(totals), total - cell.prev.value, w);
  }

  /** The full-window test on the deltas is the flatline test on the totals. */
  lemma {:induction false} WindowTestIsFlatline(totals: seq<int>, w: nat, minBytes: nat)
    requires |totals| > 1
    ensures Flat(Deque(LastN(Deltas(totals), w), w), minBytes) <==> Flatlined(totals, w, minBytes)
  {
    if w < |totals| {
      WindowTelescopes(totals, w);
    }
  }

  /** The flag of a flatline: the rise over the last W readings, the floor, and W. */
  function FlatFlag(totals: seq<int>, w: nat, minBytes: nat): Flag
    requires |totals| > w
  {
    Flag(totals[|totals| - 1] - totals[|totals| - 1 - w], minBytes, w)
  }

  /** A reading that continues the segment flags on both sides or on neither. */
  lemma {:induction false} RisingReadingFlags(cell: Cell, totals: seq<int>, total: int, w: nat, minBytes: nat)
    requires Matches(cell, totals, w) && totals != [] && total >= totals[|totals| - 1]
    ensures var longer := totals + [total];
            && Appended(cell.window, total - cell.prev.value) == Deque(LastN(Deltas(longer), w), w)
            && (CellFlag(cell, Some(total), minBytes).Some? <==> Flatlined(longer, w, minBytes))
  {
    var longer := totals + [total];
    var window := Appended(cell.window, total - cell.prev.value);
    ReadingMatches(cell, totals, total, w);
    WindowTestIsFlatline(longer, w, minBytes);
    assert CellFlag(cell, Some(total), minBytes).Some? <==> Flat(window, minBytes);
  }

  lemma {:induction false} RisingReferenceFlags(totals: seq<int>, total: int, w: nat, minBytes: nat)
    requires totals != [] && total >= totals[|totals| - 1]
    ensures RefFlags(totals, Some(total), w, minBytes) <==> Flatlined(totals + [total], w, minBytes)
  {
  }

  lemma {:induction false} FlagOfWindow(cell: Cell, total: int, minBytes: nat)
    requires CellFlag(cell, Some(total), minBytes).Some?
    ensures cell.prev.Some?
    ensures var window := Appended(cell.window, total - cell.prev.value);
            CellFlag(cell, Some(total), minBytes) == Some(Flag(Sum(window.items), minBytes, window.maxlen))
  {
  }

  lemma {:induction false} FlatFlagIsSum(totals: seq<int>, w: nat, minBytes: nat)
    requires |totals| > w
    ensures FlatFlag(totals, w, minBytes) == Flag(Sum(LastN(Deltas(totals), w)), minBytes, w)
  {
    WindowTelescopes(totals, w);
  }

  lemma {:induction false} RisingFlagSays(cell: Cell, totals: seq<int>, total: int, w: nat, minBytes: nat)
    requires Matches(cell, totals, w) && totals != [] && total >= totals[|totals| - 1]
    requires CellFlag(cell, Some(total), minBytes).Some? && |totals + [total]| > w
    ensures CellFlag(cell, Some(total), minBytes) == Some(FlatFlag(totals + [total], w, minBytes))
  {
    FlagOfWindow(cell, total, minBytes);
    ReadingMatches(cell, totals, total, w);
    FlatFlagIsSum(totals + [total], w, minBytes);
  }

  /** One reading: the bounded window flags exactly when the reference does, and goes on
      matching it. */
  lemma {:induction false} CellRefinesTotals(cell: Cell, totals: seq<int>, total: Option<int>, w: nat, minBytes: nat)
    requires Matches(cell, totals, w)
    ensures CellFlag(cell, total, minBytes).Some? <==> RefFlags(totals, total, w, minBytes)
    ensures RefFlags(totals, total, w, minBytes) ==>
              CellFlag(cell, total, minBytes) == Some(FlatFlag(Extended(totals, total), w, minBytes))
    ensures Matches(CellAfter(cell, total, w, minBytes), RefAfter(totals, total, w, minBytes), w)
  {
    if total.Some? && totals != [] && total.value >= totals[|totals| - 1] {
      RisingReadingFlags(cell, totals, total.value, w, minBytes);
      RisingReferenceFlags(totals, total.value, w, minBytes);
      if RefFlags(totals, total, w, minBytes) {
        RisingFlagSays(cell, totals, total.value, w, minBytes);
      }
    } else {
      assert Deltas(RefAfter(totals, total, w, minBytes)) == [];
      assert cell.window == Empty(w) || totals != [];
    }
  }

  // ---- whole streams ----

  datatype Sample = Sample(client: Client, config: Config)

  predicate Steps(s: State, x: Sample, next: State) {
    next == Ingested(Reloaded(s, x.config), x.client)
  }

  /** A stream of samples and the detector states around them. */
  ghost predicate Ran(states: seq<State>, stream: seq<Sample>) {
    && |states| == |stream| + 1
    && states[0].prev == map[] && states[0].windows == map[]
    && forall k :: 0 <= k < |stream| ==> Steps(states[k], stream[k], states[k + 1])
  }

  /** The configuration in force before sample k. */
  function ConfigBefore(initial: Config, stream: seq<Sample>, k: nat): Config
    requires k <= |stream|
  {
    if k == 0 then initial else stream[k - 1].config
  }

  /** This MAC's reference totals after k samples: unwatched samples are skipped, and a change
      of window size starts over. */
  ghost function Totals(initial: Config, stream: seq<Sample>, k: nat, mac: Mac): seq<int>
    requires k <= |stream|
    decreases k, 0
  {
    if k == 0 then [] else
      NextTotals(Carried(initial, stream, k - 1, mac), stream[k - 1], mac)
  }

  /** The totals sample k finds. */
  ghost function Carried(initial: Config, stream: seq<Sample>, k: nat, mac: Mac): seq<int>
    requires k < |stream|
    decreases k, 1
  {
    if Knobs(ConfigBefore(initial, stream, k)).windowSamples != Knobs(stream[k].config).windowSamples
    then [] else Totals(initial, stream, k, mac)
  }

  ghost function NextTotals(totals: seq<int>, x: Sample, mac: Mac): seq<int> {
    if NormalizeMac(x.client.mac) == mac && OptedIn(x.client, x.config)
    then RefAfter(totals, Counters(x.client), Knobs(x.config).windowSamples, Knobs(x.config).minBytesPerWindow)
    else totals
  }

  lemma {:induction false} IngestRefines(s: State, x: Sample, mac: Mac, totals: seq<int>)
    requires s.config == x.config && Matches(CellOf(s, mac), totals, Knobs(x.config).windowSamples)
    ensures Matches(CellOf(Ingested(s, x.client), mac), NextTotals(totals, x, mac), Knobs(x.config).windowSamples)
  {
    SeesOptedIn(x.client, x.config);
    if OptedIn(x.client, x.config) {
      ObservedCell(s, x.client.CanonicalMac(), Counters(x.client), mac);
      CellRefinesTotals(CellOf(s, mac), totals, Counters(x.client),
                        Knobs(x.config).windowSamples, Knobs(x.config).minBytesPerWindow);
    }
  }

  lemma {:induction false} DetectorRefinesTotals(states: seq<State>, stream: seq<Sample>, k: nat, mac: Mac)
    requires Ran(states, stream) && k <= |stream|
    ensures states[k].config == ConfigBefore(states[0].config, stream, k)
    ensures Matches(CellOf(states[k], mac), Totals(states[0].config, stream, k, mac),
                    Knobs(states[k].config).windowSamples)
  {
    if k > 0 {
      DetectorRefinesTotals(states, stream, k - 1, mac);
      assert Steps(states[k - 1], stream[k - 1], states[k]);
      IngestRefines(Reloaded(states[k - 1], stream[k - 1].config), stream[k - 1], mac,
                    Carried(states[0].config, stream, k - 1, mac));
    }
  }

  /** A sample is flagged exactly when its client is opted in and its last W + 1 totals since the
      last reset, gap or flag, the new one included, exist and rise by less than the floor; the flag
      says by how much. */
  lemma {:induction false} FlaggedIffFlatlined(states: seq<State>, stream: seq<Sample>, k: nat)
    requires Ran(states, stream) && k < |stream|
    ensures var x := stream[k];
            var mac := NormalizeMac(x.client.mac);
            var before := Carried(states[0].config, stream, k, mac);
            var w, floor := x.config.detection.inactivity.windowSamples, x.config.detection.inactivity.minBytesPerWindow;
            var flag := FlagFor(Reloaded(states[k], x.config), x.client);
            && (flag.Some? <==> OptedIn(x.client, x.config) && RefFlags(before, Counters(x.client), w, floor))
            && (flag.Some? ==> flag.value == FlatFlag(Extended(before, Counters(x.client)), w, floor))
  {
    var x := stream[k];
    var mac := NormalizeMac(x.client.mac);
    SeesOptedIn(x.client, x.config);
    DetectorRefinesTotals(states, stream, k, mac);
    var s := Reloaded(states[k], x.config);
    var before := Carried(states[0].config, stream, k, mac);
    CellRefinesTotals(CellOf(s, mac), before, Counters(x.client),
                      Knobs(x.config).windowSamples, Knobs(x.config).minBytesPerWindow);
  }

  ghost predicate FlaggedAt(states: seq<State>, stream: seq<Sample>, k: nat, mac: Mac)
    requires Ran(states, stream)
  {
    k < |stream| && stream[k].client.CanonicalMac() == mac
    && FlagFor(Reloaded(states[k], stream[k].config), stream[k].client).Some?
  }

  /** A sample of this MAC that the detector reads: watched, with both counters. */
  ghost predicate Usable(x: Sample, mac: Mac) {
    NormalizeMac(x.client.mac) == mac && OptedIn(x.client, x.config) && Counters(x.client).Some?
  }

  /** This MAC's usable samples at positions from `lo` up to, not including, `hi`. */
  ghost function UsableIn(stream: seq<Sample>, lo: nat, hi: nat, mac: Mac): nat
    requires hi <= |stream|
  {
    if hi <= lo then 0 else UsableIn(stream, lo, hi - 1, mac) + (if Usable(stream[hi - 1], mac) then 1 else 0)
  }

  lemma {:induction false} FlagLeavesOneTotal(states: seq<State>, stream: seq<Sample>, a: nat, mac: Mac)
    requires Ran(states, stream) && FlaggedAt(states, stream, a, mac)
    ensures |Totals(states[0].config, stream, a + 1, mac)| == 1
  {
    FlaggedIffFlatlined(states, stream, a);
  }

  lemma {:induction false} TotalsGrowSlowly(initial: Config, stream: seq<Sample>, a: nat, k: nat, mac: Mac)
    requires a < k <= |stream| && |Totals(initial, stream, a + 1, mac)| <= 1
    ensures |Totals(initial, stream, k, mac)| <= 1 + UsableIn(stream, a + 1, k, mac)
  {
    if k > a + 1 {
      TotalsGrowSlowly(initial, stream, a, k - 1, mac);
    }
  }

  ghost predicate Rising(totals: seq<int>) {
    forall i :: 0 < i < |totals| ==> totals[i - 1] <= totals[i]
  }

  /** The totals of a segment never fall. */
  lemma {:induction false} TotalsNeverFall(initial: Config, stream: seq<Sample>, k: nat, mac: Mac)
    requires k <= |stream|
    ensures Rising(Totals(initial, stream, k, mac))
  {
    if k > 0 {
      TotalsNeverFall(initial, stream, k - 1, mac);
    }
  }

  /** Two flags of one MAC are at least W of its own usable samples apart, the later flag's
      sample included, however many samples of other clients lie between. */
  lemma {:induction false} FlagsAreAWindowApart(states: seq<State>, stream: seq<Sample>, a: nat, b: nat, mac: Mac)
    requires Ran(states, stream) && a < b
    requires FlaggedAt(states, stream, a, mac) && FlaggedAt(states, stream, b, mac)
    ensures UsableIn(stream, a + 1, b + 1, mac) >= Knobs(stream[b].config).windowSamples
  {
    FlagLeavesOneTotal(states, stream, a, mac);
    TotalsGrowSlowly(states[0].config, stream, a, b, mac);
    FlaggedIffFlatlined(states, stream, b);
  }
}
