/** Per-MAC resolution (override beats global) and the quiet-hours tightening. */
module Resolution {
  import opened Config

  function Or<T>(o: Option<T>, fallback: T): T {
    if o.Some? then o.value else fallback
  }

  /** The first row for `mac`, which is the only one thresholds and caps look at. */
  function FirstRow(rows: seq<Override>, mac: Mac): Option<Override> {
    if rows == [] then None
    else if rows[0].mac == mac then Some(rows[0])
    else FirstRow(rows[1..], mac)
  }

  function ThresholdsFor(mac: Mac, config: Config): Thresholds {
    var base := config.detection.thresholds;
    match FirstRow(config.overrides, mac)
    case None => base
    case Some(row) => Thresholds(
      if row.txRateMax.Some? then row.txRateMax else base.txRateMax,
      if row.retryMax.Some? then row.retryMax else base.retryMax,
      if row.signalMax.Some? then row.signalMax else base.signalMax,
      Or(row.cuMin, base.cuMin))
  }

  method ResolveThresholds(mac: Mac, config: Config) returns (resolved: Thresholds)
    ensures resolved == ThresholdsFor(mac, config)
  {
    resolved := config.detection.thresholds;
    var i := 0;
    while i < |config.overrides|
      invariant i <= |config.overrides|
      invariant resolved == config.detection.thresholds
      invariant FirstRow(config.overrides, mac) == FirstRow(config.overrides[i..], mac)
    {
      var row := config.overrides[i];
      if row.mac == mac {
        if row.txRateMax.Some? { resolved := resolved.(txRateMax := row.txRateMax); }
        if row.retryMax.Some? { resolved := resolved.(retryMax := row.retryMax); }
        if row.signalMax.Some? { resolved := resolved.(signalMax := row.signalMax); }
        if row.cuMin.Some? { resolved := resolved.(cuMin := row.cuMin.value); }
        return;
      }
      i := i + 1;
    }
  }

  predicate MacHasOverride(mac: Mac, config: Config) {
    exists row :: row in config.overrides && row.mac == mac
  }

  /** Unlike thresholds and caps, the mechanism comes from the first row for `mac` that
      sets one. */
  function MechanismIn(rows: seq<Override>, mac: Mac, fallback: Mechanism): Mechanism {
    if rows == [] then fallback
    else if rows[0].mac == mac && rows[0].kickMechanism.Some? then rows[0].kickMechanism.value
    else MechanismIn(rows[1..], mac, fallback)
  }

  function MechanismFor(mac: Mac, config: Config): Mechanism {
    MechanismIn(config.overrides, mac, config.scanner.kickMechanism)
  }

  function CapsFor(mac: Mac, config: Config): (nat, nat) {
    match FirstRow(config.overrides, mac)
    case None => (config.backoff.maxPerHour, config.backoff.maxPerDay)
    case Some(row) => (Or(row.maxPerHour, config.backoff.maxPerHour),
                       Or(row.maxPerDay, config.backoff.maxPerDay))
  }

  method ResolveCaps(mac: Mac, config: Config) returns (maxHour: nat, maxDay: nat)
    ensures (maxHour, maxDay) == CapsFor(mac, config)
  {
    maxHour, maxDay := config.backoff.maxPerHour, config.backoff.maxPerDay;
    var i := 0;
    while i < |config.overrides|
      invariant i <= |config.overrides|
      invariant maxHour == config.backoff.maxPerHour && maxDay == config.backoff.maxPerDay
      invariant FirstRow(config.overrides, mac) == FirstRow(config.overrides[i..], mac)
    {
      var row := config.overrides[i];
      if row.mac == mac {
        if row.maxPerHour.Some? { maxHour := row.maxPerHour.value; }
        if row.maxPerDay.Some? { maxDay := row.maxPerDay.value; }
        return;
      }
      i := i + 1;
    }
  }

  function DnsMaxIn(rows: seq<Override>, mac: Mac, fallback: nat): nat {
    if rows == [] then fallback
    else if rows[0].mac == mac && rows[0].dnsSameDomainQueriesMax.Some? then
      rows[0].dnsSameDomainQueriesMax.value
    else DnsMaxIn(rows[1..], mac, fallback)
  }

  function DnsMaxFor(mac: Mac, config: Config): nat {
    DnsMaxIn(config.overrides, mac, config.detection.dnsThrash.sameDomainQueriesMax)
  }

  // ---- which row governs, by its place in the list ----

  /** Row k is the first one for this MAC. */
  ghost predicate FirstRowAt(rows: seq<Override>, mac: Mac, k: int) {
    0 <= k < |rows| && rows[k].mac == mac && forall i :: 0 <= i < k ==> rows[i].mac != mac
  }

  ghost predicate NoRowFor(rows: seq<Override>, mac: Mac) {
    forall i :: 0 <= i < |rows| ==> rows[i].mac != mac
  }

  lemma {:induction false} FirstRowIsAt(rows: seq<Override>, mac: Mac, k: nat)
    requires FirstRowAt(rows, mac, k)
    ensures FirstRow(rows, mac) == Some(rows[k])
  {
    if k > 0 {
      assert FirstRowAt(rows[1..], mac, k - 1);
      FirstRowIsAt(rows[1..], mac, k - 1);
    }
  }

  lemma {:induction false} NoRowIsNone(rows: seq<Override>, mac: Mac)
    requires NoRowFor(rows, mac)
    ensures FirstRow(rows, mac) == None
  {
    if rows != [] {
      NoRowIsNone(rows[1..], mac);
    }
  }

  /** A field of the governing row, or the global value where it is left unset. */
  ghost predicate Takes<T>(resolved: T, own: Option<T>, inherited: T) {
    (own.Some? ==> resolved == own.value) && (own.None? ==> resolved == inherited)
  }

  /** The same for a criterion that may be disabled: a row can set it and not disable it. */
  ghost predicate TakesCriterion(resolved: Option<int>, own: Option<int>, inherited: Option<int>) {
    (own.Some? ==> resolved == own) && (own.None? ==> resolved == inherited)
  }

  /** The first row of a MAC governs its thresholds and its caps, field by field; no later row
      and no row of another MAC does. */
  lemma {:induction false} FirstRowGoverns(config: Config, mac: Mac, k: nat)
    requires FirstRowAt(config.overrides, mac, k)
    ensures var row, base, t := config.overrides[k], config.detection.thresholds, ThresholdsFor(mac, config);
            && TakesCriterion(t.txRateMax, row.txRateMax, base.txRateMax)
            && TakesCriterion(t.retryMax, row.retryMax, base.retryMax)
            && TakesCriterion(t.signalMax, row.signalMax, base.signalMax)
            && Takes(t.cuMin, row.cuMin, base.cuMin)
    ensures Takes(CapsFor(mac, config).0, config.overrides[k].maxPerHour, config.backoff.maxPerHour)
    ensures Takes(CapsFor(mac, config).1, config.overrides[k].maxPerDay, config.backoff.maxPerDay)
  {
    FirstRowIsAt(config.overrides, mac, k);
  }

  /** A MAC without a row gets the global values. */
  lemma {:induction false} NoRowInherits(config: Config, mac: Mac)
    requires NoRowFor(config.overrides, mac)
    ensures ThresholdsFor(mac, config) == config.detection.thresholds
    ensures CapsFor(mac, config) == (config.backoff.maxPerHour, config.backoff.maxPerDay)
    ensures MechanismFor(mac, config) == config.scanner.kickMechanism
    ensures DnsMaxFor(mac, config) == config.detection.dnsThrash.sameDomainQueriesMax
  {
    NoRowIsNone(config.overrides, mac);
    NoneSetsMechanism(config.overrides, mac, config.scanner.kickMechanism);
    NoneSetsDnsMax(config.overrides, mac, config.detection.dnsThrash.sameDomainQueriesMax);
  }

  /** Row k is the first one for this MAC that sets a mechanism: an earlier row that sets none
      does not stand in its way. */
  ghost predicate SetsMechanismAt(rows: seq<Override>, mac: Mac, k: int) {
    && 0 <= k < |rows| && rows[k].mac == mac && rows[k].kickMechanism.Some?
    && forall i :: 0 <= i < k && rows[i].mac == mac ==> rows[i].kickMechanism.None?
  }

  ghost predicate NoneSetMechanism(rows: seq<Override>, mac: Mac) {
    forall i :: 0 <= i < |rows| && rows[i].mac == mac ==> rows[i].kickMechanism.None?
  }

  lemma {:induction false} NoneSetsMechanism(rows: seq<Override>, mac: Mac, fallback: Mechanism)
    requires NoneSetMechanism(rows, mac)
    ensures MechanismIn(rows, mac, fallback) == fallback
  {
    if rows != [] {
      NoneSetsMechanism(rows[1..], mac, fallback);
    }
  }

  lemma {:induction false} MechanismIsAt(rows: seq<Override>, mac: Mac, fallback: Mechanism, k: nat)
    requires SetsMechanismAt(rows, mac, k)
    ensures Some(MechanismIn(rows, mac, fallback)) == rows[k].kickMechanism
  {
    if k > 0 {
      assert SetsMechanismAt(rows[1..], mac, k - 1);
      MechanismIsAt(rows[1..], mac, fallback, k - 1);
    }
  }

  /** The mechanism is that of the first row of the MAC that sets one, else the global one. */
  lemma {:induction false} FirstMechanismGoverns(config: Config, mac: Mac, k: nat)
    ensures SetsMechanismAt(config.overrides, mac, k) ==>
              Some(MechanismFor(mac, config)) == config.overrides[k].kickMechanism
    ensures NoneSetMechanism(config.overrides, mac) ==> MechanismFor(mac, config) == config.scanner.kickMechanism
  {
    if SetsMechanismAt(config.overrides, mac, k) {
      MechanismIsAt(config.overrides, mac, config.scanner.kickMechanism, k);
    }
    if NoneSetMechanism(config.overrides, mac) {
      NoneSetsMechanism(config.overrides, mac, config.scanner.kickMechanism);
    }
  }

  ghost predicate SetsDnsMaxAt(rows: seq<Override>, mac: Mac, k: int) {
    && 0 <= k < |rows| && rows[k].mac == mac && rows[k].dnsSameDomainQueriesMax.Some?
    && forall i :: 0 <= i < k && rows[i].mac == mac ==> rows[i].dnsSameDomainQueriesMax.None?
  }

  ghost predicate NoneSetDnsMax(rows: seq<Override>, mac: Mac) {
    forall i :: 0 <= i < |rows| && rows[i].mac == mac ==> rows[i].dnsSameDomainQueriesMax.None?
  }

  lemma {:induction false} NoneSetsDnsMax(rows: seq<Override>, mac: Mac, fallback: nat)
    requires NoneSetDnsMax(rows, mac)
    ensures DnsMaxIn(rows, mac, fallback) == fallback
  {
    if rows != [] {
      NoneSetsDnsMax(rows[1..], mac, fallback);
    }
  }

  lemma {:induction false} DnsMaxIsAt(rows: seq<Override>, mac: Mac, fallback: nat, k: nat)
    requires SetsDnsMaxAt(rows, mac, k)
    ensures Some(DnsMaxIn(rows, mac, fallback)) == rows[k].dnsSameDomainQueriesMax
  {
    if k > 0 {
      assert SetsDnsMaxAt(rows[1..], mac, k - 1);
      DnsMaxIsAt(rows[1..], mac, fallback, k - 1);
    }
  }

  /** So for the DNS threshold: the first row of the MAC that sets one, else the global one. */
  lemma {:induction false} FirstDnsMaxGoverns(config: Config, mac: Mac, k: nat)
    ensures SetsDnsMaxAt(config.overrides, mac, k) ==>
              Some(DnsMaxFor(mac, config)) == config.overrides[k].dnsSameDomainQueriesMax
    ensures NoneSetDnsMax(config.overrides, mac) ==>
              DnsMaxFor(mac, config) == config.detection.dnsThrash.sameDomainQueriesMax
  {
    if SetsDnsMaxAt(config.overrides, mac, k) {
      DnsMaxIsAt(config.overrides, mac, config.detection.dnsThrash.sameDomainQueriesMax, k);
    }
    if NoneSetDnsMax(config.overrides, mac) {
      NoneSetsDnsMax(config.overrides, mac, config.detection.dnsThrash.sameDomainQueriesMax);
    }
  }

  /** Every MAC has a governing row or none. */
  lemma {:induction false} RowOrNone(rows: seq<Override>, mac: Mac) returns (k: nat)
    ensures FirstRowAt(rows, mac, k) || NoRowFor(rows, mac)
  {
    k := 0;
    while k < |rows| && rows[k].mac != mac
      invariant k <= |rows| && forall i :: 0 <= i < k ==> rows[i].mac != mac
    {
      k := k + 1;
    }
  }

  // ---- quiet hours ----

  const DAY_LENGTH: nat := 86400000000  // microseconds: the resolution of a time of day

  /** [start, end) on the clock face, wrapping midnight when start is after end. */
  predicate QuietHoursActive(timeOfDay: nat, q: QuietHours) {
    if q.start <= q.end then q.start <= timeOfDay < q.end
    else timeOfDay >= q.start || timeOfDay < q.end
  }

  /** The window is an arc of the clock face: `timeOfDay` lies in it exactly when it is
      fewer steps clockwise from `start` than `end` is. Equal ends give an empty window. */
  lemma QuietHoursIsAnArc(timeOfDay: nat, q: QuietHours)
    requires timeOfDay < DAY_LENGTH && q.start < DAY_LENGTH && q.end < DAY_LENGTH
    ensures QuietHoursActive(timeOfDay, q) <==>
            (timeOfDay - q.start) % DAY_LENGTH < (q.end - q.start) % DAY_LENGTH
  {
  }

  function Min(a: int, b: int): int { if a <= b then a else b }
  function Max(a: int, b: int): int { if a >= b then a else b }

  /** Tightening touches only criteria active on both sides. */
  function Tighten(t: Thresholds, q: QuietHours): Thresholds {
    t.(txRateMax := if q.txRateMax.Some? && t.txRateMax.Some?
                    then Some(Min(t.txRateMax.value, q.txRateMax.value)) else t.txRateMax,
       retryMax := if q.retryMax.Some? && t.retryMax.Some?
                   then Some(Max(t.retryMax.value, q.retryMax.value)) else t.retryMax,
       signalMax := if q.signalMax.Some? && t.signalMax.Some?
                    then Some(Min(t.signalMax.value, q.signalMax.value)) else t.signalMax)
  }

  method ApplyQuietHours(t: Thresholds, q: QuietHours) returns (out: Thresholds)
    ensures out == Tighten(t, q)
  {
    out := t;
    if q.txRateMax.Some? && out.txRateMax.Some? {
      out := out.(txRateMax := Some(Min(out.txRateMax.value, q.txRateMax.value)));
    }
    if q.retryMax.Some? && out.retryMax.Some? {
      out := out.(retryMax := Some(Max(out.retryMax.value, q.retryMax.value)));
    }
    if q.signalMax.Some? && out.signalMax.Some? {
      out := out.(signalMax := Some(Min(out.signalMax.value, q.signalMax.value)));
    }
  }
}
