/** The daemon's configuration and the client snapshots it acts on, as values.
    `Seconds` is what the loader guarantees of every duration: non-negative. */
module Config {

  type Mac = string
  type Ap = string
  type Seconds = r: real | r >= 0.0 witness 0.0

  datatype Option<+T> = None | Some(value: T)

  datatype Mechanism = Deauth | Btm | Auto

  datatype InactivityConfig = InactivityConfig(
    enabled: bool, minBytesPerWindow: nat, windowSamples: nat, macs: seq<Mac>)
  {
    /** The loader rejects an enabled detector with an empty window. */
    ghost predicate Valid() { enabled ==> windowSamples >= 1 }
  }

  datatype DnsThrashConfig = DnsThrashConfig(
    sameDomainQueriesMax: nat, windowMinutes: nat, sustainWindows: nat)
  {
    function WindowSeconds(): Seconds { (windowMinutes * 60) as real }
    function SustainSeconds(): real { (sustainWindows * windowMinutes * 60) as real }
  }

  /** None disables a client criterion. */
  datatype Thresholds = Thresholds(
    txRateMax: Option<int>, retryMax: Option<int>, signalMax: Option<int>, cuMin: int)

  datatype DetectionConfig = DetectionConfig(
    thresholds: Thresholds, radios: seq<string>,
    inactivity: InactivityConfig, dnsThrash: DnsThrashConfig)

  datatype ScannerConfig = ScannerConfig(
    windowSamples: nat, dryRun: bool, kickMechanism: Mechanism)

  datatype BackoffConfig = BackoffConfig(
    quarantineAfterKicks: int, cooldowns: seq<Seconds>, maxPerHour: nat, maxPerDay: nat)

  datatype SafetyRails = SafetyRails(
    minSecondsBetweenKicks: Seconds, maxKicksPerApPerWindow: nat, perApWindowSeconds: Seconds)

  /** `start` and `end` are times of day; the zone is applied before a time reaches the model. */
  datatype QuietHours = QuietHours(
    start: nat, end: nat,
    txRateMax: Option<int>, retryMax: Option<int>, signalMax: Option<int>)

  /** A per-MAC row; None inherits the global value. */
  datatype Override = Override(
    mac: Mac,
    txRateMax: Option<int>, retryMax: Option<int>, signalMax: Option<int>, cuMin: Option<int>,
    kickMechanism: Option<Mechanism>, maxPerHour: Option<nat>, maxPerDay: Option<nat>,
    dnsSameDomainQueriesMax: Option<nat>)

  datatype RebootConfig = RebootConfig(
    enabled: bool, dryRun: bool, eligible: seq<Mac>,
    perDeviceSeconds: Seconds, maxPerDevicePerDay: nat,
    proactiveEnabled: bool, schedule: nat)

  datatype Config = Config(
    detection: DetectionConfig, scanner: ScannerConfig, backoff: BackoffConfig,
    rails: SafetyRails, quietHours: Option<QuietHours>, reboot: RebootConfig,
    overrides: seq<Override>, allowlist: seq<Mac>)

  /** The sample windows and the ledger are keyed by the spelling the controller reported; the
      allowlist and the opt-in lists by the canonical one. */
  datatype Client = Client(
    mac: Mac, signal: int, txRateKbps: int, txRetries: int, txAttempts: int,
    radio: string, apId: Ap, apCuTotal: int,
    txBytes: Option<int>, rxBytes: Option<int>, ip: Option<string>)
  {
    function CanonicalMac(): Mac { NormalizeMac(mac) }
  }

  // ---- normalize_mac: strip, then lower-case ----

  predicate IsBlank(c: char) { c == ' ' || '\t' <= c <= '\r' || '\U{1c}' <= c <= '\U{1f}' }

  function LowerChar(c: char): char {
    if 'A' <= c <= 'Z' then c - 'A' + 'a' else c
  }

  function Lower(s: string): (r: string)
    ensures |r| == |s| && forall i :: 0 <= i < |s| ==> r[i] == LowerChar(s[i])
  {
    seq(|s|, i requires 0 <= i < |s| => LowerChar(s[i]))
  }

  function StripLeft(s: string): string {
    if s != [] && IsBlank(s[0]) then StripLeft(s[1..]) else s
  }

  function StripRight(s: string): string {
    if s != [] && IsBlank(s[|s| - 1]) then StripRight(s[..|s| - 1]) else s
  }

  function NormalizeMac(s: string): string { Lower(StripRight(StripLeft(s))) }

  lemma LowerCharFacts(c: char)
    ensures LowerChar(LowerChar(c)) == LowerChar(c) && IsBlank(LowerChar(c)) == IsBlank(c)
  {
  }

  lemma LowerIsIdempotent(s: string)
    ensures Lower(Lower(s)) == Lower(s)
  {
    forall i | 0 <= i < |s| ensures Lower(Lower(s))[i] == Lower(s)[i] {
      LowerCharFacts(s[i]);
    }
  }

  lemma {:induction false} StripLeftStops(s: string)
    ensures StripLeft(s) == [] || !IsBlank(StripLeft(s)[0])
  {
    if s != [] && IsBlank(s[0]) {
      StripLeftStops(s[1..]);
    }
  }

  lemma {:induction false} StripRightStops(s: string)
    ensures var r := StripRight(s);
            r == [] || (!IsBlank(r[|r| - 1]) && s != [] && r[0] == s[0])
  {
    if s != [] && IsBlank(s[|s| - 1]) {
      StripRightStops(s[..|s| - 1]);
    }
  }

  /** Canonical forms are fixed points, so comparing canonically is well defined. */
  lemma {:induction false} NormalizeMacIsIdempotent(s: string)
    ensures NormalizeMac(NormalizeMac(s)) == NormalizeMac(s)
  {
    var left := StripLeft(s);
    var core := StripRight(left);
    var n := Lower(core);
    StripLeftStops(s);
    StripRightStops(left);
    if core != [] {
      LowerCharFacts(core[0]);
      LowerCharFacts(core[|core| - 1]);
    }
    assert StripLeft(n) == n;
    assert StripRight(n) == n;
    LowerIsIdempotent(core);
  }

  /** Tab to carriage return, the four information separators, and space. */
  predicate BlankCode(c: char) { c as int in {9, 10, 11, 12, 13, 28, 29, 30, 31, 32} }

  /** The part of s between its outer blanks. */
  ghost predicate IsCore(s: string, i: int, j: int) {
    && 0 <= i <= j <= |s|
    && (forall k :: 0 <= k < i ==> BlankCode(s[k])) && (forall k :: j <= k < |s| ==> BlankCode(s[k]))
    && (i < j ==> !BlankCode(s[i]) && !BlankCode(s[j - 1]))
  }

  /** `low` is the letter c in lower case. */
  predicate LowerOf(low: char, c: char) {
    if 'A' <= c <= 'Z' then 'a' <= low <= 'z' && low as int - 'a' as int == c as int - 'A' as int else low == c
  }

  lemma {:induction false} StripLeftIsSuffix(s: string) returns (i: nat)
    ensures i <= |s| && StripLeft(s) == s[i..] && forall k :: 0 <= k < i ==> IsBlank(s[k])
  {
    i := 0;
    if s != [] && IsBlank(s[0]) {
      i := StripLeftIsSuffix(s[1..]);
      assert forall k :: 0 < k <= i ==> s[k] == s[1..][k - 1];
      i := i + 1;
    }
  }

  lemma {:induction false} StripRightIsPrefix(s: string) returns (j: nat)
    ensures j <= |s| && StripRight(s) == s[..j] && forall k :: j <= k < |s| ==> IsBlank(s[k])
  {
    j := |s|;
    if s != [] && IsBlank(s[|s| - 1]) {
      var rest := s[..|s| - 1];
      j := StripRightIsPrefix(rest);
      assert forall k :: j <= k < |rest| ==> s[k] == rest[k];
    }
  }

  /** The canonical form is the text between the outer blanks, letter by letter in lower case. */
  lemma {:induction false} NormalizedIsLowerCore(s: string) returns (i: nat, j: nat)
    ensures IsCore(s, i, j) && |NormalizeMac(s)| == j - i
    ensures forall k :: 0 <= k < j - i ==> LowerOf(NormalizeMac(s)[k], s[i + k])
  {
    i := StripLeftIsSuffix(s);
    var left := StripLeft(s);
    var n := StripRightIsPrefix(left);
    StripLeftStops(s);
    StripRightStops(left);
    j := i + n;
    assert forall c :: IsBlank(c) <==> BlankCode(c);
    assert forall k :: n <= k < |left| ==> left[k] == s[i + k];
    assert forall k :: j <= k < |s| ==> s[k] == left[k - i];
  }

  /** {normalize_mac(m) for m in macs}. */
  function NormalizedSet(macs: seq<Mac>): set<Mac> {
    if macs == [] then {} else NormalizedSet(macs[..|macs| - 1]) + {NormalizeMac(macs[|macs| - 1])}
  }

  /** Some entry of the list is this MAC, spelling aside. */
  ghost predicate ListsMac(macs: seq<Mac>, mac: Mac) {
    exists k :: 0 <= k < |macs| && NormalizeMac(macs[k]) == NormalizeMac(mac)
  }

  lemma {:induction false} NormalizedSetLists(macs: seq<Mac>, mac: Mac)
    ensures NormalizeMac(mac) in NormalizedSet(macs) <==> ListsMac(macs, mac)
  {
    if macs != [] {
      var n := |macs| - 1;
      NormalizedSetLists(macs[..n], mac);
      if ListsMac(macs, mac) {
        var k :| 0 <= k < |macs| && NormalizeMac(macs[k]) == NormalizeMac(mac);
        assert k < n ==> macs[..n][k] == macs[k];
      }
      if NormalizeMac(macs[n]) == NormalizeMac(mac) {
        assert ListsMac(macs, mac);
      } else if ListsMac(macs[..n], mac) {
        var k :| 0 <= k < n && NormalizeMac(macs[..n][k]) == NormalizeMac(mac);
        assert macs[k] == macs[..n][k];
      }
    }
  }
}
