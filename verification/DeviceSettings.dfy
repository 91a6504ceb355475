/** A whole device payload applied to the configuration file: up to five edits at paths that
    never run through one another, written only when something changed and the result is a
    valid configuration. */
module DeviceSettings {
  import opened Config
  import opened Document
  import opened DeviceConfig

  datatype Step =
    | Member(path: Path, on: bool)
    | Row(path: Path, edits: seq<LeafEdit>, known: set<string>)

  function ApplyStep(doc: Node, mac: Mac, step: Step): Result<Edited> {
    match step
    case Member(path, on) => ApplyMembership(doc, path, mac, on)
    case Row(path, edits, known) => ApplyObjectRow(doc, path, mac, edits, known)
  }

  function ApplySteps(doc: Node, mac: Mac, steps: seq<Step>): Result<Edited> {
    if steps == [] then Ok(Edited(doc, false)) else
      match ApplySteps(doc, mac, steps[..|steps| - 1])
      case Err => Err
      case Ok(before) =>
        match ApplyStep(before.doc, mac, steps[|steps| - 1])
        case Err => Err
        case Ok(e) => Ok(Edited(e.doc, before.changed || e.changed))
  }

  // ---- the payload ----

  /** None leaves a setting alone; `strange` is a key the editor does not know. */
  datatype Payload = Payload(
    allowlisted: Option<bool>, inactivityWatched: Option<bool>, rebootEligible: Option<bool>,
    overrides: Option<seq<LeafEdit>>, rebootOverride: Option<seq<LeafEdit>>, strange: bool)

  const OVERRIDE_LEAVES: set<string> :=
    { "name", "tx_rate_kbps_max", "retry_pct_max", "signal_dbm_max", "ap_cu_total_min", "kick_mechanism",
      "max_kicks_per_hour", "max_kicks_per_day", "dns_same_domain_queries_max" }

  const REBOOT_LEAVES: set<string> := { "name", "ha_entity" }

  function MemberStep(path: Path, on: Option<bool>): seq<Step> {
    match on case Some(b) => [Member(path, b)] case None => []
  }

  function RowStep(path: Path, edits: Option<seq<LeafEdit>>, known: set<string>): seq<Step> {
    match edits case Some(es) => [Row(path, es, known)] case None => []
  }

  function Steps(p: Payload): seq<Step> {
    MemberStep(["allowlist"], p.allowlisted)
    + MemberStep(["detection", "inactivity", "macs"], p.inactivityWatched)
    + MemberStep(["reboot", "eligible"], p.rebootEligible)
    + RowStep(["overrides"], p.overrides, OVERRIDE_LEAVES)
    + RowStep(["reboot", "overrides"], p.rebootOverride, REBOOT_LEAVES)
  }

  /** A file that does not hold a mapping is edited as an empty one. */
  function RootOf(doc: Node): Node {
    if doc.Map? then doc else Map([])
  }

  /** The edits one after another; the first one refused ends it. */
  method ApplyAll(start: Node, mac: Mac, steps: seq<Step>) returns (outcome: Result<Edited>)
    ensures outcome == ApplySteps(start, mac, steps)
  {
    var doc, touched := start, false;
    for i := 0 to |steps|
      invariant ApplySteps(start, mac, steps[..i]) == Ok(Edited(doc, touched))
    {
      assert steps[..i + 1][..i] == steps[..i];
      match ApplyStep(doc, mac, steps[i])
      case Err =>
        FailureSticks(start, mac, steps, i + 1);
        return Err;
      case Ok(e) =>
        doc, touched := e.doc, touched || e.changed;
    }
    assert steps[..|steps|] == steps;
    return Ok(Edited(doc, touched));
  }

  class ConfigFile {
    var content: Node

    constructor (content: Node)
      ensures this.content == content
    {
      this.content := content;
    }

    /** Err is the source's ValueError. The file is rewritten exactly when every edit applies,
        at least one changes the document, and the loader accepts the outcome. */
    method Apply(device: string, p: Payload, accepts: Node -> bool) returns (written: Result<bool>)
      modifies this
      ensures var outcome := ApplySteps(RootOf(old(content)), NormalizeMac(device), Steps(p));
              && (written == Ok(true) <==>
                    !p.strange && outcome.Ok? && outcome.value.changed && accepts(outcome.value.doc))
              && (written == Ok(false) <==> !p.strange && outcome.Ok? && !outcome.value.changed)
              && content == if written == Ok(true) then outcome.value.doc else old(content)
    {
      if p.strange {
        return Err;
      }
      var outcome := ApplyAll(RootOf(content), NormalizeMac(device), Steps(p));
      if outcome.Err? {
        return Err;
      }
      var doc, touched := outcome.value.doc, outcome.value.changed;
      if !touched {
        return Ok(false);
      }
      if !accepts(doc) {
        return Err;
      }
      content := doc;
      return Ok(true);
    }
  }

  lemma {:induction false} FailureSticks(doc: Node, mac: Mac, steps: seq<Step>, i: nat)
    requires i <= |steps| && ApplySteps(doc, mac, steps[..i]).Err?
    ensures ApplySteps(doc, mac, steps).Err?
  {
    if i < |steps| {
      assert steps[..|steps| - 1][..i] == steps[..i];
      FailureSticks(doc, mac, steps[..|steps| - 1], i);
    } else {
      assert steps[..i] == steps;
    }
  }

  // ---- one edit reads and writes its own node only ----

  /** What a step leaves at its own path depends on what it finds there and nothing else. */
  lemma {:induction false} StepIsLocal(d1: Node, d2: Node, mac: Mac, step: Step)
    requires NodeAt(d1, step.path) == NodeAt(d2, step.path)
    ensures ApplyStep(d1, mac, step).Ok? == ApplyStep(d2, mac, step).Ok?
    ensures ApplyStep(d1, mac, step).Ok? ==>
              var e1, e2 := ApplyStep(d1, mac, step).value, ApplyStep(d2, mac, step).value;
              e1.changed == e2.changed && NodeAt(e1.doc, step.path) == NodeAt(e2.doc, step.path)
  {
    SameNodeSameVerdict(d1, d2, mac, step);
    if ApplyStep(d1, mac, step).Ok? {
      var list := StepWrites(d1, mac, step);
      assert StepWrites(d2, mac, step) == list;
      ReadBack(d1, step.path, list);
      ReadBack(d2, step.path, list);
      StepShape(d1, mac, step);
      StepShape(d2, mac, step);
    }
  }

  lemma {:induction false} SameNodeSameVerdict(d1: Node, d2: Node, mac: Mac, step: Step)
    requires NodeAt(d1, step.path) == NodeAt(d2, step.path)
    ensures ApplyStep(d1, mac, step).Ok? == ApplyStep(d2, mac, step).Ok?
    ensures ApplyStep(d1, mac, step).Ok? ==>
              ApplyStep(d1, mac, step).value.changed == ApplyStep(d2, mac, step).value.changed
  {
    assert Existing(d1, step.path) == Existing(d2, step.path);
    assert ListItems(d1, step.path) == ListItems(d2, step.path);
  }

  /** The list a step writes when it writes. */
  function StepWrites(doc: Node, mac: Mac, step: Step): Node {
    match step
    case Member(path, on) => List(EditedMembers(ListItems(doc, path), mac, on))
    case Row(path, edits, known) => List(EditRows(ListItems(doc, path), mac, edits).items)
  }

  lemma {:induction false} StepShape(doc: Node, mac: Mac, step: Step)
    requires ApplyStep(doc, mac, step).Ok?
    ensures var e := ApplyStep(doc, mac, step).value;
            e.doc == if e.changed then SetAt(doc, step.path, StepWrites(doc, mac, step)) else doc
  {
    if step.Member? {
      MembershipShape(doc, step.path, mac, step.on);
    }
  }

  lemma {:induction false} StepFrame(doc: Node, mac: Mac, step: Step, other: Path)
    requires ApplyStep(doc, mac, step).Ok? && Diverge(step.path, other)
    ensures NodeAt(ApplyStep(doc, mac, step).value.doc, other) == NodeAt(doc, other)
  {
    StepShape(doc, mac, step);
    OtherPathsStay(doc, step.path, StepWrites(doc, mac, step), other);
  }

  /** A well-formed payload leaf set over a list with at most one row of this MAC. */
  ghost predicate WellFormed(doc: Node, mac: Mac, step: Step) {
    step.Row? ==> Proper(step.edits) && OneRow(ListItems(doc, step.path), mac)
  }

  lemma {:induction false} StepTwice(doc: Node, mac: Mac, step: Step)
    requires Canonical(mac) && WellFormed(doc, mac, step) && ApplyStep(doc, mac, step).Ok?
    ensures var e := ApplyStep(doc, mac, step).value; ApplyStep(e.doc, mac, step) == Ok(Edited(e.doc, false))
  {
    match step
    case Member(path, on) => MembershipLens(doc, path, mac, on, path);
    case Row(path, edits, known) => ObjectRowLens(doc, path, mac, edits, known, "", path);
  }

  // ---- the whole payload ----

  ghost predicate Separate(steps: seq<Step>) {
    forall i, j :: 0 <= i < |steps| && 0 <= j < |steps| && i != j ==> Diverge(steps[i].path, steps[j].path)
  }

  ghost predicate OnlyAt(steps: seq<Step>, paths: set<Path>) {
    forall k :: 0 <= k < |steps| ==> steps[k].path in paths
  }

  lemma {:induction false} OneMoreStep(steps: seq<Step>, paths: set<Path>, next: seq<Step>, path: Path)
    requires Separate(steps) && OnlyAt(steps, paths) && |next| <= 1 && OnlyAt(next, {path})
    requires forall p :: p in paths ==> Diverge(p, path) && Diverge(path, p)
    ensures Separate(steps + next) && OnlyAt(steps + next, paths + {path})
  {
  }

  /** The five settings live at paths that never run through one another. */
  lemma {:induction false} PayloadStepsAreSeparate(p: Payload)
    ensures Separate(Steps(p))
  {
    var allow, quiet, eligible, rows, targets :=
      ["allowlist"], ["detection", "inactivity", "macs"], ["reboot", "eligible"], ["overrides"], ["reboot", "overrides"];
    var a := MemberStep(allow, p.allowlisted);
    var b := MemberStep(quiet, p.inactivityWatched);
    var c := MemberStep(eligible, p.rebootEligible);
    var d := RowStep(rows, p.overrides, OVERRIDE_LEAVES);
    var e := RowStep(targets, p.rebootOverride, REBOOT_LEAVES);
    OneMoreStep(a, {allow}, b, quiet);
    OneMoreStep(a + b, {allow, quiet}, c, eligible);
    OneMoreStep(a + b + c, {allow, quiet, eligible}, d, rows);
    assert Diverge(targets, eligible) && Diverge(eligible, targets) by {
      assert targets[1..] == ["overrides"] && eligible[1..] == ["eligible"];
    }
    OneMoreStep(a + b + c + d, {allow, quiet, eligible, rows}, e, targets);
  }

  /** A path diverging from every step keeps its node. */
  lemma {:induction false} StepsFrame(doc: Node, mac: Mac, steps: seq<Step>, other: Path)
    requires ApplySteps(doc, mac, steps).Ok?
    requires forall k :: 0 <= k < |steps| ==> Diverge(steps[k].path, other)
    ensures NodeAt(ApplySteps(doc, mac, steps).value.doc, other) == NodeAt(doc, other)
  {
    if steps != [] {
      var n := |steps| - 1;
      StepsFrame(doc, mac, steps[..n], other);
      StepFrame(ApplySteps(doc, mac, steps[..n]).value.doc, mac, steps[n], other);
    }
  }

  /** Each step lands as if it were the only one: after the whole payload its node is what the
      step alone makes of the original document, so every single-edit law carries over. */
  lemma {:induction false} EachEditLandsAlone(doc: Node, mac: Mac, steps: seq<Step>, k: nat)
    requires k < |steps| && Separate(steps) && ApplySteps(doc, mac, steps).Ok?
    ensures ApplyStep(doc, mac, steps[k]).Ok?
    ensures NodeAt(ApplySteps(doc, mac, steps).value.doc, steps[k].path)
         == NodeAt(ApplyStep(doc, mac, steps[k]).value.doc, steps[k].path)
  {
    var n := |steps| - 1;
    var before := ApplySteps(doc, mac, steps[..n]).value.doc;
    if k < n {
      EachEditLandsAlone(doc, mac, steps[..n], k);
      StepFrame(before, mac, steps[n], steps[k].path);
    } else {
      StepsFrame(doc, mac, steps[..n], steps[n].path);
      StepIsLocal(before, doc, mac, steps[n]);
    }
  }

  lemma {:induction false} SettledSteps(doc: Node, mac: Mac, steps: seq<Step>)
    requires forall k :: 0 <= k < |steps| ==> ApplyStep(doc, mac, steps[k]) == Ok(Edited(doc, false))
    ensures ApplySteps(doc, mac, steps) == Ok(Edited(doc, false))
  {
    if steps != [] {
      SettledSteps(doc, mac, steps[..|steps| - 1]);
    }
  }

  /** Applying the same payload twice changes nothing the second time. */
  lemma {:induction false} PayloadTwice(doc: Node, mac: Mac, p: Payload)
    requires Canonical(mac) && ApplySteps(doc, mac, Steps(p)).Ok?
    requires forall k :: 0 <= k < |Steps(p)| ==> WellFormed(doc, mac, Steps(p)[k])
    ensures var once := ApplySteps(doc, mac, Steps(p)).value.doc;
            ApplySteps(once, mac, Steps(p)) == Ok(Edited(once, false))
  {
    var steps := Steps(p);
    var once := ApplySteps(doc, mac, steps).value.doc;
    PayloadStepsAreSeparate(p);
    forall k | 0 <= k < |steps| ensures ApplyStep(once, mac, steps[k]) == Ok(Edited(once, false)) {
      EachEditLandsAlone(doc, mac, steps, k);
      var alone := ApplyStep(doc, mac, steps[k]).value.doc;
      StepTwice(doc, mac, steps[k]);
      StepIsLocal(alone, once, mac, steps[k]);
      StepShape(once, mac, steps[k]);
    }
    SettledSteps(once, mac, steps);
  }

  lemma {:induction false} UnchangedIsSame(doc: Node, mac: Mac, steps: seq<Step>)
    requires ApplySteps(doc, mac, steps).Ok? && !ApplySteps(doc, mac, steps).value.changed
    ensures ApplySteps(doc, mac, steps).value.doc == doc
  {
    if steps != [] {
      var n := |steps| - 1;
      UnchangedIsSame(doc, mac, steps[..n]);
      StepShape(ApplySteps(doc, mac, steps[..n]).value.doc, mac, steps[n]);
    }
  }

  /** A change is reported, and the file written, exactly when the document comes out different. */
  lemma {:induction false} ChangedIffDifferent(doc: Node, mac: Mac, p: Payload)
    requires Canonical(mac) && ApplySteps(doc, mac, Steps(p)).Ok?
    requires forall k :: 0 <= k < |Steps(p)| ==> WellFormed(doc, mac, Steps(p)[k])
    ensures ApplySteps(doc, mac, Steps(p)).value.changed <==> ApplySteps(doc, mac, Steps(p)).value.doc != doc
  {
    PayloadTwice(doc, mac, p);
    if !ApplySteps(doc, mac, Steps(p)).value.changed {
      UnchangedIsSame(doc, mac, Steps(p));
    }
  }

  /** After an accepted payload the device card reads what was asked: every toggle given is as
      given, every leaf given as written or cleared, and every other MAC's entries and rows
      keep their values and order. */
  lemma {:induction false} CardReadsThePayload(doc: Node, mac: Mac, p: Payload, k: nat, leaf: string)
    requires Canonical(mac) && k < |Steps(p)| && leaf != "mac"
    requires ApplySteps(doc, mac, Steps(p)).Ok? && WellFormed(doc, mac, Steps(p)[k])
    ensures var step := Steps(p)[k];
            var was := ListItems(doc, step.path);
            var now := ListItems(ApplySteps(doc, mac, Steps(p)).value.doc, step.path);
            if step.Member? then AnyMatches(now, mac) == step.on && Others(now, mac) == Others(was, mac)
            else && ReadLeaf(now, mac, leaf) == Asked(step.edits, leaf, ReadLeaf(was, mac, leaf))
                 && OtherRows(now, mac) == OtherRows(was, mac)
  {
    PayloadStepsAreSeparate(p);
    EachEditLandsAlone(doc, mac, Steps(p), k);
    match Steps(p)[k]
    case Member(path, on) => MembershipLens(doc, path, mac, on, path);
    case Row(path, edits, known) => ObjectRowLens(doc, path, mac, edits, known, leaf, path);
  }

  // ---- setting by setting, at its own path ----

  /** The five places a payload can write to. */
  predicate SettingPath(path: Path) {
    path == ["allowlist"] || path == ["detection", "inactivity", "macs"] || path == ["reboot", "eligible"]
    || path == ["overrides"] || path == ["reboot", "overrides"]
  }

  lemma {:induction false} SettingPathsDiverge(a: Path, b: Path)
    requires SettingPath(a) && SettingPath(b) && a != b
    ensures Diverge(a, b)
  {
    if a[0] == b[0] {
      assert a[1..] == [a[1]] && b[1..] == [b[1]];
    }
  }

  /** A toggle left alone leaves its node alone; one that is given reads as given, over the same
      other entries. */
  ghost predicate ToggleLands(doc: Node, out: Node, path: Path, mac: Mac, on: Option<bool>) {
    match on
    case None => NodeAt(out, path) == NodeAt(doc, path)
    case Some(b) =>
      ListedAt(out, path, mac) == b && Others(ListItems(out, path), mac) == Others(ListItems(doc, path), mac)
  }

  /** A list stands at the path with a string in it that is this MAC, however spelled. */
  ghost predicate ListedAt(doc: Node, path: Path, mac: Mac) {
    && NodeAt(doc, path).Some? && NodeAt(doc, path).value.List?
    && var items := NodeAt(doc, path).value.items;
    exists k :: 0 <= k < |items| && items[k].Scalar? && items[k].atom.Str? && NormalizeMac(items[k].atom.s) == mac
  }

  /** So for a row: each leaf reads as asked, over the same other rows. */
  ghost predicate RowLands(doc: Node, out: Node, path: Path, mac: Mac, edits: Option<seq<LeafEdit>>, leaf: string) {
    match edits
    case None => NodeAt(out, path) == NodeAt(doc, path)
    case Some(es) =>
      && ReadLeaf(ListItems(out, path), mac, leaf) == Asked(es, leaf, ReadLeaf(ListItems(doc, path), mac, leaf))
      && OtherRows(ListItems(out, path), mac) == OtherRows(ListItems(doc, path), mac)
  }

  ghost predicate GivenRowIsSingle(doc: Node, path: Path, mac: Mac, edits: Option<seq<LeafEdit>>) {
    edits.Some? ==> Proper(edits.value) && OneRow(ListItems(doc, path), mac)
  }

  /** The step at one of the five places, if its setting is given. */
  function StepAt(p: Payload, path: Path): Option<Step>
    requires SettingPath(path)
  {
    if path == ["allowlist"] then ToggleAt(path, p.allowlisted)
    else if path == ["detection", "inactivity", "macs"] then ToggleAt(path, p.inactivityWatched)
    else if path == ["reboot", "eligible"] then ToggleAt(path, p.rebootEligible)
    else if path == ["overrides"] then RowAt(path, p.overrides, OVERRIDE_LEAVES)
    else RowAt(path, p.rebootOverride, REBOOT_LEAVES)
  }

  function ToggleAt(path: Path, on: Option<bool>): Option<Step> {
    if on.Some? then Some(Member(path, on.value)) else None
  }

  function RowAt(path: Path, edits: Option<seq<LeafEdit>>, known: set<string>): Option<Step> {
    if edits.Some? then Some(Row(path, edits.value, known)) else None
  }

  ghost predicate IsStepOf(p: Payload, step: Step) {
    SettingPath(step.path) && StepAt(p, step.path) == Some(step)
  }

  lemma {:induction false} MemberStepIs(path: Path, on: Option<bool>, step: Step)
    ensures step in MemberStep(path, on) <==> ToggleAt(path, on) == Some(step)
  {
  }

  lemma {:induction false} RowStepIs(path: Path, edits: Option<seq<LeafEdit>>, known: set<string>, step: Step)
    ensures step in RowStep(path, edits, known) <==> RowAt(path, edits, known) == Some(step)
  {
  }

  /** The steps are those of the settings given. */
  lemma {:induction false} StepsAreOfSettings(p: Payload, step: Step)
    ensures step in Steps(p) <==> IsStepOf(p, step)
  {
    MemberStepIs(["allowlist"], p.allowlisted, step);
    MemberStepIs(["detection", "inactivity", "macs"], p.inactivityWatched, step);
    MemberStepIs(["reboot", "eligible"], p.rebootEligible, step);
    RowStepIs(["overrides"], p.overrides, OVERRIDE_LEAVES, step);
    RowStepIs(["reboot", "overrides"], p.rebootOverride, REBOOT_LEAVES, step);
  }

  /** A path no step is at keeps its node. */
  lemma {:induction false} AbsentSettingStays(doc: Node, mac: Mac, p: Payload, path: Path)
    requires ApplySteps(doc, mac, Steps(p)).Ok? && SettingPath(path) && StepAt(p, path).None?
    ensures NodeAt(ApplySteps(doc, mac, Steps(p)).value.doc, path) == NodeAt(doc, path)
  {
    forall k | 0 <= k < |Steps(p)| ensures Diverge(Steps(p)[k].path, path) {
      StepsAreOfSettings(p, Steps(p)[k]);
      SettingPathsDiverge(Steps(p)[k].path, path);
    }
    StepsFrame(doc, mac, Steps(p), path);
  }

  lemma {:induction false} IndexOfStep(p: Payload, step: Step) returns (k: nat)
    requires IsStepOf(p, step)
    ensures k < |Steps(p)| && Steps(p)[k] == step
  {
    StepsAreOfSettings(p, step);
    k :| 0 <= k < |Steps(p)| && Steps(p)[k] == step;
  }

  lemma {:induction false} ToggleDoesLand(doc: Node, mac: Mac, p: Payload, path: Path, on: Option<bool>)
    requires Canonical(mac) && ApplySteps(doc, mac, Steps(p)).Ok?
    requires SettingPath(path) && StepAt(p, path) == ToggleAt(path, on)
    ensures ToggleLands(doc, ApplySteps(doc, mac, Steps(p)).value.doc, path, mac, on)
  {
    match on
    case None => AbsentSettingStays(doc, mac, p, path);
    case Some(b) =>
      var k := IndexOfStep(p, Member(path, b));
      CardReadsThePayload(doc, mac, p, k, "");
  }

  lemma {:induction false} RowDoesLand(
      doc: Node, mac: Mac, p: Payload, path: Path, edits: Option<seq<LeafEdit>>, known: set<string>, leaf: string)
    requires Canonical(mac) && ApplySteps(doc, mac, Steps(p)).Ok? && leaf != "mac"
    requires GivenRowIsSingle(doc, path, mac, edits)
    requires SettingPath(path) && StepAt(p, path) == RowAt(path, edits, known)
    ensures RowLands(doc, ApplySteps(doc, mac, Steps(p)).value.doc, path, mac, edits, leaf)
  {
    match edits
    case None => AbsentSettingStays(doc, mac, p, path);
    case Some(es) =>
      var k := IndexOfStep(p, Row(path, es, known));
      CardReadsThePayload(doc, mac, p, k, leaf);
  }

  lemma {:induction false} SettingsLand(doc: Node, mac: Mac, p: Payload, leaf: string)
    requires Canonical(mac) && ApplySteps(doc, mac, Steps(p)).Ok? && leaf != "mac"
    requires GivenRowIsSingle(doc, ["overrides"], mac, p.overrides)
    requires GivenRowIsSingle(doc, ["reboot", "overrides"], mac, p.rebootOverride)
    ensures var out := ApplySteps(doc, mac, Steps(p)).value.doc;
            && ToggleLands(doc, out, ["allowlist"], mac, p.allowlisted)
            && ToggleLands(doc, out, ["detection", "inactivity", "macs"], mac, p.inactivityWatched)
            && ToggleLands(doc, out, ["reboot", "eligible"], mac, p.rebootEligible)
            && RowLands(doc, out, ["overrides"], mac, p.overrides, leaf)
            && RowLands(doc, out, ["reboot", "overrides"], mac, p.rebootOverride, leaf)
  {
    ToggleDoesLand(doc, mac, p, ["allowlist"], p.allowlisted);
    ToggleDoesLand(doc, mac, p, ["detection", "inactivity", "macs"], p.inactivityWatched);
    ToggleDoesLand(doc, mac, p, ["reboot", "eligible"], p.rebootEligible);
    RowDoesLand(doc, mac, p, ["overrides"], p.overrides, OVERRIDE_LEAVES, leaf);
    RowDoesLand(doc, mac, p, ["reboot", "overrides"], p.rebootOverride, REBOOT_LEAVES, leaf);
  }

  /** Editing starts from what the file holds: every path reads as in the file. */
  lemma {:induction false} RootReadsAsFile(content: Node, path: Path)
    requires path != []
    ensures NodeAt(RootOf(content), path) == NodeAt(content, path)
    ensures ListItems(RootOf(content), path) == ListItems(content, path)
  {
  }

  /** None of the five places runs through this path, nor it through them. */
  ghost predicate OffSettings(path: Path) {
    path != [] && forall setting :: SettingPath(setting) ==> Diverge(setting, path)
  }

  /** After an accepted payload each setting has landed at its own place in the file and nowhere
      else: the allowlist, the inactivity watch list, the reboot opt-in list, the row of kick
      overrides and the row of reboot overrides. Whatever else the file held is still there. */
  lemma {:induction false} EverySettingLands(content: Node, mac: Mac, p: Payload, leaf: string, other: Path)
    requires Canonical(mac) && ApplySteps(RootOf(content), mac, Steps(p)).Ok? && leaf != "mac"
    requires GivenRowIsSingle(content, ["overrides"], mac, p.overrides)
    requires GivenRowIsSingle(content, ["reboot", "overrides"], mac, p.rebootOverride)
    ensures var out := ApplySteps(RootOf(content), mac, Steps(p)).value.doc;
            && ToggleLands(content, out, ["allowlist"], mac, p.allowlisted)
            && ToggleLands(content, out, ["detection", "inactivity", "macs"], mac, p.inactivityWatched)
            && ToggleLands(content, out, ["reboot", "eligible"], mac, p.rebootEligible)
            && RowLands(content, out, ["overrides"], mac, p.overrides, leaf)
            && RowLands(content, out, ["reboot", "overrides"], mac, p.rebootOverride, leaf)
            && (OffSettings(other) ==> NodeAt(out, other) == NodeAt(content, other))
  {
    RootReadsAsFile(content, ["allowlist"]);
    RootReadsAsFile(content, ["detection", "inactivity", "macs"]);
    RootReadsAsFile(content, ["reboot", "eligible"]);
    RootReadsAsFile(content, ["overrides"]);
    RootReadsAsFile(content, ["reboot", "overrides"]);
    SettingsLand(RootOf(content), mac, p, leaf);
    if OffSettings(other) {
      RootReadsAsFile(content, other);
      forall k | 0 <= k < |Steps(p)| ensures Diverge(Steps(p)[k].path, other) {
        StepsAreOfSettings(p, Steps(p)[k]);
      }
      StepsFrame(RootOf(content), mac, Steps(p), other);
    }
  }

  // ---- exactly which payloads are refused ----

  lemma {:induction false} StepsOkIffEach(doc: Node, mac: Mac, steps: seq<Step>)
    requires Separate(steps)
    ensures ApplySteps(doc, mac, steps).Ok? <==> forall k :: 0 <= k < |steps| ==> ApplyStep(doc, mac, steps[k]).Ok?
  {
    if ApplySteps(doc, mac, steps).Ok? {
      forall k | 0 <= k < |steps| ensures ApplyStep(doc, mac, steps[k]).Ok? {
        EachEditLandsAlone(doc, mac, steps, k);
      }
    } else {
      var n := |steps| - 1;
      StepsOkIffEach(doc, mac, steps[..n]);
      if ApplySteps(doc, mac, steps[..n]).Ok? {
        StepsFrame(doc, mac, steps[..n], steps[n].path);
        StepIsLocal(ApplySteps(doc, mac, steps[..n]).value.doc, doc, mac, steps[n]);
      } else {
        var k :| 0 <= k < n && !ApplyStep(doc, mac, steps[..n][k]).Ok?;
        assert steps[..n][k] == steps[k];
      }
    }
  }

  /** Something other than a list or a null stands there. */
  predicate NoList(doc: Node, path: Path) {
    NodeAt(doc, path).Some? && NodeAt(doc, path).value != Scalar(Null) && !NodeAt(doc, path).value.List?
  }

  ghost predicate RowRefused(doc: Node, path: Path, edits: Option<seq<LeafEdit>>, known: set<string>) {
    edits.Some? && (NoList(doc, path)
                    || exists k :: 0 <= k < |edits.value| &&
                         (edits.value[k].leaf == "mac" || edits.value[k].leaf !in known || edits.value[k].edit.Bad?))
  }

  lemma {:induction false} StepRefusedIff(doc: Node, mac: Mac, step: Step)
    ensures ApplyStep(doc, mac, step).Err? <==> StepRefused(doc, step)
  {
  }

  lemma {:induction false} RefusedSomewhere(doc: Node, mac: Mac, p: Payload)
    ensures ApplySteps(doc, mac, Steps(p)).Err? <==> exists path :: RefusedAt(doc, p, path)
  {
    PayloadStepsAreSeparate(p);
    StepsOkIffEach(doc, mac, Steps(p));
    if ApplySteps(doc, mac, Steps(p)).Err? {
      var k :| 0 <= k < |Steps(p)| && ApplyStep(doc, mac, Steps(p)[k]).Err?;
      StepRefusedIff(doc, mac, Steps(p)[k]);
      StepsAreOfSettings(p, Steps(p)[k]);
      assert RefusedAt(doc, p, Steps(p)[k].path);
    }
    forall path | RefusedAt(doc, p, path) ensures ApplySteps(doc, mac, Steps(p)).Err? {
      var k := IndexOfStep(p, StepAt(p, path).value);
      StepRefusedIff(doc, mac, Steps(p)[k]);
    }
  }

  /** A payload is refused exactly when a setting it gives has no list to go to, or a row names
      its identity, a leaf its section does not have, or a value that does not coerce. */
  lemma {:induction false} PayloadRefusedIff(doc: Node, mac: Mac, p: Payload)
    ensures ApplySteps(doc, mac, Steps(p)).Err? <==>
            || (p.allowlisted.Some? && NoList(doc, ["allowlist"]))
            || (p.inactivityWatched.Some? && NoList(doc, ["detection", "inactivity", "macs"]))
            || (p.rebootEligible.Some? && NoList(doc, ["reboot", "eligible"]))
            || RowRefused(doc, ["overrides"], p.overrides, OVERRIDE_LEAVES)
            || RowRefused(doc, ["reboot", "overrides"], p.rebootOverride, REBOOT_LEAVES)
  {
    RefusedSomewhere(doc, mac, p);
    RefusedAtIff(doc, p);
  }

  ghost predicate RefusedAt(doc: Node, p: Payload, path: Path) {
    SettingPath(path) && StepAt(p, path).Some? && StepAt(p, path).value.path == path && StepRefused(doc, StepAt(p, path).value)
  }

  lemma {:induction false} RefusedAtIff(doc: Node, p: Payload)
    ensures RefusedAt(doc, p, ["allowlist"]) <==> p.allowlisted.Some? && NoList(doc, ["allowlist"])
    ensures RefusedAt(doc, p, ["detection", "inactivity", "macs"]) <==>
              p.inactivityWatched.Some? && NoList(doc, ["detection", "inactivity", "macs"])
    ensures RefusedAt(doc, p, ["reboot", "eligible"]) <==>
              p.rebootEligible.Some? && NoList(doc, ["reboot", "eligible"])
    ensures RefusedAt(doc, p, ["overrides"]) <==> RowRefused(doc, ["overrides"], p.overrides, OVERRIDE_LEAVES)
    ensures RefusedAt(doc, p, ["reboot", "overrides"]) <==>
              RowRefused(doc, ["reboot", "overrides"], p.rebootOverride, REBOOT_LEAVES)
  {
  }

  ghost predicate StepRefused(doc: Node, step: Step) {
    NoList(doc, step.path) || (step.Row? && RowRefused(doc, step.path, Some(step.edits), step.known))
  }
}
