/** The daemon's configuration watch: a polled content digest, a reload that applies a valid
    file in place to every pipeline, and one that keeps the last good one otherwise. */
module Daemon {
  import opened Config
  import P = Pipeline

  /** load_config_from_path, None when it raises, and the content digest. */
  datatype Loader = Loader(parse: string -> Option<Config>, digest: string -> string)
  {
    /** No two contents share a digest. */
    ghost predicate CollisionFree() { forall a, b :: digest(a) == digest(b) ==> a == b }
  }

  /** `attempts` counts reload attempts: history, read by no step. */
  datatype State = State(config: Config, digestSeen: Option<string>, pipelines: seq<P.State>, attempts: nat)

  function UpdateAll(pipelines: seq<P.State>, config: Config): (r: seq<P.State>)
    ensures |r| == |pipelines| && forall i :: 0 <= i < |r| ==> r[i] == P.Updated(pipelines[i], config)
  {
    if pipelines == [] then [] else
      UpdateAll(pipelines[..|pipelines| - 1], config) + [P.Updated(pipelines[|pipelines| - 1], config)]
  }

  function Reloaded(s: State, loader: Loader, content: string): State {
    var tried := s.(attempts := s.attempts + 1);
    match loader.parse(content)
    case None => tried
    case Some(config) => tried.(config := config, pipelines := UpdateAll(s.pipelines, config))
  }

  /** One watch tick: `file` is None when the file cannot be read just now. */
  function Ticked(s: State, loader: Loader, file: Option<string>): State {
    if file.None? || s.digestSeen == Some(loader.digest(file.value)) then s
    else Reloaded(s.(digestSeen := Some(loader.digest(file.value))), loader, file.value)
  }

  datatype Event =
    | Tick(file: Option<string>)
    | Scan(pipeline: nat, act: P.Act)

  function Stepped(s: State, loader: Loader, e: Event): State {
    match e
    case Tick(file) => Ticked(s, loader, file)
    case Scan(i, act) =>
      if i >= |s.pipelines| then s else s.(pipelines := s.pipelines[i := P.Acted(s.pipelines[i], act)])
  }

  class Daemon {
    const loader: Loader
    var config: Config
    var digestSeen: Option<string>
    const pipelines: seq<P.DetectionPipeline>
    ghost var attempts: nat

    ghost predicate Separate(i: int, j: int)
      reads pipelines
    {
      0 <= i < |pipelines| && 0 <= j < |pipelines| && pipelines[i].Repr() !! pipelines[j].Repr()
    }

    /** Pipelines share nothing but the store, and not the daemon itself. */
    ghost predicate Valid()
      reads pipelines
    {
      && (forall i :: 0 <= i < |pipelines| ==> pipelines[i].Valid() && this !in pipelines[i].Repr())
      && (forall i, j :: 0 <= i < |pipelines| && 0 <= j < |pipelines| && i != j ==> Separate(i, j))
    }

    /** Every pipeline's footprint. */
    ghost function Repr(): set<object>
      reads this, pipelines
    {
      set i, o | 0 <= i < |pipelines| && o in pipelines[i].Repr() :: o
    }

    /** A daemon whose file does not load never starts. */
    constructor (loader: Loader, config: Config, content: string, pipelines: seq<P.DetectionPipeline>)
      requires loader.parse(content) == Some(config)
      ensures this.loader == loader && this.config == config && this.pipelines == pipelines
      ensures digestSeen == Some(loader.digest(content)) && attempts == 0
    {
      this.loader, this.config, this.pipelines := loader, config, pipelines;
      digestSeen := Some(loader.digest(content));
      attempts := 0;
    }

    method WatchTick(file: Option<string>)
      requires Valid()
      modifies this, Repr()
      ensures Valid()
      ensures var s := Ticked(State(old(config), old(digestSeen), [], old(attempts)), loader, file);
              config == s.config && digestSeen == s.digestSeen && attempts == s.attempts
      ensures var reloads := file.Some? && old(digestSeen) != Some(loader.digest(file.value))
                             && loader.parse(file.value).Some?;
              forall i :: 0 <= i < |pipelines| ==>
                pipelines[i].Model() == if reloads then P.Updated(old(pipelines[i].Model()), loader.parse(file.value).value)
                                        else old(pipelines[i].Model())
    {
      if file.Some? {
        var digest := loader.digest(file.value);
        if digestSeen != Some(digest) {
          digestSeen := Some(digest);
          forall i | 0 <= i < |pipelines| ensures pipelines[i].Model() == old(pipelines[i].Model()) {
            assert this !in pipelines[i].Repr();
          }
          var ok := ReloadConfig(file.value);
        }
      }
    }

    method ReloadConfig(content: string) returns (ok: bool)
      requires Valid()
      modifies this`config, this`attempts, Repr()
      ensures Valid()
      ensures ok == loader.parse(content).Some? && attempts == old(attempts) + 1
      ensures config == if ok then loader.parse(content).value else old(config)
      ensures forall i :: 0 <= i < |pipelines| ==>
                pipelines[i].Model() == if ok then P.Updated(old(pipelines[i].Model()), loader.parse(content).value)
                                        else old(pipelines[i].Model())
    {
      var parsed := loader.parse(content);
      attempts := attempts + 1;
      if parsed.Some? { config := parsed.value; }
      forall i | 0 <= i < |pipelines| ensures pipelines[i].Model() == old(pipelines[i].Model()) {
        assert this !in pipelines[i].Repr();
      }
      if parsed.None? { return false; }
      ApplyToAll(parsed.value);
      return true;
    }

    method ApplyToAll(newConfig: Config)
      requires Valid()
      modifies Repr()
      ensures Valid()
      ensures forall i :: 0 <= i < |pipelines| ==>
                pipelines[i].Model() == P.Updated(old(pipelines[i].Model()), newConfig)
    {
      ghost var was := [];
      for i := 0 to |pipelines|
        invariant |was| == i && forall j :: 0 <= j < i ==> was[j] == pipelines[j].Model()
      {
        was := was + [pipelines[i].Model()];
      }
      UpdateEach(newConfig, was, Repr());
    }

    /** The loop, over the states and the footprint it starts from. */
    method UpdateEach(newConfig: Config, ghost was: seq<P.State>, ghost footprint: set<object>)
      requires Valid() && |was| == |pipelines|
      requires forall j :: 0 <= j < |pipelines| ==> pipelines[j].Model() == was[j] && pipelines[j].Repr() <= footprint
      modifies footprint
      ensures Valid()
      ensures forall j :: 0 <= j < |pipelines| ==> pipelines[j].Model() == P.Updated(was[j], newConfig)
    {
      for i := 0 to |pipelines|
        invariant Valid()
        invariant forall j :: 0 <= j < i ==> pipelines[j].Model() == P.Updated(was[j], newConfig)
        invariant forall j :: i <= j < |pipelines| ==> pipelines[j].Model() == was[j] && pipelines[j].Repr() <= footprint
      {
        UpdateOne(i, newConfig);
      }
    }

    /** Updating one pipeline leaves the others alone. */
    method UpdateOne(i: nat, newConfig: Config)
      requires Valid() && i < |pipelines|
      modifies pipelines[i].Repr()
      ensures Valid()
      ensures pipelines[i].Model() == P.Updated(old(pipelines[i].Model()), newConfig)
      ensures forall j :: 0 <= j < |pipelines| && j != i ==>
                pipelines[j].Repr() == old(pipelines[j].Repr()) && pipelines[j].Model() == old(pipelines[j].Model())
    {
      forall j | 0 <= j < |pipelines| && j != i
        ensures pipelines[j].Repr() !! pipelines[i].Repr()
      {
        assert Separate(i, j);
      }
      pipelines[i].UpdateConfig(newConfig);
      forall a, b | 0 <= a < |pipelines| && 0 <= b < |pipelines| && a != b
        ensures Separate(a, b)
      {
        assert old(Separate(a, b));
      }
    }
  }

  // ---- whole runs ----

  predicate StepsTo(s: State, loader: Loader, e: Event, next: State) { next == Stepped(s, loader, e) }

  /** A daemon started on `content`, with one pipeline per controller. */
  ghost predicate Started(s: State, loader: Loader, content: string) {
    && loader.parse(content) == Some(s.config) && s.digestSeen == Some(loader.digest(content))
    && forall i :: 0 <= i < |s.pipelines| ==> IsBuilt(s.pipelines[i], s.config)
  }

  /** A pipeline as build_pipeline makes it, with or without a notifier. */
  ghost predicate IsBuilt(s: P.State, config: Config) {
    exists notifier :: s == P.Built(config, notifier)
  }

  lemma {:induction false} StartAgrees(s: State, loader: Loader, content: string)
    requires Started(s, loader, content)
    ensures AllAgree(s)
  {
    forall i | 0 <= i < |s.pipelines| ensures P.KnobsAgree(s.pipelines[i], s.config) {
      assert IsBuilt(s.pipelines[i], s.config);
      var notifier :| s.pipelines[i] == P.Built(s.config, notifier);
      P.BuiltAgreesAndIsEmpty(s.config, notifier);
    }
  }

  ghost predicate Run(ss: seq<State>, loader: Loader, events: seq<Event>) {
    && |ss| == |events| + 1
    && forall k :: 0 <= k < |events| ==> StepsTo(ss[k], loader, events[k], ss[k + 1])
  }

  /** The content on disk as last read. */
  function LastRead(content: string, events: seq<Event>, k: nat): string
    requires k <= |events|
  {
    if k == 0 then content
    else if events[k - 1].Tick? && events[k - 1].file.Some? then events[k - 1].file.value
    else LastRead(content, events, k - 1)
  }

  /** The last content read that parses. */
  function LastValid(loader: Loader, content: string, events: seq<Event>, k: nat): string
    requires k <= |events|
  {
    if k == 0 then content
    else if events[k - 1].Tick? && events[k - 1].file.Some? && loader.parse(events[k - 1].file.value).Some?
    then events[k - 1].file.value
    else LastValid(loader, content, events, k - 1)
  }

  ghost predicate AllAgree(s: State) {
    forall i :: 0 <= i < |s.pipelines| ==> P.KnobsAgree(s.pipelines[i], s.config)
  }

  lemma {:induction false} StepKeepsAgreement(s: State, loader: Loader, e: Event)
    requires AllAgree(s)
    ensures AllAgree(Stepped(s, loader, e))
  {
    var next := Stepped(s, loader, e);
    forall i | 0 <= i < |next.pipelines| ensures P.KnobsAgree(next.pipelines[i], next.config) {
      match e
      case Tick(file) =>
        if next.pipelines[i] != s.pipelines[i] || next.config != s.config {
          P.UpdateAgreesAndKeepsState(s.pipelines[i], s.config, next.config);
        }
      case Scan(j, act) =>
        if i == j { P.ActKeepsKnobs(s.pipelines[i], act, s.config); }
    }
  }

  lemma {:induction false} RunKeepsConfig(ss: seq<State>, loader: Loader, content: string, events: seq<Event>, k: nat)
    requires Run(ss, loader, events) && Started(ss[0], loader, content) && loader.CollisionFree() && k < |ss|
    ensures loader.parse(LastValid(loader, content, events, k)) == Some(ss[k].config)
    ensures ss[k].digestSeen == Some(loader.digest(LastRead(content, events, k)))
    ensures loader.parse(LastRead(content, events, k)).Some? ==>
              LastValid(loader, content, events, k) == LastRead(content, events, k)
  {
    if k > 0 {
      RunKeepsConfig(ss, loader, content, events, k - 1);
      assert StepsTo(ss[k - 1], loader, events[k - 1], ss[k]);
    }
  }

  lemma {:induction false} RunKeepsAgreement(ss: seq<State>, loader: Loader, content: string, events: seq<Event>, k: nat)
    requires Run(ss, loader, events) && Started(ss[0], loader, content) && k < |ss|
    ensures AllAgree(ss[k])
  {
    if k > 0 {
      RunKeepsAgreement(ss, loader, content, events, k - 1);
      assert StepsTo(ss[k - 1], loader, events[k - 1], ss[k]);
      StepKeepsAgreement(ss[k - 1], loader, events[k - 1]);
    } else {
      StartAgrees(ss[0], loader, content);
    }
  }

  /** In every run of watch ticks and scans, the daemon's configuration is the parse of the last
      valid content read, and every pipeline's cached knobs agree with it. */
  lemma {:induction false} ConfigIsLastValidContent(
      ss: seq<State>, loader: Loader, content: string, events: seq<Event>, k: nat)
    requires Run(ss, loader, events) && Started(ss[0], loader, content) && loader.CollisionFree() && k < |ss|
    ensures loader.parse(LastValid(loader, content, events, k)) == Some(ss[k].config)
    ensures forall i :: 0 <= i < |ss[k].pipelines| ==> P.KnobsAgree(ss[k].pipelines[i], ss[k].config)
  {
    RunKeepsConfig(ss, loader, content, events, k);
    RunKeepsAgreement(ss, loader, content, events, k);
  }

  /** A reload is attempted exactly when a readable tick finds content other than the last read:
      a broken edit is tried once, not on every tick. */
  lemma {:induction false} ReloadsOncePerEdit(
      ss: seq<State>, loader: Loader, content: string, events: seq<Event>, k: nat)
    requires Run(ss, loader, events) && Started(ss[0], loader, content) && loader.CollisionFree() && k < |events|
    ensures ss[k + 1].attempts == ss[k].attempts
            + (if events[k].Tick? && events[k].file.Some? && events[k].file.value != LastRead(content, events, k)
               then 1 else 0)
  {
    RunKeepsConfig(ss, loader, content, events, k);
    assert StepsTo(ss[k], loader, events[k], ss[k + 1]);
  }
}
