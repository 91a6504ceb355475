/** The DNS-thrash detector: per-(MAC, domain) deques of query times pruned to a trailing
    window, and a per-MAC marker of when the over-threshold condition began. */
module DnsThrash {
  import opened Config
  import opened Windows
  import Resolution
  import R = Rationale

  type Domain = string

  datatype Query = Query(ts: real, clientIp: string, domain: Domain)

  type Domains = map<Domain, seq<real>>

  type Counts = map<Mac, Domains>

  /** The detector between polls; standings are recomputed by each poll. */
  datatype State = State(counts: Counts, overSince: map<Mac, real>, lastPollTs: Option<real>)

  /** One poll: the clock, the configuration in force, the controller's clients, and the
      source's answer, None when it raised. */
  datatype Poll = Poll(now: real, config: Config, clients: seq<Client>, answer: Option<seq<Query>>)

  function Cutoff(poll: Poll): real { poll.now - poll.config.detection.dnsThrash.WindowSeconds() }

  // ---- the MAC-to-IP join ----

  function IpToMac(clients: seq<Client>): map<string, Mac> {
    if clients == [] then map[] else
      var last := clients[|clients| - 1];
      var before := IpToMac(clients[..|clients| - 1]);
      if last.ip.Some? && last.ip.value != "" then before[last.ip.value := last.mac] else before
  }

  /** The last client of the snapshot that reports this address, which must not be blank. */
  ghost predicate LastHolder(clients: seq<Client>, ip: string, k: int) {
    && ip != "" && 0 <= k < |clients| && clients[k].ip == Some(ip)
    && forall i :: k < i < |clients| ==> clients[i].ip != Some(ip)
  }

  /** Queries from this address belong to this MAC. */
  ghost predicate HeldBy(clients: seq<Client>, ip: string, mac: Mac) {
    exists k :: LastHolder(clients, ip, k) && clients[k].mac == mac
  }

  /** The join is by the snapshot: an address is in it exactly when some client holds it, and it
      then belongs to the last one that does. */
  lemma {:induction false} JoinIsLastHolder(clients: seq<Client>, ip: string, mac: Mac)
    ensures ip in IpToMac(clients) <==> ip != "" && exists k :: 0 <= k < |clients| && clients[k].ip == Some(ip)
    ensures ip in IpToMac(clients) && IpToMac(clients)[ip] == mac <==> HeldBy(clients, ip, mac)
  {
    if clients != [] {
      var n := |clients| - 1;
      var init := clients[..n];
      JoinIsLastHolder(init, ip, mac);
      assert forall i :: 0 <= i < n ==> init[i] == clients[i];
      if ip != "" && clients[n].ip == Some(ip) {
        assert LastHolder(clients, ip, n);
      } else {
        assert forall k :: LastHolder(clients, ip, k) <==> LastHolder(init, ip, k);
      }
    }
  }

  method JoinClients(clients: seq<Client>) returns (ipToMac: map<string, Mac>)
    ensures ipToMac == IpToMac(clients)
  {
    ipToMac := map[];
    for i := 0 to |clients|
      invariant ipToMac == IpToMac(clients[..i])
    {
      assert clients[..i + 1][..i] == clients[..i];
      if clients[i].ip.Some? && clients[i].ip.value != "" {
        ipToMac := ipToMac[clients[i].ip.value := clients[i].mac];
      }
    }
    assert clients[..|clients|] == clients;
  }

  /** The deque of a (MAC, domain), empty when the dictionaries have none. */
  function DequeOf(counts: Counts, mac: Mac, domain: Domain): seq<real> {
    if mac in counts && domain in counts[mac] then counts[mac][domain] else []
  }

  function DomainsOf(counts: Counts, mac: Mac): Domains {
    if mac in counts then counts[mac] else map[]
  }

  function Counted(counts: Counts, mac: Mac, query: Query): Counts {
    counts[mac := DomainsOf(counts, mac)[query.domain := DequeOf(counts, mac, query.domain) + [query.ts]]]
  }

  /** Appends in arrival order, ignoring queries from addresses no client holds. */
  function Ingested(counts: Counts, join: map<string, Mac>, queries: seq<Query>): Counts {
    if queries == [] then counts else
      var last := queries[|queries| - 1];
      var before := Ingested(counts, join, queries[..|queries| - 1]);
      if last.clientIp in join then Counted(before, join[last.clientIp], last) else before
  }

  method IngestQueries(start: Counts, join: map<string, Mac>, queries: seq<Query>) returns (counts: Counts)
    ensures counts == Ingested(start, join, queries)
  {
    counts := start;
    for i := 0 to |queries|
      invariant counts == Ingested(start, join, queries[..i])
    {
      assert queries[..i + 1][..i] == queries[..i];
      var query := queries[i];
      ghost var before := counts;
      if query.clientIp in join {
        var mac := join[query.clientIp];
        if mac !in counts { counts := counts[mac := map[]]; }
        if query.domain !in counts[mac] { counts := counts[mac := counts[mac][query.domain := []]]; }
        counts := counts[mac := counts[mac][query.domain := counts[mac][query.domain] + [query.ts]]];
        assert counts[mac] == Counted(before, mac, query)[mac];
        assert counts == Counted(before, mac, query);
      }
    }
    assert queries[..|queries|] == queries;
  }

  // ---- the sweep ----

  /** A MAC's domains once pruned, without the emptied ones. */
  function Swept(domains: Domains, cutoff: real): Domains {
    map domain | domain in domains && DropBefore(domains[domain], cutoff) != [] ::
      DropBefore(domains[domain], cutoff)
  }

  predicate IsOver(domains: Domains, threshold: nat) {
    exists domain :: domain in domains && |domains[domain]| > threshold
  }

  /** This MAC is over threshold in a poll that starts from `counts` after its ingest. */
  predicate OverIn(counts: Counts, mac: Mac, poll: Poll) {
    mac in counts
    && IsOver(Swept(counts[mac], Cutoff(poll)), Resolution.DnsMaxFor(mac, poll.config))
  }

  function SweptCounts(counts: Counts, cutoff: real): Counts {
    map mac | mac in counts && Swept(counts[mac], cutoff) != map[] :: Swept(counts[mac], cutoff)
  }

  function Marked(counts: Counts, overSince: map<Mac, real>, poll: Poll): map<Mac, real> {
    map mac | mac in counts.Keys + overSince.Keys && (if mac in counts then OverIn(counts, mac, poll) else true) ::
      StreakStart(overSince, mac, poll.now)
  }

  function Joined(s: State, poll: Poll): Counts
    requires poll.answer.Some?
  {
    Ingested(s.counts, IpToMac(poll.clients), poll.answer.value)
  }

  function Polled(s: State, poll: Poll): State {
    if poll.answer.None? then s.(lastPollTs := Some(poll.now)) else
      var counts := Joined(s, poll);
      State(SweptCounts(counts, Cutoff(poll)), Marked(counts, s.overSince, poll), Some(poll.now))
  }

  /** When this MAC's streak began, as a poll leaves it. */
  function StreakStart(overSince: map<Mac, real>, mac: Mac, now: real): real {
    if mac in overSince then overSince[mac] else now
  }

  predicate FlagIn(counts: Counts, overSince: map<Mac, real>, poll: Poll, mac: Mac) {
    OverIn(counts, mac, poll)
    && poll.now - StreakStart(overSince, mac, poll.now) >= poll.config.detection.dnsThrash.SustainSeconds()
  }

  /** The MACs a poll flags. */
  predicate Flagged(s: State, poll: Poll, mac: Mac) {
    poll.answer.Some? && FlagIn(Joined(s, poll), s.overSince, poll, mac)
  }

  predicate StandingIn(counts: Counts, overSince: map<Mac, real>, poll: Poll, st: R.Standing) {
    && st.mac in counts
    && var live := Swept(counts[st.mac], Cutoff(poll));
    && st.domain in live && st.count == |live[st.domain]|
    && st.threshold == Resolution.DnsMaxFor(st.mac, poll.config)
    && st.overSince == if OverIn(counts, st.mac, poll)
                       then Some(StreakStart(overSince, st.mac, poll.now)) else None
  }

  /** A standing a poll records: one per live (MAC, domain). */
  predicate IsStanding(s: State, poll: Poll, st: R.Standing) {
    poll.answer.Some? && StandingIn(Joined(s, poll), s.overSince, poll, st)
  }

  // ---- the sweep, one MAC at a time ----

  /** The dictionaries once the MACs in `swept` have been visited. */
  ghost predicate CountsUpTo(start: Counts, cutoff: real, swept: seq<Mac>, counts: Counts) {
    && (forall mac :: mac in counts <==>
          mac in start && (mac in swept ==> Swept(start[mac], cutoff) != map[]))
    && (forall mac :: mac in counts ==>
          counts[mac] == if mac in swept then Swept(start[mac], cutoff) else start[mac])
  }

  ghost predicate MarkersUpTo(
    start: Counts, since: map<Mac, real>, poll: Poll, swept: seq<Mac>, overSince: map<Mac, real>)
  {
    && (forall mac :: mac in overSince <==>
          if mac in swept then OverIn(start, mac, poll) else mac in since)
    && (forall mac :: mac in overSince ==> overSince[mac] == StreakStart(since, mac, poll.now))
  }

  ghost predicate SweptUpTo(
    start: Counts, since: map<Mac, real>, poll: Poll, swept: seq<Mac>, counts: Counts, overSince: map<Mac, real>)
  {
    CountsUpTo(start, Cutoff(poll), swept, counts) && MarkersUpTo(start, since, poll, swept, overSince)
  }

  lemma {:induction false} SweptAll(
      start: Counts, since: map<Mac, real>, poll: Poll, swept: seq<Mac>, counts: Counts, overSince: map<Mac, real>)
    requires SweptUpTo(start, since, poll, swept, counts, overSince)
    requires forall mac :: mac in swept <==> mac in start
    ensures counts == SweptCounts(start, Cutoff(poll)) && overSince == Marked(start, since, poll)
  {
    CountsAll(start, Cutoff(poll), swept, counts);
    MarkersAll(start, since, poll, swept, overSince);
  }

  lemma {:induction false} MarkersAll(
      start: Counts, since: map<Mac, real>, poll: Poll, swept: seq<Mac>, overSince: map<Mac, real>)
    requires MarkersUpTo(start, since, poll, swept, overSince) && forall mac :: mac in swept <==> mac in start
    ensures overSince == Marked(start, since, poll)
  {
    assert overSince.Keys == Marked(start, since, poll).Keys;
  }

  lemma {:induction false} CountsAll(start: Counts, cutoff: real, swept: seq<Mac>, counts: Counts)
    requires CountsUpTo(start, cutoff, swept, counts) && forall mac :: mac in swept <==> mac in start
    ensures counts == SweptCounts(start, cutoff)
  {
  }

  /** A MAC not yet visited is judged as it was at the start. */
  lemma {:induction false} UnsweptIsUntouched(
      start: Counts, since: map<Mac, real>, poll: Poll, swept: seq<Mac>, counts: Counts, overSince: map<Mac, real>, mac: Mac)
    requires SweptUpTo(start, since, poll, swept, counts, overSince) && mac in start && mac !in swept
    ensures mac in counts && counts[mac] == start[mac]
    ensures StreakStart(overSince, mac, poll.now) == StreakStart(since, mac, poll.now)
    ensures FlagIn(counts, overSince, poll, mac) == FlagIn(start, since, poll, mac)
    ensures forall st: R.Standing :: st.mac == mac ==>
              StandingIn(counts, overSince, poll, st) == StandingIn(start, since, poll, st)
  {
    assert OverIn(counts, mac, poll) == OverIn(start, mac, poll);
  }

  /** What visiting one MAC does to the dictionaries. */
  ghost predicate Visited(
    counts: Counts, overSince: map<Mac, real>, poll: Poll, mac: Mac, counts': Counts, overSince': map<Mac, real>)
    requires mac in counts
  {
    var kept := Swept(counts[mac], Cutoff(poll));
    && counts' == (if kept == map[] then counts - {mac} else counts[mac := kept])
    && overSince' == (if OverIn(counts, mac, poll)
                      then overSince[mac := StreakStart(overSince, mac, poll.now)] else overSince - {mac})
  }

  lemma {:induction false} VisitExtendsCounts(start: Counts, cutoff: real, swept: seq<Mac>, counts: Counts, mac: Mac)
    requires CountsUpTo(start, cutoff, swept, counts) && mac in start && mac !in swept
    ensures var kept := Swept(start[mac], cutoff);
            CountsUpTo(start, cutoff, swept + [mac], if kept == map[] then counts - {mac} else counts[mac := kept])
  {
    assert forall m :: m in swept + [mac] <==> m in swept || m == mac;
  }

  lemma {:induction false} VisitExtendsMarkers(
      start: Counts, since: map<Mac, real>, poll: Poll, swept: seq<Mac>, overSince: map<Mac, real>, mac: Mac)
    requires MarkersUpTo(start, since, poll, swept, overSince) && mac !in swept
    ensures MarkersUpTo(start, since, poll, swept + [mac],
                        if OverIn(start, mac, poll) then overSince[mac := StreakStart(since, mac, poll.now)]
                        else overSince - {mac})
  {
    assert forall m :: m in swept + [mac] <==> m in swept || m == mac;
  }

  lemma {:induction false} VisitExtendsSweep(
      start: Counts, since: map<Mac, real>, poll: Poll, swept: seq<Mac>, counts: Counts, overSince: map<Mac, real>,
      mac: Mac, counts': Counts, overSince': map<Mac, real>)
    requires SweptUpTo(start, since, poll, swept, counts, overSince) && mac in start && mac !in swept
    requires mac in counts && Visited(counts, overSince, poll, mac, counts', overSince')
    ensures SweptUpTo(start, since, poll, swept + [mac], counts', overSince')
  {
    UnsweptIsUntouched(start, since, poll, swept, counts, overSince, mac);
    assert OverIn(counts, mac, poll) == OverIn(start, mac, poll);
    VisitExtendsCounts(start, Cutoff(poll), swept, counts, mac);
    VisitExtendsMarkers(start, since, poll, swept, overSince, mac);
  }

  lemma {:induction false} EmptyIsNotOver(counts: Counts, mac: Mac, poll: Poll)
    requires mac in counts && Swept(counts[mac], Cutoff(poll)) == map[]
    ensures !OverIn(counts, mac, poll)
  {
    assert forall domain :: domain !in Swept(counts[mac], Cutoff(poll));
  }

  // ---- the class ----

  /** list(d.keys()): some order of a dictionary's keys. */
  method Enumerate<T>(keys: set<T>) returns (order: seq<T>)
    ensures forall x :: x in order <==> x in keys
    ensures forall i, j :: 0 <= i < j < |order| ==> order[i] != order[j]
  {
    order := [];
    var rest := keys;
    while rest != {}
      invariant forall x :: x in keys <==> x in order || x in rest
      invariant forall x :: x in order ==> x !in rest
      invariant forall i, j :: 0 <= i < j < |order| ==> order[i] != order[j]
      decreases |rest|
    {
      var x :| x in rest;
      order := order + [x];
      rest := rest - {x};
    }
  }

  class DnsThrashDetector {
    var config: Config
    var counts: Counts
    var overSince: map<Mac, real>
    var lastPollTs: Option<real>
    var lastStandings: seq<R.Standing>

    function Model(): State reads this { State(counts, overSince, lastPollTs) }

    constructor (config: Config)
      ensures Model() == State(map[], map[], None) && lastStandings == [] && this.config == config
    {
      this.config := config;
      counts, overSince, lastPollTs, lastStandings := map[], map[], None, [];
    }

    method UpdateConfig(config: Config)
      modifies this`config
      ensures this.config == config
    {
      this.config := config;
    }

    method Observe(poll: Poll) returns (flagged: seq<Mac>)
      requires poll.config == config
      modifies this`counts, this`overSince, this`lastPollTs, this`lastStandings
      ensures Model() == Polled(old(Model()), poll)
      ensures forall mac :: mac in flagged <==> Flagged(old(Model()), poll, mac)
      ensures forall st :: st in lastStandings <==> IsStanding(old(Model()), poll, st)
    {
      var join := JoinClients(poll.clients);
      lastPollTs := Some(poll.now);
      if poll.answer.None? {
        lastStandings := [];
        return [];
      }
      counts := IngestQueries(counts, join, poll.answer.value);
      flagged := Sweep(poll);
    }

    method Sweep(poll: Poll) returns (flagged: seq<Mac>)
      modifies this`counts, this`overSince, this`lastStandings
      ensures counts == SweptCounts(old(counts), Cutoff(poll))
      ensures overSince == Marked(old(counts), old(overSince), poll)
      ensures forall mac :: mac in flagged <==> FlagIn(old(counts), old(overSince), poll, mac)
      ensures forall st :: st in lastStandings <==> StandingIn(old(counts), old(overSince), poll, st)
    {
      var order := Enumerate(counts.Keys);
      var standings: seq<R.Standing> := [];
      flagged := [];
      for i := 0 to |order|
        invariant SweptUpTo(old(counts), old(overSince), poll, order[..i], counts, overSince)
        invariant forall mac :: mac in flagged <==>
                    mac in order[..i] && FlagIn(old(counts), old(overSince), poll, mac)
        invariant forall st :: st in standings <==>
                    st.mac in order[..i] && StandingIn(old(counts), old(overSince), poll, st)
      {
        var mac := order[i];
        assert order[..i + 1] == order[..i] + [mac];
        UnsweptIsUntouched(old(counts), old(overSince), poll, order[..i], counts, overSince, mac);
        ghost var c, o := counts, overSince;
        var flag, live := SweepMac(mac, poll);
        VisitExtendsSweep(old(counts), old(overSince), poll, order[..i], c, o, mac, counts, overSince);
        if flag { flagged := flagged + [mac]; }
        standings := standings + live;
      }
      lastStandings := standings;
      assert order[..|order|] == order;
      SweptAll(old(counts), old(overSince), poll, order, counts, overSince);
    }

    /** One MAC: prune its deques, drop what emptied, and keep its streak marker in step. */
    method SweepMac(mac: Mac, poll: Poll) returns (flag: bool, live: seq<R.Standing>)
      requires mac in counts
      modifies this`counts, this`overSince
      ensures Visited(old(counts), old(overSince), poll, mac, counts, overSince)
      ensures flag <==> FlagIn(old(counts), old(overSince), poll, mac)
      ensures forall st :: st in live <==>
                st.mac == mac && StandingIn(old(counts), old(overSince), poll, st)
    {
      var threshold := Resolution.DnsMaxFor(mac, poll.config);
      var kept, domains, over := PruneDomains(counts[mac], Cutoff(poll), threshold);
      flag, live := false, [];
      if kept == map[] {
        EmptyIsNotOver(counts, mac, poll);
        counts := counts - {mac};
        overSince := overSince - {mac};
        return;
      }
      counts := counts[mac := kept];
      if !over {
        overSince := overSince - {mac};
      } else {
        if mac !in overSince { overSince := overSince[mac := poll.now]; }
        flag := poll.now - overSince[mac] >= poll.config.detection.dnsThrash.SustainSeconds();
      }
      var marker: Option<real> := None;
      if mac in overSince { marker := Some(overSince[mac]); }
      live := StandingsOf(mac, domains, threshold, marker);
    }
  }

  /** A live domain with its count. */
  datatype Live = Live(domain: Domain, count: nat)

  ghost predicate PrunedUpTo(domains: Domains, cutoff: real, done: seq<Domain>, kept: Domains) {
    && (forall d :: d in kept <==> d in domains && (d in done ==> DropBefore(domains[d], cutoff) != []))
    && (forall d :: d in kept ==> kept[d] == if d in done then DropBefore(domains[d], cutoff) else domains[d])
  }

  /** One entry per domain of `done` that is still live. */
  ghost predicate Lists(live: seq<Live>, done: seq<Domain>, kept: Domains) {
    forall l :: l in live <==> l.domain in done && l.domain in kept && l.count == |kept[l.domain]|
  }

  ghost predicate AnyOver(live: seq<Live>, threshold: nat) {
    exists l :: l in live && l.count > threshold
  }

  lemma {:induction false} AnyOverIsIsOver(live: seq<Live>, done: seq<Domain>, kept: Domains, threshold: nat)
    requires Lists(live, done, kept) && forall d :: d in kept ==> d in done
    ensures AnyOver(live, threshold) <==> IsOver(kept, threshold)
  {
    if IsOver(kept, threshold) {
      var d :| d in kept && |kept[d]| > threshold;
      assert Live(d, |kept[d]|) in live;
    }
  }

  /** The popleft loop on each deque; emptied domains are deleted. */
  method PruneDomains(domains: Domains, cutoff: real, threshold: nat)
    returns (kept: Domains, live: seq<Live>, over: bool)
    ensures kept == Swept(domains, cutoff)
    ensures forall l :: l in live <==> l.domain in kept && l.count == |kept[l.domain]|
    ensures over <==> IsOver(kept, threshold)
  {
    var order := Enumerate(domains.Keys);
    kept, live, over := domains, [], false;
    for i := 0 to |order|
      invariant PrunedUpTo(domains, cutoff, order[..i], kept) && Lists(live, order[..i], kept)
      invariant over <==> AnyOver(live, threshold)
    {
      assert order[..i + 1] == order[..i] + [order[i]];
      kept, live, over := PruneDomain(kept, live, over, order[i], cutoff, threshold, domains, order[..i]);
    }
    assert order[..|order|] == order;
    PrunedAll(domains, cutoff, order, kept, live, threshold);
  }

  lemma {:induction false} PrunedAll(
      domains: Domains, cutoff: real, order: seq<Domain>, kept: Domains, live: seq<Live>, threshold: nat)
    requires PrunedUpTo(domains, cutoff, order, kept) && Lists(live, order, kept)
    requires forall d :: d in order <==> d in domains
    ensures kept == Swept(domains, cutoff)
    ensures forall l :: l in live <==> l.domain in kept && l.count == |kept[l.domain]|
    ensures AnyOver(live, threshold) <==> IsOver(kept, threshold)
  {
    AnyOverIsIsOver(live, order, kept, threshold);
  }

  /** One domain of the loop. */
  method PruneDomain(
      before: Domains, listed: seq<Live>, wasOver: bool, domain: Domain, cutoff: real, threshold: nat,
      ghost domains: Domains, ghost done: seq<Domain>)
    returns (kept: Domains, live: seq<Live>, over: bool)
    requires PrunedUpTo(domains, cutoff, done, before) && Lists(listed, done, before)
    requires domain in domains && domain !in done && (wasOver <==> AnyOver(listed, threshold))
    ensures PrunedUpTo(domains, cutoff, done + [domain], kept) && Lists(live, done + [domain], kept)
    ensures over <==> AnyOver(live, threshold)
  {
    kept, live, over := before, listed, wasOver;
    var timestamps := PopLeft(before[domain], cutoff);
    if timestamps == [] {
      kept := kept - {domain};
    } else {
      kept := kept[domain := timestamps];
      live := live + [Live(domain, |timestamps|)];
      if |timestamps| > threshold { over := true; }
    }
  }

  method PopLeft(deque: seq<real>, cutoff: real) returns (kept: seq<real>)
    ensures kept == DropBefore(deque, cutoff)
  {
    kept := deque;
    while kept != [] && kept[0] < cutoff
      invariant DropBefore(deque, cutoff) == DropBefore(kept, cutoff)
      decreases |kept|
    {
      kept := kept[1..];
    }
  }

  method StandingsOf(mac: Mac, live: seq<Live>, threshold: nat, marker: Option<real>)
    returns (standings: seq<R.Standing>)
    ensures forall st: R.Standing :: st in standings <==>
              Live(st.domain, st.count) in live && st == R.Standing(mac, st.domain, st.count, threshold, marker)
  {
    standings := [];
    for i := 0 to |live|
      invariant forall st: R.Standing :: st in standings <==>
                  Live(st.domain, st.count) in live[..i]
                  && st == R.Standing(mac, st.domain, st.count, threshold, marker)
    {
      assert live[..i + 1] == live[..i] + [live[i]];
      standings := standings + [R.Standing(mac, live[i].domain, live[i].count, threshold, marker)];
    }
    assert live[..|live|] == live;
  }

  // ---- whole runs of polls ----

  predicate Follows(s: State, poll: Poll, next: State) { next == Polled(s, poll) }

  /** Polls of a detector that starts empty, with the states between them. */
  ghost predicate Ran(states: seq<State>, polls: seq<Poll>) {
    && |states| == |polls| + 1 && states[0] == State(map[], map[], None)
    && forall k :: 0 <= k < |polls| ==> Follows(states[k], polls[k], states[k + 1])
  }

  /** The MAC was over threshold in successful poll k. */
  ghost predicate OverAt(states: seq<State>, polls: seq<Poll>, k: int, mac: Mac) {
    0 <= k < |polls| && k < |states| && polls[k].answer.Some? && OverIn(Joined(states[k], polls[k]), mac, polls[k])
  }

  ghost predicate Succeeded(polls: seq<Poll>, k: int) { 0 <= k < |polls| && polls[k].answer.Some? }

  /** j is the last successful poll before k. */
  ghost predicate LastSuccess(polls: seq<Poll>, j: int, k: int) {
    j < k && Succeeded(polls, j) && forall i :: j < i < k ==> !Succeeded(polls, i)
  }

  /** j begins the maximal run of over-threshold polls that reaches up to k: from j to k the
      MAC is over in every successful poll, and it was not in the successful poll before j. */
  ghost predicate StreakBegins(states: seq<State>, polls: seq<Poll>, j: int, k: int, mac: Mac) {
    && 0 <= j < k && OverAt(states, polls, j, mac)
    && (forall i :: j <= i < k && Succeeded(polls, i) ==> OverAt(states, polls, i, mac))
    && (forall i :: LastSuccess(polls, i, j) ==> !OverAt(states, polls, i, mac))
  }

  ghost predicate NoStreak(states: seq<State>, polls: seq<Poll>, k: int, mac: Mac) {
    forall i :: LastSuccess(polls, i, k) ==> !OverAt(states, polls, i, mac)
  }

  /** `_over_since` keys are `_counts` keys, and no dictionary or deque is left empty. */
  ghost predicate Tidy(s: State) {
    && s.overSince.Keys <= s.counts.Keys
    && (forall mac :: mac in s.counts ==> s.counts[mac] != map[])
    && (forall mac, domain :: mac in s.counts && domain in s.counts[mac] ==> s.counts[mac][domain] != [])
  }

  lemma {:induction false} IngestKeepsKeys(counts: Counts, join: map<string, Mac>, queries: seq<Query>)
    ensures counts.Keys <= Ingested(counts, join, queries).Keys
  {
    if queries != [] {
      IngestKeepsKeys(counts, join, queries[..|queries| - 1]);
    }
  }

  lemma {:induction false} PollIsTidy(s: State, poll: Poll)
    requires Tidy(s)
    ensures Tidy(Polled(s, poll))
  {
    if poll.answer.Some? {
      var counts := Joined(s, poll);
      var next := Polled(s, poll);
      IngestKeepsKeys(s.counts, IpToMac(poll.clients), poll.answer.value);
      forall mac | mac in next.overSince ensures mac in next.counts {
        assert mac in counts;
      }
    }
  }

  lemma {:induction false} RunIsTidy(states: seq<State>, polls: seq<Poll>, k: nat)
    requires Ran(states, polls) && k <= |polls|
    ensures Tidy(states[k])
  {
    if k > 0 {
      RunIsTidy(states, polls, k - 1);
      assert Follows(states[k - 1], polls[k - 1], states[k]);
      PollIsTidy(states[k - 1], polls[k - 1]);
    }
  }

  /** How a poll moves one MAC's marker. */
  lemma {:induction false} PollMovesMarker(s: State, poll: Poll, mac: Mac)
    requires Tidy(s)
    ensures var next := Polled(s, poll);
            if poll.answer.None? then next.overSince == s.overSince
            else if OverIn(Joined(s, poll), mac, poll)
            then mac in next.overSince && next.overSince[mac] == StreakStart(s.overSince, mac, poll.now)
            else mac !in next.overSince
  {
    if poll.answer.Some? {
      IngestKeepsKeys(s.counts, IpToMac(poll.clients), poll.answer.value);
    }
  }

  lemma {:induction false} StreakGrows(states: seq<State>, polls: seq<Poll>, j: nat, k: nat, mac: Mac)
    requires StreakBegins(states, polls, j, k, mac) && (Succeeded(polls, k) ==> OverAt(states, polls, k, mac))
    ensures StreakBegins(states, polls, j, k + 1, mac)
  {
  }

  lemma {:induction false} NoStreakStays(states: seq<State>, polls: seq<Poll>, k: nat, mac: Mac)
    requires !OverAt(states, polls, k, mac) && (!Succeeded(polls, k) ==> NoStreak(states, polls, k, mac))
    ensures NoStreak(states, polls, k + 1, mac)
  {
    forall i | LastSuccess(polls, i, k + 1) ensures !OverAt(states, polls, i, mac) {
      assert i == k || LastSuccess(polls, i, k);
    }
  }

  /** The marker is the time of the first poll of the maximal over-threshold suffix; failed
      polls neither break nor extend it. */
  lemma {:induction false} MarkerIsStreakStart(states: seq<State>, polls: seq<Poll>, k: nat, mac: Mac) returns (j: nat)
    requires Ran(states, polls) && k <= |polls|
    ensures if mac in states[k].overSince
            then StreakBegins(states, polls, j, k, mac) && states[k].overSince[mac] == polls[j].now
            else NoStreak(states, polls, k, mac)
  {
    j := 0;
    if k > 0 {
      var n := k - 1;
      j := MarkerIsStreakStart(states, polls, n, mac);
      assert Follows(states[n], polls[n], states[k]);
      RunIsTidy(states, polls, n);
      PollMovesMarker(states[n], polls[n], mac);
      if mac !in states[k].overSince {
        NoStreakStays(states, polls, n, mac);
      } else if mac in states[n].overSince {
        StreakGrows(states, polls, j, n, mac);
      } else {
        j := n;
      }
    }
  }

  lemma {:induction false} LastSuccessBefore(polls: seq<Poll>, a: nat, b: nat) returns (i: nat)
    requires Succeeded(polls, a) && a < b
    ensures a <= i && LastSuccess(polls, i, b)
  {
    i := b - 1;
    while !Succeeded(polls, i)
      invariant a <= i < b && forall l :: i < l < b ==> !Succeeded(polls, l)
      decreases i
    {
      i := i - 1;
    }
  }

  lemma {:induction false} StreakStartIsUnique(states: seq<State>, polls: seq<Poll>, a: nat, b: nat, k: nat, mac: Mac)
    requires StreakBegins(states, polls, a, k, mac) && StreakBegins(states, polls, b, k, mac)
    ensures a == b
  {
    if a < b {
      var i := LastSuccessBefore(polls, a, b);
    } else if b < a {
      var i := LastSuccessBefore(polls, b, a);
    }
  }

  /** The MAC's current streak, up to poll k, is at least the poll's sustain time old. */
  ghost predicate Sustained(states: seq<State>, polls: seq<Poll>, j: int, k: nat, mac: Mac)
    requires k < |polls|
  {
    StreakBegins(states, polls, j, k + 1, mac)
    && polls[k].now - polls[j].now >= polls[k].config.detection.dnsThrash.SustainSeconds()
  }

  /** A MAC is flagged exactly when, this poll included, it has been over threshold in every
      successful poll since one at least the sustain time ago that began the streak. */
  lemma {:induction false} FlaggedIffSustained(states: seq<State>, polls: seq<Poll>, k: nat, mac: Mac)
    requires Ran(states, polls) && k < |polls|
    ensures Flagged(states[k], polls[k], mac) <==>
            polls[k].answer.Some? && exists j :: Sustained(states, polls, j, k, mac)
  {
    var s, poll := states[k], polls[k];
    assert Follows(s, poll, states[k + 1]);
    RunIsTidy(states, polls, k);
    PollMovesMarker(s, poll, mac);
    var j := MarkerIsStreakStart(states, polls, k + 1, mac);
    if poll.answer.Some? {
      if OverIn(Joined(s, poll), mac, poll) {
        forall b | Sustained(states, polls, b, k, mac) ensures b == j {
          StreakStartIsUnique(states, polls, b, j, k + 1, mac);
        }
        assert Flagged(s, poll, mac) <==> Sustained(states, polls, j, k, mac);
      } else {
        forall b ensures !Sustained(states, polls, b, k, mac) {
          assert Succeeded(polls, k) && !OverAt(states, polls, k, mac);
        }
      }
    }
  }

  // ---- pruning against the full history ----

  /** The times of a batch's queries for one domain from the addresses this MAC holds, in order
      of arrival. */
  ghost function Arrivals(clients: seq<Client>, queries: seq<Query>, mac: Mac, domain: Domain): seq<real> {
    if queries == [] then [] else
      var last := queries[|queries| - 1];
      Arrivals(clients, queries[..|queries| - 1], mac, domain)
      + (if HeldBy(clients, last.clientIp, mac) && last.domain == domain then [last.ts] else [])
  }

  /** Everything ever joined to this (MAC, domain) by the first k polls. */
  ghost function History(polls: seq<Poll>, k: nat, mac: Mac, domain: Domain): seq<real>
    requires k <= |polls|
  {
    if k == 0 then [] else History(polls, k - 1, mac, domain) + JoinedBy(polls[k - 1], mac, domain)
  }

  /** A poll whose source raised joins nothing. */
  ghost function JoinedBy(poll: Poll, mac: Mac, domain: Domain): seq<real> {
    if poll.answer.None? then [] else Arrivals(poll.clients, poll.answer.value, mac, domain)
  }

  lemma {:induction false} IngestAppendsArrivals(
      counts: Counts, clients: seq<Client>, queries: seq<Query>, mac: Mac, domain: Domain)
    ensures DequeOf(Ingested(counts, IpToMac(clients), queries), mac, domain)
         == DequeOf(counts, mac, domain) + Arrivals(clients, queries, mac, domain)
  {
    if queries != [] {
      IngestAppendsArrivals(counts, clients, queries[..|queries| - 1], mac, domain);
      JoinIsLastHolder(clients, queries[|queries| - 1].clientIp, mac);
    }
  }

  lemma {:induction false} SweepDropsPrefix(counts: Counts, cutoff: real, mac: Mac, domain: Domain)
    ensures DequeOf(SweptCounts(counts, cutoff), mac, domain) == DropBefore(DequeOf(counts, mac, domain), cutoff)
  {
    if mac in counts && domain in counts[mac] {
      var r := DropBefore(counts[mac][domain], cutoff);
      if r != [] { assert domain in Swept(counts[mac], cutoff); }
    }
  }

  /** The window's cutoff never moves back: a constant window and a monotone clock. */
  ghost predicate CutoffsAdvance(polls: seq<Poll>) {
    forall i, j :: 0 <= i < j < |polls| && Succeeded(polls, i) && Succeeded(polls, j) ==>
                     Cutoff(polls[i]) <= Cutoff(polls[j])
  }

  /** Two deques that a cut at `late` leaves equal stay so when both grow. */
  lemma {:induction false} SameDropExtends(a: seq<real>, b: seq<real>, more: seq<real>, late: real)
    requires DropBefore(a, late) == DropBefore(b, late)
    ensures DropBefore(a + more, late) == DropBefore(b + more, late)
  {
    DropEarlyThenLate(a, more, late, late);
    DropEarlyThenLate(b, more, late, late);
  }

  /** The deque and the history differ only in what a cut at `late` drops from either. */
  ghost predicate PrunesLike(counts: Counts, mac: Mac, domain: Domain, history: seq<real>, late: real) {
    DropBefore(DequeOf(counts, mac, domain), late) == DropBefore(history, late)
  }

  lemma {:induction false} PollPrunesLike(
      s: State, poll: Poll, mac: Mac, domain: Domain, history: seq<real>, late: real)
    requires poll.answer.Some? ==> Cutoff(poll) <= late
    requires PrunesLike(s.counts, mac, domain, history, late)
    ensures PrunesLike(Polled(s, poll).counts, mac, domain, history + JoinedBy(poll, mac, domain), late)
  {
    if poll.answer.Some? {
      var deq := DequeOf(s.counts, mac, domain);
      var more := JoinedBy(poll, mac, domain);
      SameDropExtends(deq, history, more, late);
      IngestAppendsArrivals(s.counts, poll.clients, poll.answer.value, mac, domain);
      SweepDropsPrefix(Joined(s, poll), Cutoff(poll), mac, domain);
      DropEarlyThenLate(deq + more, [], Cutoff(poll), late);
      assert DropBefore(deq + more, Cutoff(poll)) + [] == DropBefore(deq + more, Cutoff(poll));
      assert deq + more + [] == deq + more;
    } else {
      assert history + [] == history;
    }
  }

  /** None of the first k successful polls cut later than `floor`. */
  ghost predicate CutoffsReach(polls: seq<Poll>, k: nat, floor: real) {
    forall i :: 0 <= i < k && Succeeded(polls, i) ==> Cutoff(polls[i]) <= floor
  }

  lemma {:induction false} DequesPruneHistory(
      states: seq<State>, polls: seq<Poll>, k: nat, mac: Mac, domain: Domain, late: real)
    requires Ran(states, polls) && k <= |polls| && CutoffsReach(polls, k, late)
    ensures PrunesLike(states[k].counts, mac, domain, History(polls, k, mac, domain), late)
  {
    if k > 0 {
      DequesPruneHistory(states, polls, k - 1, mac, domain, late);
      assert Follows(states[k - 1], polls[k - 1], states[k]);
      assert polls[k - 1].answer.Some? ==> Succeeded(polls, k - 1);
      PollPrunesLike(states[k - 1], polls[k - 1], mac, domain, History(polls, k - 1, mac, domain), late);
    }
  }

  /** In whatever order queries arrive, after each successful poll the deque of a (MAC, domain)
      is everything ever joined to it from the first query inside the window on: every query
      inside the window, in order of arrival, and the stale ones that arrived behind the first
      of them. It is the window itself if and only if there is none of those. */
  lemma {:induction false} PruningKeepsTheWindow(states: seq<State>, polls: seq<Poll>, k: nat, mac: Mac, domain: Domain)
    requires Ran(states, polls) && k < |polls| && polls[k].answer.Some? && CutoffsAdvance(polls)
    ensures var cutoff := Cutoff(polls[k]);
            var deq := DequeOf(states[k + 1].counts, mac, domain);
            var history := History(polls, k + 1, mac, domain);
            && deq == DropBefore(history, cutoff)
            && FromOn(deq, cutoff) == FromOn(history, cutoff)
            && (deq == FromOn(history, cutoff) <==> NoneStaleBehind(history, cutoff))
  {
    var poll, cutoff := polls[k], Cutoff(polls[k]);
    var history := History(polls, k + 1, mac, domain);
    assert Succeeded(polls, k) && Follows(states[k], poll, states[k + 1]);
    DequesPruneHistory(states, polls, k + 1, mac, domain, cutoff);
    SweepDropsPrefix(Joined(states[k], poll), cutoff, mac, domain);
    SweptTwice(DequeOf(Joined(states[k], poll), mac, domain), cutoff);
    DropBeforeKeepsWindow(history, cutoff);
  }

  lemma {:induction false} SweptTwice(deq: seq<real>, cutoff: real)
    ensures DropBefore(DropBefore(deq, cutoff), cutoff) == DropBefore(deq, cutoff)
  {
    var d := DropBeforeDropsPrefix(deq, cutoff);
  }
}
