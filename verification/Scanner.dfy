/** The DNS half of a scan cycle: which flagged MACs are handled and with what evidence, and
    which standings are persisted. */
module Scanner {
  import opened Config
  import D = DnsThrash
  import R = Rationale
  import Resolution

  // ---- the loudest standing of each MAC ----

  function LoudestOf(standings: seq<R.Standing>): map<Mac, R.Standing> {
    if standings == [] then map[] else
      var last := standings[|standings| - 1];
      var before := LoudestOf(standings[..|standings| - 1]);
      if last.mac !in before || last.count > before[last.mac].count then before[last.mac := last] else before
  }

  method FoldLoudest(standings: seq<R.Standing>) returns (loudest: map<Mac, R.Standing>)
    ensures loudest == LoudestOf(standings)
  {
    loudest := map[];
    for i := 0 to |standings|
      invariant loudest == LoudestOf(standings[..i])
    {
      assert standings[..i + 1][..i] == standings[..i];
      var standing := standings[i];
      if standing.mac !in loudest || standing.count > loudest[standing.mac].count {
        loudest := loudest[standing.mac := standing];
      }
    }
    assert standings[..|standings|] == standings;
  }

  /** Index k holds the first of this MAC's standings with the highest count. */
  ghost predicate IsLoudest(standings: seq<R.Standing>, mac: Mac, k: int) {
    && 0 <= k < |standings| && standings[k].mac == mac
    && (forall i :: 0 <= i < |standings| && standings[i].mac == mac ==> standings[i].count <= standings[k].count)
    && (forall i :: 0 <= i < k && standings[i].mac == mac ==> standings[i].count < standings[k].count)
  }

  ghost predicate Stands(standings: seq<R.Standing>, mac: Mac, k: int) {
    0 <= k < |standings| && standings[k].mac == mac
  }

  /** The fold keeps, for exactly the MACs that stand, the first loudest standing. */
  lemma {:induction false} LoudestIsFirstMaximum(standings: seq<R.Standing>, mac: Mac) returns (k: nat)
    ensures mac in LoudestOf(standings) <==> exists i :: Stands(standings, mac, i)
    ensures mac in LoudestOf(standings) ==>
              IsLoudest(standings, mac, k) && LoudestOf(standings)[mac] == standings[k]
  {
    k := 0;
    if standings != [] {
      var n := |standings| - 1;
      var init := standings[..n];
      k := LoudestIsFirstMaximum(init, mac);
      assert forall i :: 0 <= i < n ==> init[i] == standings[i];
      assert forall i :: 0 <= i < n ==> (Stands(standings, mac, i) <==> Stands(init, mac, i));
      assert Stands(standings, mac, n) <==> standings[n].mac == mac;
      forall i | 0 <= i < n && standings[i].mac == mac
        ensures mac in LoudestOf(init) && standings[i].count <= LoudestOf(init)[mac].count
      {
        assert Stands(init, mac, i) && init[i] == standings[i];
      }
      if standings[n].mac == mac && (mac !in LoudestOf(init) || standings[n].count > LoudestOf(init)[mac].count) {
        k := n;
      }
    }
  }

  // ---- which flagged MACs are handled ----

  /** {client.mac: client for client in clients}. */
  function ByMac(clients: seq<Client>): map<Mac, Client> {
    if clients == [] then map[]
    else ByMac(clients[..|clients| - 1])[clients[|clients| - 1].mac := clients[|clients| - 1]]
  }

  method IndexByMac(clients: seq<Client>) returns (byMac: map<Mac, Client>)
    ensures byMac == ByMac(clients)
  {
    byMac := map[];
    for i := 0 to |clients|
      invariant byMac == ByMac(clients[..i])
    {
      assert clients[..i + 1][..i] == clients[..i];
      byMac := byMac[clients[i].mac := clients[i]];
    }
    assert clients[..|clients|] == clients;
  }

  lemma {:induction false} ByMacHoldsClients(clients: seq<Client>, mac: Mac)
    ensures mac in ByMac(clients) ==> ByMac(clients)[mac].mac == mac && ByMac(clients)[mac] in clients
  {
    if clients != [] {
      ByMacHoldsClients(clients[..|clients| - 1], mac);
    }
  }

  datatype Kick = Kick(client: Client, decision: R.Decision)

  function KickOf(mac: Mac, byMac: map<Mac, Client>, loudest: map<Mac, R.Standing>): Kick
    requires mac in byMac
  {
    Kick(byMac[mac], R.DnsDecision(if mac in loudest then Some(loudest[mac]) else None))
  }

  /** Flagged MACs in order, without the allowlisted and the disconnected. */
  function KicksFor(
    flagged: seq<Mac>, byMac: map<Mac, Client>, loudest: map<Mac, R.Standing>, allowlist: seq<Mac>): seq<Kick>
  {
    if flagged == [] then [] else
      var mac := flagged[|flagged| - 1];
      KicksFor(flagged[..|flagged| - 1], byMac, loudest, allowlist)
      + (if mac in byMac && byMac[mac].CanonicalMac() !in allowlist then [KickOf(mac, byMac, loudest)] else [])
  }

  method RunDnsThrash(flagged: seq<Mac>, standings: seq<R.Standing>, clients: seq<Client>, config: Config)
    returns (kicks: seq<Kick>)
    ensures kicks == KicksFor(flagged, ByMac(clients), LoudestOf(standings), config.allowlist)
  {
    var byMac := IndexByMac(clients);
    var loudest := FoldLoudest(standings);
    kicks := [];
    for i := 0 to |flagged|
      invariant kicks == KicksFor(flagged[..i], byMac, loudest, config.allowlist)
    {
      assert flagged[..i + 1][..i] == flagged[..i];
      var mac := flagged[i];
      if mac in byMac && byMac[mac].CanonicalMac() !in config.allowlist {
        kicks := kicks + [KickOf(mac, byMac, loudest)];
      }
    }
    assert flagged[..|flagged|] == flagged;
  }

  /** The evidence a DNS kick records: a standing of the client's own MAC whose count exceeds
      the threshold recorded with it. */
  ghost predicate Incriminates(kick: Kick) {
    && kick.decision.DnsDecision? && kick.decision.top.Some?
    && var top := kick.decision.top.value;
    && top.mac == kick.client.mac && top.count > top.threshold
  }

  lemma {:induction false} FlaggedStandsOver(s: D.State, poll: D.Poll, standings: seq<R.Standing>, mac: Mac)
    requires D.Flagged(s, poll, mac) && forall st :: st in standings <==> D.IsStanding(s, poll, st)
    ensures mac in LoudestOf(standings)
    ensures var top := LoudestOf(standings)[mac]; top.mac == mac && top.count > top.threshold
  {
    var counts := D.Joined(s, poll);
    var live := D.Swept(counts[mac], D.Cutoff(poll));
    var threshold := Resolution.DnsMaxFor(mac, poll.config);
    var domain :| domain in live && |live[domain]| > threshold;
    var st := R.Standing(mac, domain, |live[domain]|, threshold,
                         Some(D.StreakStart(s.overSince, mac, poll.now)));
    assert D.StandingIn(counts, s.overSince, poll, st);
    assert st in standings;
    var i :| 0 <= i < |standings| && standings[i] == st;
    assert Stands(standings, mac, i);
    var k := LoudestIsFirstMaximum(standings, mac);
    assert standings[k] in standings && D.IsStanding(s, poll, standings[k]);
  }

  /** Every DNS kick names a client that is present and not allowlisted, and its recorded query
      count exceeds its recorded threshold. */
  lemma {:induction false} DnsKicksAreIncriminating(
      s: D.State, poll: D.Poll, flagged: seq<Mac>, standings: seq<R.Standing>, clients: seq<Client>, config: Config)
    requires forall mac :: mac in flagged ==> D.Flagged(s, poll, mac)
    requires forall st :: st in standings <==> D.IsStanding(s, poll, st)
    ensures forall kick :: kick in KicksFor(flagged, ByMac(clients), LoudestOf(standings), config.allowlist) ==>
              Incriminates(kick) && kick.client in clients && kick.client.CanonicalMac() !in config.allowlist
  {
    if flagged != [] {
      var n := |flagged| - 1;
      DnsKicksAreIncriminating(s, poll, flagged[..n], standings, clients, config);
      assert flagged[n] in flagged;
      FlaggedStandsOver(s, poll, standings, flagged[n]);
      ByMacHoldsClients(clients, flagged[n]);
    }
  }

  /** The last client of the snapshot with this MAC. */
  ghost predicate LastOf(clients: seq<Client>, mac: Mac, k: int) {
    0 <= k < |clients| && clients[k].mac == mac && forall i :: k < i < |clients| ==> clients[i].mac != mac
  }

  lemma {:induction false} ByMacIsLast(clients: seq<Client>, mac: Mac) returns (k: nat)
    ensures mac in ByMac(clients) <==> exists i :: 0 <= i < |clients| && clients[i].mac == mac
    ensures mac in ByMac(clients) ==> LastOf(clients, mac, k) && ByMac(clients)[mac] == clients[k]
  {
    k := 0;
    if clients != [] {
      var n := |clients| - 1;
      var init := clients[..n];
      k := ByMacIsLast(init, mac);
      assert forall i :: 0 <= i < n ==> init[i] == clients[i];
      if clients[n].mac == mac {
        k := n;
      }
    }
  }

  /** Present in the snapshot and not allowlisted. */
  ghost predicate Reachable(clients: seq<Client>, allowlist: seq<Mac>, mac: Mac) {
    (exists i :: 0 <= i < |clients| && clients[i].mac == mac) && NormalizeMac(mac) !in allowlist
  }

  ghost function ReachableOf(flagged: seq<Mac>, clients: seq<Client>, allowlist: seq<Mac>): seq<Mac> {
    if flagged == [] then [] else
      var mac := flagged[|flagged| - 1];
      ReachableOf(flagged[..|flagged| - 1], clients, allowlist) + (if Reachable(clients, allowlist, mac) then [mac] else [])
  }

  /** A kick of this MAC: its last report, with its first loudest standing, if it has one. */
  ghost predicate KicksMac(kick: Kick, mac: Mac, clients: seq<Client>, standings: seq<R.Standing>) {
    && (exists k :: LastOf(clients, mac, k) && kick.client == clients[k])
    && match kick.decision
       case DnsDecision(None) => forall i :: 0 <= i < |standings| ==> standings[i].mac != mac
       case DnsDecision(Some(top)) => exists k :: IsLoudest(standings, mac, k) && top == standings[k]
       case _ => false
  }

  lemma {:induction false} KickOfKicks(mac: Mac, clients: seq<Client>, standings: seq<R.Standing>)
    requires mac in ByMac(clients)
    ensures KicksMac(KickOf(mac, ByMac(clients), LoudestOf(standings)), mac, clients, standings)
  {
    var k := ByMacIsLast(clients, mac);
    var top := LoudestIsFirstMaximum(standings, mac);
    if mac !in LoudestOf(standings) {
      forall i | 0 <= i < |standings| ensures standings[i].mac != mac {
        assert !Stands(standings, mac, i);
      }
    }
  }

  /** Every flagged MAC that is present and not allowlisted is handled, in the order flagged, and no
      other: each by the client's last report and with its first loudest standing as evidence. */
  lemma {:induction false} EveryReachableFlagIsKicked(
      flagged: seq<Mac>, standings: seq<R.Standing>, clients: seq<Client>, allowlist: seq<Mac>)
    ensures var kicks := KicksFor(flagged, ByMac(clients), LoudestOf(standings), allowlist);
            var macs := ReachableOf(flagged, clients, allowlist);
            |kicks| == |macs| && forall j :: 0 <= j < |kicks| ==> KicksMac(kicks[j], macs[j], clients, standings)
  {
    if flagged != [] {
      var n := |flagged| - 1;
      EveryReachableFlagIsKicked(flagged[..n], standings, clients, allowlist);
      var k := ByMacIsLast(clients, flagged[n]);
      if flagged[n] in ByMac(clients) {
        KickOfKicks(flagged[n], clients, standings);
      }
    }
  }

  // ---- which standings are persisted ----

  const DNS_OBSERVATION_TOP_N: nat := 20

  /** ceil(0.5 * threshold). */
  function Half(threshold: nat): nat { (threshold + 1) / 2 }

  function Contenders(standings: seq<R.Standing>): seq<R.Standing> {
    if standings == [] then [] else
      var last := standings[|standings| - 1];
      Contenders(standings[..|standings| - 1]) + (if last.count >= Half(last.threshold) then [last] else [])
  }

  /** Stable: behind every element at least as loud. */
  function InsertByCount(s: seq<R.Standing>, x: R.Standing): seq<R.Standing> {
    if s == [] || s[|s| - 1].count >= x.count then s + [x]
    else InsertByCount(s[..|s| - 1], x) + [s[|s| - 1]]
  }

  function SortByCount(s: seq<R.Standing>): seq<R.Standing> {
    if s == [] then [] else InsertByCount(SortByCount(s[..|s| - 1]), s[|s| - 1])
  }

  function Persisted(standings: seq<R.Standing>): seq<R.Standing> {
    var sorted := SortByCount(Contenders(standings));
    if |sorted| <= DNS_OBSERVATION_TOP_N then sorted else sorted[..DNS_OBSERVATION_TOP_N]
  }

  ghost predicate Descending(s: seq<R.Standing>) {
    forall i, j :: 0 <= i < j < |s| ==> s[i].count >= s[j].count
  }

  ghost predicate NoneLouder(s: seq<R.Standing>, count: nat) {
    forall i :: 0 <= i < |s| ==> s[i].count >= count
  }

  lemma {:induction false} InsertByCountFacts(s: seq<R.Standing>, x: R.Standing)
    requires Descending(s)
    ensures Descending(InsertByCount(s, x))
  {
    if !(s == [] || s[|s| - 1].count >= x.count) {
      var n := |s| - 1;
      InsertByCountFacts(s[..n], x);
      InsertKeepsFloor(s[..n], x, s[n].count);
    }
  }

  lemma {:induction false} InsertByCountAdds(s: seq<R.Standing>, x: R.Standing)
    ensures multiset(InsertByCount(s, x)) == multiset(s) + multiset{x}
  {
    if !(s == [] || s[|s| - 1].count >= x.count) {
      InsertByCountAdds(s[..|s| - 1], x);
      assert s == s[..|s| - 1] + [s[|s| - 1]];
    }
  }

  lemma {:induction false} InsertKeepsFloor(s: seq<R.Standing>, x: R.Standing, count: nat)
    requires NoneLouder(s, count) && x.count >= count
    ensures NoneLouder(InsertByCount(s, x), count)
  {
    if !(s == [] || s[|s| - 1].count >= x.count) {
      InsertKeepsFloor(s[..|s| - 1], x, count);
    }
  }

  lemma {:induction false} SortByCountFacts(s: seq<R.Standing>)
    ensures Descending(SortByCount(s)) && multiset(SortByCount(s)) == multiset(s)
  {
    if s != [] {
      var n := |s| - 1;
      SortByCountFacts(s[..n]);
      InsertByCountFacts(SortByCount(s[..n]), s[n]);
      InsertByCountAdds(SortByCount(s[..n]), s[n]);
      assert s == s[..n] + [s[n]];
    }
  }

  lemma {:induction false} ContendersAreHalfway(standings: seq<R.Standing>)
    ensures forall st :: st in Contenders(standings) <==> st in standings && st.count >= Half(st.threshold)
  {
    if standings != [] {
      var n := |standings| - 1;
      ContendersAreHalfway(standings[..n]);
      assert standings == standings[..n] + [standings[n]];
    }
  }

  /** Cutting a descending sequence keeps the loudest. */
  lemma {:induction false} CutKeepsLoudest(sorted: seq<R.Standing>, n: nat)
    requires Descending(sorted) && n <= |sorted|
    ensures Descending(sorted[..n])
    ensures multiset(sorted) == multiset(sorted[..n]) + multiset(sorted[n..])
    ensures forall st :: st in sorted[n..] ==> NoneLouder(sorted[..n], st.count)
  {
    assert sorted == sorted[..n] + sorted[n..];
    forall st | st in sorted[n..] ensures NoneLouder(sorted[..n], st.count) {
      var j :| n <= j < |sorted| && sorted[j] == st;
    }
  }

  /** At most twenty rows are persisted, loudest first; each is at least halfway to its
      threshold; and whatever contender was left out is no louder than any row kept. */
  lemma {:induction false} PersistedAreTheLoudest(standings: seq<R.Standing>)
    ensures var rows := Persisted(standings);
            && |rows| <= DNS_OBSERVATION_TOP_N && Descending(rows)
            && (forall row :: row in rows ==> row in standings && 2 * row.count >= row.threshold)
            && exists rest: seq<R.Standing> :: LeftOut(standings, rows, rest)
  {
    var all := Contenders(standings);
    var sorted := SortByCount(all);
    var rows := Persisted(standings);
    SortByCountFacts(all);
    ContendersAreHalfway(standings);
    ContendersAreHalfwayOnes(standings);
    var rest := sorted[|rows|..];
    CutKeepsLoudest(sorted, |rows|);
    assert sorted[..|rows|] == rows;
    forall row | row in rows ensures row in standings && 2 * row.count >= row.threshold {
      assert row in multiset(all);
    }
    assert LeftOut(standings, rows, rest);
  }

  /** The standings at least halfway to their threshold, each as often as it stands. */
  ghost function HalfwayOnes(standings: seq<R.Standing>): multiset<R.Standing> {
    if standings == [] then multiset{} else
      var last := standings[|standings| - 1];
      HalfwayOnes(standings[..|standings| - 1]) + (if 2 * last.count >= last.threshold then multiset{last} else multiset{})
  }

  lemma {:induction false} ContendersAreHalfwayOnes(standings: seq<R.Standing>)
    ensures multiset(Contenders(standings)) == HalfwayOnes(standings)
  {
    if standings != [] {
      ContendersAreHalfwayOnes(standings[..|standings| - 1]);
    }
  }

  /** The contenders are the rows kept and the rest; nothing is left out while there is room,
      and nothing left out is louder than a row kept. */
  ghost predicate LeftOut(standings: seq<R.Standing>, rows: seq<R.Standing>, rest: seq<R.Standing>) {
    && multiset(rows) + multiset(rest) == HalfwayOnes(standings)
    && (rest != [] ==> |rows| == DNS_OBSERVATION_TOP_N)
    && (forall st :: st in rest ==> NoneLouder(rows, st.count))
  }
}
