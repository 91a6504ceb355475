/** When a MAC is flagged for DNS thrash, said of the queries alone: no deque, no marker, only
    what each poll joined to the MAC and how much of it lies in the poll's window. */
module DnsHistory {
  import opened Config
  import opened DnsThrash
  import opened Windows
  import R = Rationale
  import Resolution

  /** Two ways to count a history at a cutoff: every query from the first one inside the window
      on, in order of arrival, or the queries inside the window alone. */
  datatype Count = SinceFirstInside | Inside

  function CountOf(how: Count, history: seq<real>, cutoff: real): nat {
    match how
    case SinceFirstInside => |DropBefore(history, cutoff)|
    case Inside => |FromOn(history, cutoff)|
  }

  /** Where the poll's window begins, and how long a streak must last, in seconds. */
  function WindowStart(poll: Poll): real {
    poll.now - (poll.config.detection.dnsThrash.windowMinutes * 60) as real
  }

  function SustainTime(poll: Poll): real {
    (poll.config.detection.dnsThrash.sustainWindows * poll.config.detection.dnsThrash.windowMinutes * 60) as real
  }

  /** More queries for the domain at the poll than the MAC's threshold. */
  ghost predicate Louder(how: Count, polls: seq<Poll>, k: nat, mac: Mac, domain: Domain)
    requires k < |polls|
  {
    CountOf(how, History(polls, k + 1, mac, domain), WindowStart(polls[k])) > Resolution.DnsMaxFor(mac, polls[k].config)
  }

  ghost predicate LoudAt(how: Count, polls: seq<Poll>, k: int, mac: Mac) {
    Succeeded(polls, k) && exists domain :: Louder(how, polls, k, mac, domain)
  }

  /** j begins the maximal run of loud successful polls that reaches up to k. */
  ghost predicate LoudSince(how: Count, polls: seq<Poll>, j: int, k: int, mac: Mac) {
    && 0 <= j < k && LoudAt(how, polls, j, mac)
    && (forall i :: j <= i < k && Succeeded(polls, i) ==> LoudAt(how, polls, i, mac))
    && (forall i :: LastSuccess(polls, i, j) ==> !LoudAt(how, polls, i, mac))
  }

  ghost predicate LoudLongEnough(how: Count, polls: seq<Poll>, j: int, k: nat, mac: Mac)
    requires k < |polls|
  {
    LoudSince(how, polls, j, k + 1, mac)
    && polls[k].now - polls[j].now >= SustainTime(polls[k])
  }

  ghost predicate NoStaleArrival(polls: seq<Poll>, k: nat, mac: Mac, domain: Domain)
    requires k < |polls|
  {
    NoneStaleBehind(History(polls, k + 1, mac, domain), WindowStart(polls[k]))
  }

  /** At no poll does a query already outside the window stand behind one inside it. */
  ghost predicate NoneArrivesStale(polls: seq<Poll>, mac: Mac) {
    forall k: nat, domain :: k < |polls| ==> NoStaleArrival(polls, k, mac, domain)
  }

  ghost predicate ArrivesInOrder(polls: seq<Poll>, k: nat, mac: Mac, domain: Domain)
    requires k <= |polls|
  {
    Ascending(History(polls, k, mac, domain))
  }

  /** Arrivals in order of time are one such case. */
  lemma {:induction false} InOrderIsNotStale(polls: seq<Poll>, mac: Mac)
    requires forall k: nat, domain :: k <= |polls| ==> ArrivesInOrder(polls, k, mac, domain)
    ensures NoneArrivesStale(polls, mac)
  {
    forall k: nat, domain | k < |polls| ensures NoStaleArrival(polls, k, mac, domain) {
      assert ArrivesInOrder(polls, k + 1, mac, domain);
    }
  }

  /** A MAC is over threshold exactly when some deque the poll leaves is. */
  lemma {:induction false} OverIffSomeDeque(counts: Counts, mac: Mac, poll: Poll)
    ensures OverIn(counts, mac, poll) <==>
            SomeDequeIsOver(SweptCounts(counts, Cutoff(poll)), mac, poll)
  {
    var after := SweptCounts(counts, Cutoff(poll));
    var threshold := Resolution.DnsMaxFor(mac, poll.config);
    if OverIn(counts, mac, poll) {
      var live := Swept(counts[mac], Cutoff(poll));
      var domain :| domain in live && |live[domain]| > threshold;
      assert mac in after && after[mac] == live;
      assert DequeIsOver(after, mac, domain, poll);
    }
    if domain :| DequeIsOver(after, mac, domain, poll) {
      assert mac in counts && after[mac] == Swept(counts[mac], Cutoff(poll));
      assert domain in after[mac];
    }
  }

  predicate DequeIsOver(counts: Counts, mac: Mac, domain: Domain, poll: Poll) {
    |DequeOf(counts, mac, domain)| > Resolution.DnsMaxFor(mac, poll.config)
  }

  ghost predicate SomeDequeIsOver(counts: Counts, mac: Mac, poll: Poll) {
    exists domain :: DequeIsOver(counts, mac, domain, poll)
  }

  lemma {:induction false} OverIffDeques(states: seq<State>, polls: seq<Poll>, k: nat, mac: Mac)
    requires Ran(states, polls) && k < |polls| && polls[k].answer.Some?
    ensures OverAt(states, polls, k, mac) <==>
            SomeDequeIsOver(states[k + 1].counts, mac, polls[k])
  {
    assert Follows(states[k], polls[k], states[k + 1]);
    OverIffSomeDeque(Joined(states[k], polls[k]), mac, polls[k]);
  }

  /** What the deque makes of either count. */
  lemma {:induction false} DequeAgainstCounts(states: seq<State>, polls: seq<Poll>, k: nat, mac: Mac, domain: Domain)
    requires Ran(states, polls) && k < |polls| && polls[k].answer.Some? && CutoffsAdvance(polls)
    ensures DequeIsOver(states[k + 1].counts, mac, domain, polls[k]) <==>
            Louder(SinceFirstInside, polls, k, mac, domain)
    ensures Louder(Inside, polls, k, mac, domain) ==> Louder(SinceFirstInside, polls, k, mac, domain)
    ensures NoStaleArrival(polls, k, mac, domain) ==>
              (Louder(Inside, polls, k, mac, domain) <==> Louder(SinceFirstInside, polls, k, mac, domain))
  {
    assert WindowStart(polls[k]) == Cutoff(polls[k]);
    PruningKeepsTheWindow(states, polls, k, mac, domain);
  }

  /** The queries inside the window may be counted alone when none arrives stale. */
  ghost predicate CountsExactly(how: Count, polls: seq<Poll>, mac: Mac) {
    how.Inside? ==> NoneArrivesStale(polls, mac)
  }

  lemma {:induction false} OverIffLoud(how: Count, states: seq<State>, polls: seq<Poll>, k: nat, mac: Mac)
    requires Ran(states, polls) && k < |polls| && CutoffsAdvance(polls) && CountsExactly(how, polls, mac)
    ensures OverAt(states, polls, k, mac) <==> LoudAt(how, polls, k, mac)
  {
    if polls[k].answer.Some? {
      OverIffDeques(states, polls, k, mac);
      var counts, poll := states[k + 1].counts, polls[k];
      forall domain ensures DequeIsOver(counts, mac, domain, poll) <==> Louder(how, polls, k, mac, domain) {
        DequeAgainstCounts(states, polls, k, mac, domain);
        assert how.Inside? ==> NoStaleArrival(polls, k, mac, domain);
      }
    }
  }

  lemma {:induction false} StreakIffLoud(
      how: Count, states: seq<State>, polls: seq<Poll>, j: int, k: nat, mac: Mac)
    requires Ran(states, polls) && k <= |polls| && CutoffsAdvance(polls) && CountsExactly(how, polls, mac)
    ensures StreakBegins(states, polls, j, k, mac) <==> LoudSince(how, polls, j, k, mac)
  {
    forall i: nat | i < |polls| ensures OverAt(states, polls, i, mac) <==> LoudAt(how, polls, i, mac) {
      OverIffLoud(how, states, polls, i, mac);
    }
  }

  /** With a window that does not move back, a MAC is flagged exactly when it has had, in every
      successful poll since one at least the sustain time ago, more queries for one domain than
      its threshold: counted from the first one inside the window on, whatever the order of
      arrival, or inside the window alone when none arrives stale. It is a statement about the
      queries, in which nothing the detector keeps is left. */
  lemma {:induction false} FlaggedIffLoudLongEnough(
      how: Count, states: seq<State>, polls: seq<Poll>, k: nat, mac: Mac)
    requires Ran(states, polls) && k < |polls| && CutoffsAdvance(polls) && CountsExactly(how, polls, mac)
    ensures Flagged(states[k], polls[k], mac) <==>
            polls[k].answer.Some? && exists j :: LoudLongEnough(how, polls, j, k, mac)
  {
    FlaggedIffSustained(states, polls, k, mac);
    forall j ensures Sustained(states, polls, j, k, mac) <==> LoudLongEnough(how, polls, j, k, mac) {
      StreakIffLoud(how, states, polls, j, k + 1, mac);
    }
  }

  // ---- what the standings say ----

  /** The time this MAC's loud streak began, if poll k finds it loud. */
  ghost predicate StreakSaid(polls: seq<Poll>, k: nat, mac: Mac, since: Option<real>)
    requires k < |polls|
  {
    match since
    case None => !LoudAt(SinceFirstInside, polls, k, mac)
    case Some(t) => exists j: nat :: j <= k && LoudSince(SinceFirstInside, polls, j, k + 1, mac) && polls[j].now == t
  }

  lemma {:induction false} LiveIffDeque(counts: Counts, mac: Mac, domain: Domain, cutoff: real, count: nat)
    ensures (mac in counts && domain in Swept(counts[mac], cutoff) && |Swept(counts[mac], cutoff)[domain]| == count)
       <==> count > 0 && |DequeOf(SweptCounts(counts, cutoff), mac, domain)| == count
  {
    SweepDropsPrefix(counts, cutoff, mac, domain);
  }

  /** The one poll that began a MAC's current streak. */
  lemma {:induction false} TheStreak(states: seq<State>, polls: seq<Poll>, k: nat, mac: Mac) returns (start: nat)
    requires Ran(states, polls) && k < |polls| && CutoffsAdvance(polls) && OverAt(states, polls, k, mac)
    ensures start <= k && LoudSince(SinceFirstInside, polls, start, k + 1, mac)
    ensures mac in states[k + 1].overSince && states[k + 1].overSince[mac] == polls[start].now
    ensures forall t :: StreakSaid(polls, k, mac, Some(t)) <==> t == polls[start].now
  {
    var n := k + 1;
    assert LastSuccess(polls, k, n);
    start := MarkerIsStreakStart(states, polls, n, mac);
    StreakIffLoud(SinceFirstInside, states, polls, start, n, mac);
    forall j: nat | j <= k && LoudSince(SinceFirstInside, polls, j, n, mac) ensures j == start {
      StreakIffLoud(SinceFirstInside, states, polls, j, n, mac);
      StreakStartIsUnique(states, polls, j, start, n, mac);
    }
  }

  lemma {:induction false} MarkerSaysStreak(states: seq<State>, polls: seq<Poll>, k: nat, mac: Mac, since: Option<real>)
    requires Ran(states, polls) && k < |polls| && CutoffsAdvance(polls) && polls[k].answer.Some?
    ensures since == (if OverIn(Joined(states[k], polls[k]), mac, polls[k])
                      then Some(StreakStart(states[k].overSince, mac, polls[k].now)) else None)
       <==> StreakSaid(polls, k, mac, since)
  {
    var s, poll := states[k], polls[k];
    OverIffLoud(SinceFirstInside, states, polls, k, mac);
    RunIsTidy(states, polls, k);
    assert Follows(s, poll, states[k + 1]);
    PollMovesMarker(s, poll, mac);
    if OverAt(states, polls, k, mac) {
      var start := TheStreak(states, polls, k, mac);
    }
  }

  /** A poll records a standing exactly for a (MAC, domain) with a query left since the first one
      inside the window: it says how many there are, the MAC's threshold, and when its loud streak
      began, if it is in one. */
  lemma {:induction false} StandingsSayTheHistory(states: seq<State>, polls: seq<Poll>, k: nat, st: R.Standing)
    requires Ran(states, polls) && k < |polls| && CutoffsAdvance(polls) && polls[k].answer.Some?
    ensures IsStanding(states[k], polls[k], st) <==>
            && st.count > 0
            && st.count == CountOf(SinceFirstInside, History(polls, k + 1, st.mac, st.domain), WindowStart(polls[k]))
            && st.threshold == Resolution.DnsMaxFor(st.mac, polls[k].config)
            && StreakSaid(polls, k, st.mac, st.overSince)
  {
    var s, poll := states[k], polls[k];
    assert WindowStart(poll) == Cutoff(poll) && Follows(s, poll, states[k + 1]);
    PruningKeepsTheWindow(states, polls, k, st.mac, st.domain);
    LiveIffDeque(Joined(s, poll), st.mac, st.domain, Cutoff(poll), st.count);
    MarkerSaysStreak(states, polls, k, st.mac, st.overSince);
  }

  // ---- never missed ----

  /** From poll j to poll k, at every success, more queries inside the window than allowed. */
  ghost predicate LoudThroughout(polls: seq<Poll>, j: nat, k: nat, mac: Mac) {
    && j <= k < |polls| && Succeeded(polls, j) && Succeeded(polls, k)
    && forall i :: j <= i <= k && Succeeded(polls, i) ==> LoudAt(Inside, polls, i, mac)
  }

  ghost predicate ClockAdvances(polls: seq<Poll>) {
    forall i, j :: 0 <= i < j < |polls| ==> polls[i].now <= polls[j].now
  }

  lemma {:induction false} LoudIsOver(states: seq<State>, polls: seq<Poll>, k: nat, mac: Mac)
    requires Ran(states, polls) && k < |polls| && CutoffsAdvance(polls) && LoudAt(Inside, polls, k, mac)
    ensures OverAt(states, polls, k, mac)
  {
    var domain :| Louder(Inside, polls, k, mac, domain);
    DequeAgainstCounts(states, polls, k, mac, domain);
    assert DequeIsOver(states[k + 1].counts, mac, domain, polls[k]);
    OverIffDeques(states, polls, k, mac);
  }

  /** In whatever order its queries arrive, a MAC that was too loud inside the window for the
      sustain time is flagged: stale arrivals can only bring a flag forward. */
  lemma {:induction false} LoudIsNeverMissed(states: seq<State>, polls: seq<Poll>, j: nat, k: nat, mac: Mac)
    requires Ran(states, polls) && CutoffsAdvance(polls) && ClockAdvances(polls)
    requires LoudThroughout(polls, j, k, mac)
    requires polls[k].now - polls[j].now >= SustainTime(polls[k])
    ensures Flagged(states[k], polls[k], mac)
  {
    assert Succeeded(polls, k) && LoudAt(Inside, polls, k, mac);
    LoudIsOver(states, polls, k, mac);
    var start := OverHasStreak(states, polls, k, mac);
    StreakReachesBack(states, polls, start, j, k, mac);
    assert polls[start].now <= polls[j].now;
    LongStreakIsFlagged(states, polls, start, k, mac);
  }

  lemma {:induction false} OverHasStreak(states: seq<State>, polls: seq<Poll>, k: nat, mac: Mac) returns (start: nat)
    requires Ran(states, polls) && k < |polls| && OverAt(states, polls, k, mac)
    ensures StreakBegins(states, polls, start, k + 1, mac)
  {
    start := MarkerIsStreakStart(states, polls, k + 1, mac);
    assert LastSuccess(polls, k, k + 1);
  }

  lemma {:induction false} LongStreakIsFlagged(states: seq<State>, polls: seq<Poll>, start: nat, k: nat, mac: Mac)
    requires Ran(states, polls) && k < |polls| && polls[k].answer.Some? && Sustained(states, polls, start, k, mac)
    ensures Flagged(states[k], polls[k], mac)
  {
    FlaggedIffSustained(states, polls, k, mac);
  }

  lemma {:induction false} StreakReachesBack(
      states: seq<State>, polls: seq<Poll>, start: nat, j: nat, k: nat, mac: Mac)
    requires Ran(states, polls) && CutoffsAdvance(polls) && LoudThroughout(polls, j, k, mac)
    requires StreakBegins(states, polls, start, k + 1, mac)
    ensures start <= j
  {
    if start > j {
      var i := LastSuccessBefore(polls, j, start);
      LoudIsOver(states, polls, i, mac);
    }
  }
}
