/** Ascending timestamp sequences and the closed windows laid over them.

    Every rate guarantee of the daemon (per-MAC caps, the per-AP cap, the reboot cap)
    is an instance of one argument: an admission test that counts the recent events,
    followed by a record stamped no earlier than the test. */
module Windows {

  ghost predicate Ascending(s: seq<real>) {
    forall i, j :: 0 <= i < j < |s| ==> s[i] <= s[j]
  }

  /** No element is later than t. */
  ghost predicate NoneAfter(s: seq<real>, t: real) {
    forall i :: 0 <= i < |s| ==> s[i] <= t
  }

  /** The elements at or after `cutoff`, in order. */
  function FromOn(s: seq<real>, cutoff: real): (r: seq<real>)
    ensures |r| <= |s|
  {
    if s == [] then [] else
      var n := |s| - 1;
      FromOn(s[..n], cutoff) + (if s[n] >= cutoff then [s[n]] else [])
  }

  /** How many elements lie in the closed window [lo, hi]. */
  function CountIn(s: seq<real>, lo: real, hi: real): (c: nat)
    ensures c <= |s|
  {
    if s == [] then 0 else
      var n := |s| - 1;
      CountIn(s[..n], lo, hi) + (if lo <= s[n] <= hi then 1 else 0)
  }

  ghost predicate Apart(s: seq<real>, i: int, j: int, w: real) {
    0 <= i < |s| && 0 <= j < |s| && s[j] - s[i] > w
  }

  /** Any `cap` + 1 consecutive elements stretch over more than `w`. */
  ghost predicate Spaced(s: seq<real>, w: real, cap: nat) {
    forall i, j :: 0 <= i < j < |s| && j - i >= cap ==> Apart(s, i, j, w)
  }

  lemma {:induction false} FromOnAppend(s: seq<real>, t: real, cutoff: real)
    ensures FromOn(s + [t], cutoff) == FromOn(s, cutoff) + (if t >= cutoff then [t] else [])
    ensures FromOn(s + [], cutoff) == FromOn(s, cutoff)
  {
    assert (s + [t])[..|s|] == s && s + [] == s;
  }

  lemma {:induction false} CountInAppend(s: seq<real>, t: real, lo: real, hi: real)
    ensures CountIn(s + [t], lo, hi) == CountIn(s, lo, hi) + (if lo <= t <= hi then 1 else 0)
    ensures CountIn(s + [], lo, hi) == CountIn(s, lo, hi)
  {
    assert (s + [t])[..|s|] == s && s + [] == s;
  }

  lemma {:induction false} FromOnSplit(s: seq<real>, cutoff: real, k: nat)
    requires k <= |s|
    requires forall i :: 0 <= i < k ==> s[i] < cutoff
    requires forall i :: k <= i < |s| ==> s[i] >= cutoff
    ensures FromOn(s, cutoff) == s[k..]
  {
    if s != [] {
      var n := |s| - 1;
      if k <= n {
        FromOnSplit(s[..n], cutoff, k);
        assert s[k..] == s[..n][k..] + [s[n]];
      } else {
        FromOnSplit(s[..n], cutoff, n);
      }
    }
  }

  /** In an ascending sequence the elements from a cutoff on are a suffix. */
  lemma {:induction false} FromOnIsSuffix(s: seq<real>, cutoff: real) returns (k: nat)
    requires Ascending(s)
    ensures k <= |s| && FromOn(s, cutoff) == s[k..]
    ensures forall i :: 0 <= i < k ==> s[i] < cutoff
    ensures forall i :: k <= i < |s| ==> s[i] >= cutoff
  {
    k := 0;
    while k < |s| && s[k] < cutoff
      invariant k <= |s| && forall i :: 0 <= i < k ==> s[i] < cutoff
    {
      k := k + 1;
    }
    FromOnSplit(s, cutoff, k);
  }

  /** Filtering at an earlier cutoff first changes nothing. */
  lemma {:induction false} FromOnTwice(s: seq<real>, early: real, late: real)
    requires early <= late
    ensures FromOn(FromOn(s, early), late) == FromOn(s, late)
  {
    if s != [] {
      var n := |s| - 1;
      FromOnTwice(s[..n], early, late);
      if s[n] >= early {
        FromOnAppend(FromOn(s[..n], early), s[n], late);
      } else {
        assert FromOn(s, early) == FromOn(s[..n], early);
      }
    }
  }

  lemma {:induction false} FromOnElements(s: seq<real>, cutoff: real)
    ensures forall t :: t in FromOn(s, cutoff) <==> t in s && t >= cutoff
  {
    if s != [] {
      var n := |s| - 1;
      FromOnElements(s[..n], cutoff);
      assert s == s[..n] + [s[n]];
    }
  }

  /** A later cutoff keeps no more elements. */
  lemma {:induction false} FromOnShrinks(s: seq<real>, early: real, late: real)
    requires early <= late
    ensures |FromOn(s, late)| <= |FromOn(s, early)|
  {
    if s != [] {
      FromOnShrinks(s[..|s| - 1], early, late);
    }
  }

  /** With nothing later than `now`, the elements from a cutoff on are those in [cutoff, now]. */
  lemma {:induction false} FromOnCounts(s: seq<real>, cutoff: real, now: real)
    requires NoneAfter(s, now)
    ensures |FromOn(s, cutoff)| == CountIn(s, cutoff, now)
  {
    if s != [] {
      FromOnCounts(s[..|s| - 1], cutoff, now);
    }
  }

  lemma {:induction false} CountInAtMostFromOn(s: seq<real>, lo: real, hi: real)
    ensures CountIn(s, lo, hi) <= |FromOn(s, lo)|
  {
    if s != [] {
      CountInAtMostFromOn(s[..|s| - 1], lo, hi);
    }
  }

  /** The admission argument. Fewer than `cap` elements were seen at or after g - w, and
      the new element is stamped t >= g: the sequence stays spaced. */
  lemma {:induction false} AdmissionKeepsSpacing(s: seq<real>, g: real, t: real, w: real, cap: nat)
    requires Ascending(s) && Spaced(s, w, cap)
    requires |FromOn(s, g - w)| < cap && g <= t
    ensures Spaced(s + [t], w, cap)
  {
    var k := FromOnIsSuffix(s, g - w);
    var s' := s + [t];
    forall i, j | 0 <= i < j < |s'| && j - i >= cap
      ensures Apart(s', i, j, w)
    {
      if j < |s| {
        assert Apart(s, i, j, w);
      } else {
        assert i < k;
      }
    }
  }

  lemma {:induction false} AppendKeepsAscending(s: seq<real>, t: real)
    requires Ascending(s) && NoneAfter(s, t)
    ensures Ascending(s + [t]) && NoneAfter(s + [t], t)
  {
  }

  /** In an ascending sequence the elements of a closed window are consecutive. */
  lemma {:induction false} WindowIsBlock(s: seq<real>, lo: real, hi: real) returns (i: nat, j: nat)
    requires Ascending(s)
    ensures i <= j <= |s| && CountIn(s, lo, hi) == j - i
    ensures forall k :: i <= k < j ==> lo <= s[k] <= hi
    ensures i < j < |s| ==> s[j] > hi
  {
    if s == [] {
      i, j := 0, 0;
    } else {
      var n := |s| - 1;
      var init := s[..n];
      i, j := WindowIsBlock(init, lo, hi);
      assert i < j < n ==> init[j] == s[j] <= s[n];
      assert i < j ==> init[i] == s[i] <= s[n];
      if lo <= s[n] <= hi {
        i, j := if i == j then n else i, n + 1;
      }
    }
  }

  /** At most `cap` elements in every closed window no wider than `w`. */
  ghost predicate WindowCap(s: seq<real>, w: real, cap: nat) {
    forall lo, hi :: hi <= lo + w ==> CountIn(s, lo, hi) <= cap
  }

  /** For an ascending sequence, spacing is exactly the sliding-window cap. */
  lemma {:induction false} SpacingIsWindowCap(s: seq<real>, w: real, cap: nat)
    requires Ascending(s) && cap > 0
    ensures Spaced(s, w, cap) <==> WindowCap(s, w, cap)
  {
    if Spaced(s, w, cap) {
      forall lo, hi | hi <= lo + w ensures CountIn(s, lo, hi) <= cap {
        var i, j := WindowIsBlock(s, lo, hi);
        assert i < j ==> !Apart(s, i, j - 1, w);
      }
    }
    forall i, j | WindowCap(s, w, cap) && 0 <= i < j < |s| && j - i >= cap
      ensures Apart(s, i, j, w)
    {
      if s[j] <= s[i] + w {
        BlockCounts(s, s[i], s[j], i, j);
      }
    }
  }

  /** A block inside the window is counted. */
  lemma {:induction false} BlockCounts(s: seq<real>, lo: real, hi: real, i: nat, j: nat)
    requires i <= j < |s| && forall k :: i <= k <= j ==> lo <= s[k] <= hi
    ensures CountIn(s, lo, hi) >= j - i + 1
  {
    var n := |s| - 1;
    if j < n {
      BlockCounts(s[..n], lo, hi, i, j);
    } else if i < j {
      BlockCounts(s[..n], lo, hi, i, j - 1);
    }
  }

  /** What a loop that drops leading elements before `cutoff` leaves. */
  function DropBefore(s: seq<real>, cutoff: real): seq<real> {
    if s != [] && s[0] < cutoff then DropBefore(s[1..], cutoff) else s
  }

  /** It drops a prefix of old elements and stops at the first recent one. */
  lemma {:induction false} DropBeforeDropsPrefix(s: seq<real>, cutoff: real) returns (d: nat)
    ensures d <= |s| && DropBefore(s, cutoff) == s[d..]
    ensures forall i :: 0 <= i < d ==> s[i] < cutoff
    ensures d < |s| ==> s[d] >= cutoff
  {
    d := 0;
    if s != [] && s[0] < cutoff {
      var rest := s[1..];
      d := DropBeforeDropsPrefix(rest, cutoff);
      assert forall i :: 0 < i <= d ==> s[i] == rest[i - 1];
      d := d + 1;
    }
  }

  /** On an ascending sequence that is exactly the elements from `cutoff` on. */
  lemma {:induction false} DropBeforeIsFromOn(s: seq<real>, cutoff: real)
    requires Ascending(s)
    ensures DropBefore(s, cutoff) == FromOn(s, cutoff)
  {
    var d := DropBeforeDropsPrefix(s, cutoff);
    FromOnSplit(s, cutoff, d);
  }

  /** Dropping early and then again leaves what dropping once at the end leaves. */
  lemma {:induction false} DropEarlyThenLate(deq: seq<real>, more: seq<real>, early: real, late: real)
    requires early <= late
    ensures DropBefore(DropBefore(deq, early) + more, late) == DropBefore(deq + more, late)
  {
    if deq != [] && deq[0] < early {
      DropEarlyThenLate(deq[1..], more, early, late);
      assert (deq + more)[1..] == deq[1..] + more;
    }
  }

  /** While the head of what was kept stays, a later cut keeps the same; once it goes, less. */
  lemma {:induction false} LaterDrop(deq: seq<real>, kept: seq<real>, early: real, late: real)
    requires early <= late && kept == DropBefore(deq, early) && kept != []
    ensures late <= kept[0] ==> DropBefore(deq, late) == kept
    ensures kept[0] < late ==> |DropBefore(deq, late)| < |kept|
  {
    DropEarlyThenLate(deq, [], early, late);
    assert kept + [] == kept && deq + [] == deq;
    if kept[0] < late {
      var n := DropBeforeDropsPrefix(kept[1..], late);
    }
  }

  /** No element before `cutoff` stands behind one at or after it. */
  ghost predicate NoneStaleBehind(s: seq<real>, cutoff: real) {
    forall i, j :: 0 <= i < j < |s| && s[i] >= cutoff ==> s[j] >= cutoff
  }

  /** Whatever the order, the loop keeps every element from `cutoff` on, and exactly those if
      and only if none before `cutoff` stands behind one of them. */
  lemma {:induction false} DropBeforeKeepsWindow(s: seq<real>, cutoff: real)
    ensures FromOn(DropBefore(s, cutoff), cutoff) == FromOn(s, cutoff)
    ensures DropBefore(s, cutoff) == FromOn(s, cutoff) <==> NoneStaleBehind(s, cutoff)
  {
    var d := DropBeforeDropsPrefix(s, cutoff);
    FromOnSkipsPrefix(s, d, cutoff);
    if DropBefore(s, cutoff) == FromOn(s, cutoff) {
      FromOnElements(s, cutoff);
      forall j | d <= j < |s| ensures s[j] >= cutoff {
        assert s[d..][j - d] in FromOn(s, cutoff);
      }
    } else if NoneStaleBehind(s, cutoff) {
      FromOnSplit(s, cutoff, d);
    }
  }

  // ---- a pruned deque against its full history ----

  /** `deq` is what pruning has left of `history`: only a prefix older than `floor` is gone. */
  ghost predicate Refines(deq: seq<real>, history: seq<real>, floor: real) {
    && |deq| <= |history|
    && deq == history[|history| - |deq|..]
    && NoneFrom(history, |history| - |deq|, floor)
  }

  /** The first k elements all lie before `floor`. */
  ghost predicate NoneFrom(s: seq<real>, k: nat, floor: real)
    requires k <= |s|
  {
    forall i :: 0 <= i < k ==> s[i] < floor
  }

  lemma {:induction false} PruneKeepsRefinement(deq: seq<real>, history: seq<real>, floor: real, cutoff: real)
    requires Refines(deq, history, floor) && floor <= cutoff
    ensures Refines(DropBefore(deq, cutoff), history, cutoff)
  {
    var k := |history| - |deq|;
    var d := DropBeforeDropsPrefix(deq, cutoff);
    assert deq[d..] == history[k + d..];
    assert NoneFrom(history, k + d, cutoff) by {
      assert forall i :: k <= i < k + d ==> history[i] == deq[i - k];
    }
  }

  /** Pruning never under-counts: whatever the order of arrival, every element at or after the
      floor is still in the deque. */
  lemma {:induction false} RefinementKeepsRecent(deq: seq<real>, history: seq<real>, floor: real)
    requires Refines(deq, history, floor)
    ensures FromOn(deq, floor) == FromOn(history, floor)
  {
    var k := |history| - |deq|;
    FromOnSkipsPrefix(history, k, floor);
  }

  lemma {:induction false} FromOnSkipsPrefix(s: seq<real>, k: nat, cutoff: real)
    requires k <= |s| && NoneFrom(s, k, cutoff)
    ensures FromOn(s[k..], cutoff) == FromOn(s, cutoff)
  {
    if k == |s| {
      FromOnSplit(s, cutoff, k);
    } else {
      var n := |s| - 1;
      assert NoneFrom(s[..n], k, cutoff);
      FromOnSkipsPrefix(s[..n], k, cutoff);
      assert s[k..][..n - k] == s[..n][k..];
    }
  }

  /** On ascending arrivals the pruned deque is exactly the window. */
  lemma {:induction false} PrunedDequeIsWindow(deq: seq<real>, history: seq<real>, floor: real, cutoff: real)
    requires Ascending(history) && Refines(deq, history, floor) && floor <= cutoff
    ensures DropBefore(deq, cutoff) == FromOn(history, cutoff)
    ensures Refines(DropBefore(deq, cutoff), history, cutoff)
  {
    PruneKeepsRefinement(deq, history, floor, cutoff);
    DropBeforeIsFromOn(deq, cutoff);
    RefinementKeepsRecent(DropBefore(deq, cutoff), history, cutoff);
    FromOnTwice(deq, cutoff, cutoff);
  }

  lemma {:induction false} RefinesAppend(deq: seq<real>, history: seq<real>, floor: real, t: real)
    requires Refines(deq, history, floor)
    ensures Refines(deq + [t], history + [t], floor)
  {
    assert (history + [t])[|history| - |deq|..] == history[|history| - |deq|..] + [t];
  }

  lemma {:induction false} RefinesLaterFloor(deq: seq<real>, history: seq<real>, floor: real, later: real)
    requires Refines(deq, history, floor) && floor <= later
    ensures Refines(deq, history, later)
  {
  }

  /** Dropping what lies before an early cutoff loses nothing the floor protects. */
  lemma {:induction false} DropKeepsRefinement(deq: seq<real>, history: seq<real>, floor: real, cutoff: real)
    requires Refines(deq, history, floor) && cutoff <= floor
    ensures Refines(DropBefore(deq, cutoff), history, floor)
  {
    var k := |history| - |deq|;
    var d := DropBeforeDropsPrefix(deq, cutoff);
    assert deq[d..] == history[k + d..];
    assert NoneFrom(history, k + d, floor) by {
      assert forall i :: k <= i < k + d ==> history[i] == deq[i - k];
    }
  }

  /** The deque is the full history minus events that have left the window for good. */
  ghost predicate Tracked(deq: seq<real>, history: seq<real>, window: real, mono: real) {
    Ascending(history) && NoneAfter(history, mono) && Refines(deq, history, mono - window)
  }

  /** Time passing. */
  lemma {:induction false} WaitKeepsTracked(
      deq: seq<real>, history: seq<real>, window: real, mono: real, later: real)
    requires Tracked(deq, history, window, mono) && mono <= later
    ensures Tracked(deq, history, window, later)
  {
    RefinesLaterFloor(deq, history, mono - window, later - window);
  }

  /** A gate, which may prune to a longer window than the one watched. */
  lemma {:induction false} GateKeepsTracked(
      deq: seq<real>, history: seq<real>, window: real, mono: real, cutoff: real, later: real)
    requires Tracked(deq, history, window, mono) && mono <= later && cutoff <= later - window
    ensures Tracked(DropBefore(deq, cutoff), history, window, later)
  {
    WaitKeepsTracked(deq, history, window, mono, later);
    DropKeepsRefinement(deq, history, later - window, cutoff);
  }

  /** An event recorded at t after such a gate. */
  lemma {:induction false} RecordKeepsTracked(
      deq: seq<real>, history: seq<real>, window: real, mono: real, cutoff: real, t: real)
    requires Tracked(deq, history, window, mono) && mono <= t && cutoff <= t - window
    ensures Tracked(DropBefore(deq, cutoff) + [t], history + [t], window, t)
  {
    GateKeepsTracked(deq, history, window, mono, cutoff, t);
    AppendKeepsAscending(history, t);
    RefinesAppend(DropBefore(deq, cutoff), history, t - window, t);
  }

  /** Room in a deque that still holds the watched window is room in the whole history. */
  lemma {:induction false} RoomKeepsSpacing(
      deq: seq<real>, history: seq<real>, window: real, most: nat, mono: real, cutoff: real, g: real, t: real)
    requires Tracked(deq, history, window, mono) && Spaced(history, window, most) && mono <= g <= t
    requires cutoff <= g - window && |DropBefore(deq, cutoff)| < most
    ensures Spaced(history + [t], window, most)
  {
    GateKeepsTracked(deq, history, window, mono, cutoff, g);
    RefinementKeepsRecent(DropBefore(deq, cutoff), history, g - window);
    AdmissionKeepsSpacing(history, g, t, window, most);
  }

  /** What a tracked deque keeps at a gate is as many as lie in the window that ends there. */
  lemma {:induction false} DequeCounts(deq: seq<real>, history: seq<real>, window: real, mono: real, now: real)
    requires Tracked(deq, history, window, mono) && mono <= now
    ensures |DropBefore(deq, now - window)| == CountIn(history, now - window, now)
  {
    PrunedDequeIsWindow(deq, history, mono - window, now - window);
    FromOnCounts(history, now - window, now);
  }
}
