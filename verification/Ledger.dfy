/** The append-only kick ledger and the one query the gates make of it. */
module Ledger {
  import opened Config
  import opened Windows
  import R = Rationale

  /** A ledger row's mechanism: what was sent on the wire, or the fallback of a BTM pair. */
  datatype RowMechanism = RowDeauth | RowBtm | RowFallback

  type Group = nat

  datatype KickRow = KickRow(
    ts: real, mac: Mac, dryRun: bool, mechanism: RowMechanism,
    attemptGroup: Option<Group>, trigger: R.Trigger, rationale: Option<R.Envelope>)

  type Rows = seq<KickRow>

  /** One row per logical kick: not a dry run, and not the second half of a BTM pair. */
  predicate IsLogical(row: KickRow) { !row.dryRun && !row.mechanism.RowFallback? }

  /** This MAC's logical-kick timestamps, in insertion order. */
  function LogicalTs(rows: Rows, mac: Mac): seq<real> {
    if rows == [] then [] else
      var n := |rows| - 1;
      LogicalTs(rows[..n], mac)
      + (if rows[n].mac == mac && IsLogical(rows[n]) then [rows[n].ts] else [])
  }

  function InsertSorted(s: seq<real>, t: real): seq<real> {
    if s == [] || s[|s| - 1] <= t then s + [t]
    else InsertSorted(s[..|s| - 1], t) + [s[|s| - 1]]
  }

  function Sorted(s: seq<real>): seq<real> {
    if s == [] then [] else InsertSorted(Sorted(s[..|s| - 1]), s[|s| - 1])
  }

  /** SELECT ts ... WHERE mac AND ts >= since AND dry_run = 0 AND mechanism != fallback
      ORDER BY ts. */
  function RecentKickTimestamps(rows: Rows, mac: Mac, since: real): seq<real> {
    Sorted(FromOn(LogicalTs(rows, mac), since))
  }

  // ---- the ORDER BY ----

  lemma {:induction false} InsertSortedIsPermutation(s: seq<real>, t: real)
    ensures multiset(InsertSorted(s, t)) == multiset(s) + multiset{t}
  {
    if !(s == [] || s[|s| - 1] <= t) {
      var n := |s| - 1;
      InsertSortedIsPermutation(s[..n], t);
      assert s == s[..n] + [s[n]];
    }
  }

  lemma {:induction false} InsertSortedIsAscending(s: seq<real>, t: real)
    requires Ascending(s)
    ensures Ascending(InsertSorted(s, t))
    ensures forall u :: NoneAfter(s, u) && t <= u ==> NoneAfter(InsertSorted(s, t), u)
  {
    if !(s == [] || s[|s| - 1] <= t) {
      var n := |s| - 1;
      var init := s[..n];
      InsertSortedIsAscending(init, t);
      assert NoneAfter(init, s[n]);
      AppendKeepsAscending(InsertSorted(init, t), s[n]);
      forall u | NoneAfter(s, u) && t <= u ensures NoneAfter(InsertSorted(s, t), u) {
        assert NoneAfter(init, u) && s[n] <= u;
      }
    }
  }

  /** The query returns an ascending rearrangement of the matching timestamps. */
  lemma {:induction false} SortedIsAscendingPermutation(s: seq<real>)
    ensures Ascending(Sorted(s)) && multiset(Sorted(s)) == multiset(s)
  {
    if s != [] {
      var n := |s| - 1;
      SortedIsAscendingPermutation(s[..n]);
      InsertSortedIsAscending(Sorted(s[..n]), s[n]);
      InsertSortedIsPermutation(Sorted(s[..n]), s[n]);
      assert s == s[..n] + [s[n]];
    }
  }

  lemma {:induction false} AscendingIsSorted(s: seq<real>)
    requires Ascending(s)
    ensures Sorted(s) == s
  {
    if s != [] {
      var n := |s| - 1;
      AscendingIsSorted(s[..n]);
      assert InsertSorted(s[..n], s[n]) == s[..n] + [s[n]];
    }
  }

  lemma {:induction false} FromOnBound(s: seq<real>, cutoff: real, t: real)
    requires NoneAfter(s, t)
    ensures NoneAfter(FromOn(s, cutoff), t)
  {
    if s != [] {
      FromOnBound(s[..|s| - 1], cutoff, t);
    }
  }

  lemma {:induction false} FromOnInsert(s: seq<real>, t: real, cutoff: real)
    requires Ascending(s)
    ensures FromOn(InsertSorted(s, t), cutoff)
         == if t >= cutoff then InsertSorted(FromOn(s, cutoff), t) else FromOn(s, cutoff)
  {
    if s == [] || s[|s| - 1] <= t {
      FromOnAppend(s, t, cutoff);
      FromOnBound(s, cutoff, t);
    } else {
      var n := |s| - 1;
      FromOnInsert(s[..n], t, cutoff);
      FromOnAppend(InsertSorted(s[..n], t), s[n], cutoff);
    }
  }

  /** Cutting before the sort or after it is the same. */
  lemma {:induction false} FromOnSorted(s: seq<real>, cutoff: real)
    ensures FromOn(Sorted(s), cutoff) == Sorted(FromOn(s, cutoff))
  {
    if s != [] {
      var n := |s| - 1;
      FromOnSorted(s[..n], cutoff);
      SortedIsAscendingPermutation(s[..n]);
      FromOnInsert(Sorted(s[..n]), s[n], cutoff);
      assert s[n] < cutoff ==> FromOn(s, cutoff) == FromOn(s[..n], cutoff);
    }
  }

  // ---- dry-run rows are invisible ----

  /** The ledger without its dry-run rows. */
  function LiveRows(rows: Rows): Rows {
    if rows == [] then [] else
      var n := |rows| - 1;
      LiveRows(rows[..n]) + (if rows[n].dryRun then [] else [rows[n]])
  }

  lemma {:induction false} LogicalTsIgnoresDryRuns(rows: Rows, mac: Mac)
    ensures LogicalTs(LiveRows(rows), mac) == LogicalTs(rows, mac)
  {
    if rows != [] {
      var n := |rows| - 1;
      LogicalTsIgnoresDryRuns(rows[..n], mac);
      assert rows[n].dryRun ==> LiveRows(rows) == LiveRows(rows[..n]);
    }
  }
}
