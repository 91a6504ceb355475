/** Per-device edits of the configuration document: MAC-list memberships and per-MAC rows, as
    a lens on the document tree. */
module DeviceConfig {
  import opened Config
  import opened Document

  datatype Result<+T> = Ok(value: T) | Err

  /** The document after an edit, and whether the edit changed it. */
  datatype Edited = Edited(doc: Node, changed: bool)

  predicate MacMatches(n: Node, mac: Mac) {
    n.Scalar? && n.atom.Str? && NormalizeMac(n.atom.s) == mac
  }

  /** The editor works with canonical MACs, which match themselves. */
  predicate Canonical(mac: Mac) { NormalizeMac(mac) == mac }

  // ---- memberships ----

  predicate AnyMatches(items: seq<Node>, mac: Mac) {
    exists k :: 0 <= k < |items| && MacMatches(items[k], mac)
  }

  function Others(items: seq<Node>, mac: Mac): seq<Node> {
    if items == [] then [] else
      Others(items[..|items| - 1], mac)
      + (if MacMatches(items[|items| - 1], mac) then [] else [items[|items| - 1]])
  }

  function ApplyMembership(doc: Node, path: Path, mac: Mac, on: bool): Result<Edited> {
    match Existing(doc, path)
    case None =>
      if on then Ok(Edited(SetAt(doc, path, List([Scalar(Str(mac))])), true)) else Ok(Edited(doc, false))
    case Some(n) =>
      if !n.List? then Err
      else if on then
        if AnyMatches(n.items, mac) then Ok(Edited(doc, false))
        else Ok(Edited(SetAt(doc, path, List(n.items + [Scalar(Str(mac))])), true))
      else
        if AnyMatches(n.items, mac) then Ok(Edited(SetAt(doc, path, List(Others(n.items, mac))), true))
        else Ok(Edited(doc, false))
  }

  /** Deleting the doomed indices from the last one down leaves the other entries in order. */
  method DeleteMatches(items: seq<Node>, mac: Mac) returns (kept: seq<Node>, changed: bool)
    ensures kept == Others(items, mac) && changed == AnyMatches(items, mac)
  {
    kept, changed := items, false;
    var i := |items|;
    assert items[..i] == items;
    while i > 0
      invariant 0 <= i <= |items| && |kept| >= i && kept[..i] == items[..i]
      invariant Others(items, mac) == Others(items[..i], mac) + kept[i..]
      invariant changed <==> exists k :: i <= k < |items| && MacMatches(items[k], mac)
    {
      i := i - 1;
      assert items[..i + 1][..i] == items[..i] && kept[i] == items[i];
      if MacMatches(items[i], mac) {
        kept := kept[..i] + kept[i + 1..];
        changed := true;
      }
    }
    assert items[..0] == [] && kept[0..] == kept;
  }

  function ListItems(doc: Node, path: Path): seq<Node> {
    match NodeAt(doc, path)
    case Some(n) => if n.List? then n.items else []
    case None => []
  }

  /** What the device card reads. */
  predicate IsMember(doc: Node, path: Path, mac: Mac) { AnyMatches(ListItems(doc, path), mac) }

  lemma {:induction false} AnyMatchesAppend(items: seq<Node>, n: Node, mac: Mac)
    ensures AnyMatches(items + [n], mac) <==> AnyMatches(items, mac) || MacMatches(n, mac)
  {
    if AnyMatches(items, mac) {
      var k :| 0 <= k < |items| && MacMatches(items[k], mac);
      assert (items + [n])[k] == items[k];
    }
    if MacMatches(n, mac) {
      assert (items + [n])[|items|] == n;
    }
  }

  lemma {:induction false} OthersFacts(items: seq<Node>, mac: Mac)
    ensures !AnyMatches(Others(items, mac), mac)
    ensures Others(Others(items, mac), mac) == Others(items, mac)
    ensures !AnyMatches(items, mac) ==> Others(items, mac) == items
  {
    if items != [] {
      var n := |items| - 1;
      var init := items[..n];
      OthersFacts(init, mac);
      AnyMatchesAppend(init, items[n], mac);
      assert items == init + [items[n]];
      if MacMatches(items[n], mac) {
        assert Others(items, mac) == Others(init, mac);
      } else {
        AnyMatchesAppend(Others(init, mac), items[n], mac);
      }
    }
  }

  /** What a membership edit writes over a list that needs one. */
  function EditedMembers(items: seq<Node>, mac: Mac, on: bool): seq<Node> {
    if on then items + [Scalar(Str(mac))] else Others(items, mac)
  }

  lemma {:induction false} EditedMembersFacts(items: seq<Node>, mac: Mac, on: bool)
    requires Canonical(mac)
    ensures AnyMatches(EditedMembers(items, mac, on), mac) == on
    ensures Others(EditedMembers(items, mac, on), mac) == Others(items, mac)
  {
    var n := Scalar(Str(mac));
    OthersFacts(items, mac);
    if on {
      assert (items + [n])[|items|] == n;
      assert MacMatches(n, mac);
      assert Others(items, mac) + [] == Others(items, mac);
    }
  }

  /** An edit either writes the edited list or finds the membership already as asked. */
  lemma {:induction false} MembershipShape(doc: Node, path: Path, mac: Mac, on: bool)
    requires ApplyMembership(doc, path, mac, on).Ok?
    ensures var e := ApplyMembership(doc, path, mac, on).value;
            if IsMember(doc, path, mac) == on then e == Edited(doc, false)
            else e == Edited(SetAt(doc, path, List(EditedMembers(ListItems(doc, path), mac, on))), true)
  {
    if Existing(doc, path).None? {
      assert ListItems(doc, path) == [];
      assert [] + [Scalar(Str(mac))] == [Scalar(Str(mac))];
    }
  }

  /** Over a list, an edit that asks for what is already there changes nothing. */
  lemma {:induction false} SettledMembership(doc: Node, path: Path, mac: Mac, on: bool)
    requires NodeAt(doc, path).Some? && NodeAt(doc, path).value.List? && IsMember(doc, path, mac) == on
    ensures ApplyMembership(doc, path, mac, on) == Ok(Edited(doc, false))
  {
  }

  /** The membership lens: reading after writing gives what was written, writing again changes
      nothing, writing what is already there changes nothing, every other entry of the list
      keeps its value and order, and every diverging path keeps its node. */
  lemma {:induction false} MembershipLens(doc: Node, path: Path, mac: Mac, on: bool, other: Path)
    requires Canonical(mac) && ApplyMembership(doc, path, mac, on).Ok?
    ensures var e := ApplyMembership(doc, path, mac, on).value;
            && IsMember(e.doc, path, mac) == on
            && ApplyMembership(e.doc, path, mac, on) == Ok(Edited(e.doc, false))
            && (IsMember(doc, path, mac) == on <==> !e.changed) && (!e.changed ==> e.doc == doc)
            && Others(ListItems(e.doc, path), mac) == Others(ListItems(doc, path), mac)
            && (Diverge(path, other) ==> NodeAt(e.doc, other) == NodeAt(doc, other))
  {
    var e := ApplyMembership(doc, path, mac, on).value;
    var items := ListItems(doc, path);
    MembershipShape(doc, path, mac, on);
    if IsMember(doc, path, mac) != on {
      var written := List(EditedMembers(items, mac, on));
      EditedMembersFacts(items, mac, on);
      ReadBack(doc, path, written);
      assert ListItems(e.doc, path) == written.items;
      SettledMembership(e.doc, path, mac, on);
      if Diverge(path, other) { OtherPathsStay(doc, path, written, other); }
    }
  }

  /** A scalar where the list should be is refused, but an explicit null is not: it reads as
      missing and is replaced. */
  lemma {:induction false} NullListIsReplaced(doc: Node, path: Path, mac: Mac)
    requires NodeAt(doc, path) == Some(Scalar(Null))
    ensures ApplyMembership(doc, path, mac, true) == Ok(Edited(SetAt(doc, path, List([Scalar(Str(mac))])), true))
  {
  }

  /** Exactly what is refused: something at the path that is neither a null nor a list. */
  lemma {:induction false} MembershipRefusedIff(doc: Node, path: Path, mac: Mac, on: bool)
    ensures ApplyMembership(doc, path, mac, on).Err? <==>
            NodeAt(doc, path).Some? && NodeAt(doc, path).value != Scalar(Null) && !NodeAt(doc, path).value.List?
  {
  }

  /** A scalar where the parent mapping should be is not refused: it is replaced by a mapping,
      and the operator's value is gone. */
  lemma {:induction false} ScalarParentIsReplaced(rest: Entries, mac: Mac, value: Atom)
    ensures var doc := Map([Entry("reboot", Scalar(value))] + rest);
            var path := ["reboot", "eligible"];
            ApplyMembership(doc, path, mac, true)
            == Ok(Edited(Map([Entry("reboot", Map([Entry("eligible", List([Scalar(Str(mac))]))]))] + rest), true))
  {
    var entries := [Entry("reboot", Scalar(value))] + rest;
    var path := ["reboot", "eligible"];
    assert path[1..] == ["eligible"] && path[1..][1..] == [] && entries[1..] == rest;
    assert Get(entries, "reboot") == Some(Scalar(value));
    assert NodeAt(Map(entries), path).None?;
    var list := List([Scalar(Str(mac))]);
    assert SetAt(Scalar(value), ["eligible"], list) == Map([Entry("eligible", list)]);
  }

  /** Exactly when an accepted toggle overwrites something that was there: when a null stands at
      the list, or anything but a mapping on the way to it. */
  lemma {:induction false} ToggleOverwritesIff(doc: Node, path: Path, mac: Mac, on: bool)
    requires ApplyMembership(doc, path, mac, on).Ok? && ApplyMembership(doc, path, mac, on).value.changed
    ensures Keeps(doc, ApplyMembership(doc, path, mac, on).value.doc, path) <==> !Blocked(doc, path)
  {
    MembershipShape(doc, path, mac, on);
    WritingKeepsIff(doc, path, EditedMembers(ListItems(doc, path), mac, on));
  }

  // ---- per-MAC rows ----

  /** A coerced leaf of the payload. */
  datatype Edit = Clear | Write(value: Node) | Bad

  datatype LeafEdit = LeafEdit(leaf: string, edit: Edit)

  predicate Refused(edits: seq<LeafEdit>, known: set<string>) {
    exists k :: 0 <= k < |edits| && (edits[k].leaf == "mac" || edits[k].leaf !in known || edits[k].edit.Bad?)
  }

  predicate OnlyClears(edits: seq<LeafEdit>) {
    forall k :: 0 <= k < |edits| ==> edits[k].edit.Clear?
  }

  datatype RowEdit = RowEdit(row: Entries, changed: bool, cleared: bool)

  function EditRow(row: Entries, edits: seq<LeafEdit>): RowEdit {
    if edits == [] then RowEdit(row, false, false) else
      var n := |edits| - 1;
      var before := EditRow(row, edits[..n]);
      match edits[n].edit
      case Clear =>
        if Get(before.row, edits[n].leaf).Some?
        then RowEdit(Delete(before.row, edits[n].leaf), true, true) else before
      case Write(v) =>
        if Get(before.row, edits[n].leaf) != Some(v)
        then RowEdit(Put(before.row, edits[n].leaf, v), true, before.cleared) else before
      case Bad => before
  }

  method ApplyEdits(start: Entries, edits: seq<LeafEdit>) returns (row: Entries, changed: bool, cleared: bool)
    ensures RowEdit(row, changed, cleared) == EditRow(start, edits)
  {
    row, changed, cleared := start, false, false;
    for i := 0 to |edits|
      invariant RowEdit(row, changed, cleared) == EditRow(start, edits[..i])
    {
      assert edits[..i + 1][..i] == edits[..i];
      var leaf := edits[i].leaf;
      match edits[i].edit
      case Clear =>
        if Get(row, leaf).Some? {
          row := Delete(row, leaf);
          changed, cleared := true, true;
        }
      case Write(value) =>
        if Get(row, leaf) != Some(value) {
          row := Put(row, leaf, value);
          changed := true;
        }
      case Bad =>
    }
    assert edits[..|edits|] == edits;
  }

  predicate IsRowOf(n: Node, mac: Mac) {
    n.Map? && Get(n.entries, "mac").Some? && MacMatches(Get(n.entries, "mac").value, mac)
  }

  /** Index of the first row of this MAC, or the length. */
  function RowIndex(items: seq<Node>, mac: Mac): (k: nat)
    ensures k <= |items| && (k < |items| ==> IsRowOf(items[k], mac))
    ensures forall i :: 0 <= i < k ==> !IsRowOf(items[i], mac)
  {
    if items == [] then 0
    else if IsRowOf(items[0], mac) then 0
    else
      var k := RowIndex(items[1..], mac);
      assert forall i :: 0 < i < k + 1 ==> items[i] == items[1..][i - 1];
      k + 1
  }

  /** Nothing but its identity. */
  predicate IsStub(row: Entries) { forall k :: 0 <= k < |row| ==> row[k].key == "mac" }

  function NewRow(mac: Mac): Entries { [Entry("mac", Scalar(Str(mac)))] }

  /** The list after the edit, and whether it changed. */
  datatype RowsEdit = RowsEdit(items: seq<Node>, changed: bool)

  function EditRows(items: seq<Node>, mac: Mac, edits: seq<LeafEdit>): RowsEdit {
    var k := RowIndex(items, mac);
    if k == |items| then
      if OnlyClears(edits) then RowsEdit(items, false)
      else RowsEdit(items + [Map(EditRow(NewRow(mac), edits).row)], true)
    else
      var r := EditRow(items[k].entries, edits);
      if r.cleared && IsStub(r.row) then RowsEdit(items[..k] + items[k + 1..], true)
      else RowsEdit(items[k := Map(r.row)], r.changed)
  }

  function ApplyObjectRow(doc: Node, path: Path, mac: Mac, edits: seq<LeafEdit>, known: set<string>): Result<Edited> {
    if Refused(edits, known) then Err
    else
      match Existing(doc, path)
      case None =>
        if OnlyClears(edits) then Ok(Edited(doc, false))
        else Ok(Edited(SetAt(doc, path, List(EditRows([], mac, edits).items)), true))
      case Some(n) =>
        if !n.List? then Err
        else
          var e := EditRows(n.items, mac, edits);
          if e.changed then Ok(Edited(SetAt(doc, path, List(e.items)), true)) else Ok(Edited(doc, false))
  }

  /** What the device card reads of a leaf; None shows as blank. */
  function ReadLeaf(items: seq<Node>, mac: Mac, leaf: string): Option<Node> {
    var k := RowIndex(items, mac);
    if k < |items| then Get(items[k].entries, leaf) else None
  }

  // ---- the row lens ----

  /** A well-formed payload: known leaves, each once, none of them the identity. */
  ghost predicate Proper(edits: seq<LeafEdit>) {
    && (forall k :: 0 <= k < |edits| ==> edits[k].leaf != "mac" && !edits[k].edit.Bad?)
    && (forall i, j :: 0 <= i < j < |edits| ==> edits[i].leaf != edits[j].leaf)
  }

  /** What the payload asks of a leaf: its value, its absence, or nothing. */
  function Asked(edits: seq<LeafEdit>, leaf: string, was: Option<Node>): Option<Node> {
    if edits == [] then was else
      var last := edits[|edits| - 1];
      if last.leaf == leaf && last.edit.Write? then Some(last.edit.value)
      else if last.leaf == leaf && last.edit.Clear? then None
      else Asked(edits[..|edits| - 1], leaf, was)
  }

  lemma {:induction false} EditRowSetsLeaves(row: Entries, edits: seq<LeafEdit>, leaf: string)
    ensures Get(EditRow(row, edits).row, leaf) == Asked(edits, leaf, Get(row, leaf))
  {
    if edits != [] {
      var n := |edits| - 1;
      EditRowSetsLeaves(row, edits[..n], leaf);
      var before := EditRow(row, edits[..n]).row;
      GetDelete(before, edits[n].leaf, leaf);
      if edits[n].edit.Write? { GetPut(before, edits[n].leaf, edits[n].edit.value, leaf); }
    }
  }

  lemma {:induction false} AskedOnce(edits: seq<LeafEdit>, leaf: string, was: Option<Node>, k: nat)
    requires Proper(edits) && k < |edits| && edits[k].leaf == leaf
    ensures Asked(edits, leaf, was) == match edits[k].edit case Write(v) => Some(v) case _ => None
  {
    if k < |edits| - 1 {
      assert Proper(edits[..|edits| - 1]);
      AskedOnce(edits[..|edits| - 1], leaf, was, k);
    }
  }

  lemma {:induction false} NotAsked(edits: seq<LeafEdit>, leaf: string, was: Option<Node>)
    requires forall k :: 0 <= k < |edits| ==> edits[k].leaf != leaf
    ensures Asked(edits, leaf, was) == was
  {
    if edits != [] {
      NotAsked(edits[..|edits| - 1], leaf, was);
    }
  }

  /** A row that already satisfies every edit is left alone. */
  ghost predicate Satisfies(row: Entries, edits: seq<LeafEdit>) {
    forall k :: 0 <= k < |edits| ==>
      match edits[k].edit
      case Write(v) => Get(row, edits[k].leaf) == Some(v)
      case Clear => Get(row, edits[k].leaf).None?
      case Bad => true
  }

  lemma {:induction false} SatisfiedRowStays(row: Entries, edits: seq<LeafEdit>)
    requires Satisfies(row, edits)
    ensures EditRow(row, edits) == RowEdit(row, false, false)
  {
    if edits != [] {
      SatisfiedRowStays(row, edits[..|edits| - 1]);
    }
  }

  lemma {:induction false} EditedRowSatisfies(row: Entries, edits: seq<LeafEdit>)
    requires Proper(edits)
    ensures Satisfies(EditRow(row, edits).row, edits)
    ensures Get(EditRow(row, edits).row, "mac") == Get(row, "mac")
  {
    forall k | 0 <= k < |edits|
      ensures Get(EditRow(row, edits).row, edits[k].leaf)
           == match edits[k].edit case Write(v) => Some(v) case _ => None
    {
      EditRowSetsLeaves(row, edits, edits[k].leaf);
      AskedOnce(edits, edits[k].leaf, Get(row, edits[k].leaf), k);
    }
    EditRowSetsLeaves(row, edits, "mac");
    NotAsked(edits, "mac", Get(row, "mac"));
  }

  lemma {:induction false} StubHasNoLeaf(row: Entries, leaf: string)
    requires IsStub(row) && leaf != "mac"
    ensures Get(row, leaf).None?
  {
    if row != [] {
      assert IsStub(row[1..]) by {
        assert forall k :: 0 <= k < |row| - 1 ==> row[1..][k] == row[k + 1];
      }
      StubHasNoLeaf(row[1..], leaf);
    }
  }

  /** At most one row of this MAC. */
  ghost predicate OneRow(items: seq<Node>, mac: Mac) {
    forall i, j :: 0 <= i < |items| && 0 <= j < |items| && IsRowOf(items[i], mac) && IsRowOf(items[j], mac) ==> i == j
  }

  /** The rows that are not this MAC's, in order. */
  function OtherRows(items: seq<Node>, mac: Mac): seq<Node> {
    if items == [] then [] else
      OtherRows(items[..|items| - 1], mac)
      + (if IsRowOf(items[|items| - 1], mac) then [] else [items[|items| - 1]])
  }

  lemma {:induction false} OtherRowsConcat(a: seq<Node>, b: seq<Node>, mac: Mac)
    ensures OtherRows(a + b, mac) == OtherRows(a, mac) + OtherRows(b, mac)
  {
    if b == [] {
      assert a + b == a;
    } else {
      var n := |b| - 1;
      OtherRowsConcat(a, b[..n], mac);
      assert (a + b)[..|a| + n] == a + b[..n];
    }
  }

  lemma {:induction false} OtherRowsSplit(items: seq<Node>, k: nat, x: seq<Node>, mac: Mac)
    requires k < |items| && IsRowOf(items[k], mac) && OtherRows(x, mac) == []
    ensures OtherRows(items[..k] + x + items[k + 1..], mac) == OtherRows(items, mac)
  {
    SingleRowIsNoOther(items[k], mac);
    OtherRowsSkip(items[..k], [items[k]], items[k + 1..], mac);
    assert items == items[..k] + [items[k]] + items[k + 1..];
    OtherRowsSkip(items[..k], x, items[k + 1..], mac);
  }

  lemma {:induction false} OtherRowsSkip(a: seq<Node>, x: seq<Node>, b: seq<Node>, mac: Mac)
    requires OtherRows(x, mac) == []
    ensures OtherRows(a + x + b, mac) == OtherRows(a, mac) + OtherRows(b, mac)
  {
    OtherRowsConcat(a + x, b, mac);
    OtherRowsConcat(a, x, mac);
  }

  lemma {:induction false} SingleRowIsNoOther(row: Node, mac: Mac)
    requires IsRowOf(row, mac)
    ensures OtherRows([row], mac) == []
  {
    assert OtherRows([row][..0], mac) == [];
  }

  lemma {:induction false} RowIndexIs(items: seq<Node>, mac: Mac, k: nat)
    requires k <= |items| && (k < |items| ==> IsRowOf(items[k], mac))
    requires forall i :: 0 <= i < k ==> !IsRowOf(items[i], mac)
    ensures RowIndex(items, mac) == k
  {
  }

  lemma {:induction false} NewRowIsRow(mac: Mac, edits: seq<LeafEdit>)
    requires Canonical(mac) && Proper(edits)
    ensures IsRowOf(Map(EditRow(NewRow(mac), edits).row), mac)
  {
    EditedRowSatisfies(NewRow(mac), edits);
  }

  /** Three shapes of the list after an edit: unchanged, one row replaced, one row removed. */
  lemma {:induction false} EditRowsShape(items: seq<Node>, mac: Mac, edits: seq<LeafEdit>)
    requires Canonical(mac) && Proper(edits)
    ensures var e := EditRows(items, mac, edits);
            var k := RowIndex(items, mac);
            && OtherRows(e.items, mac) == OtherRows(items, mac)
            && (k < |items| && !Drops(items, mac, edits) ==>
                  RowIndex(e.items, mac) == k && e.items[k] == Map(EditRow(items[k].entries, edits).row))
            && (k == |items| && !OnlyClears(edits) ==>
                  RowIndex(e.items, mac) == k && e.items[k] == Map(EditRow(NewRow(mac), edits).row))
  {
    var e := EditRows(items, mac, edits);
    var k := RowIndex(items, mac);
    if k == |items| {
      if !OnlyClears(edits) {
        var row := Map(EditRow(NewRow(mac), edits).row);
        NewRowIsRow(mac, edits);
        OtherRowsConcat(items, [row], mac);
        SingleRowIsNoOther(row, mac);
        RowIndexIs(items + [row], mac, k);
      }
    } else {
      var r := EditRow(items[k].entries, edits);
      if r.cleared && IsStub(r.row) {
        OtherRowsSplit(items, k, [], mac);
        assert items[..k] + [] + items[k + 1..] == items[..k] + items[k + 1..];
      } else {
        EditedRowSatisfies(items[k].entries, edits);
        SingleRowIsNoOther(Map(r.row), mac);
        OtherRowsSplit(items, k, [Map(r.row)], mac);
        assert items[k := Map(r.row)] == items[..k] + [Map(r.row)] + items[k + 1..];
        RowIndexIs(items[k := Map(r.row)], mac, k);
      }
    }
  }

  lemma {:induction false} ClearsAsk(edits: seq<LeafEdit>, leaf: string)
    requires OnlyClears(edits)
    ensures Asked(edits, leaf, None).None?
  {
    if edits != [] {
      ClearsAsk(edits[..|edits| - 1], leaf);
    }
  }

  /** The edit clears the last leaf of the MAC's first row, which is then removed. */
  predicate Drops(items: seq<Node>, mac: Mac, edits: seq<LeafEdit>) {
    var k := RowIndex(items, mac);
    k < |items|
    && var r := EditRow(items[k].entries, edits);
    r.cleared && IsStub(r.row)
  }

  /** The MAC's second row, which a dropped first row leaves to be read. */
  function SecondRow(items: seq<Node>, mac: Mac): Option<Entries> {
    var k := RowIndex(items, mac);
    if k == |items| then None else
      var left := items[..k] + items[k + 1..];
      var j := RowIndex(left, mac);
      if j < |left| then Some(left[j].entries) else None
  }

  /** Reading a leaf after an edit gives what the payload asked of it: the value written, blank
      for a cleared leaf, and the old value for a leaf it did not mention. */
  ghost predicate ReadsBack(items: seq<Node>, mac: Mac, edits: seq<LeafEdit>, leaf: string) {
    ReadLeaf(EditRows(items, mac, edits).items, mac, leaf) == Asked(edits, leaf, ReadLeaf(items, mac, leaf))
  }

  lemma {:induction false} KeptRowReadsBack(items: seq<Node>, mac: Mac, edits: seq<LeafEdit>, leaf: string)
    requires Canonical(mac) && Proper(edits) && !Drops(items, mac, edits) && leaf != "mac"
    ensures ReadsBack(items, mac, edits, leaf)
  {
    var k := RowIndex(items, mac);
    EditRowsShape(items, mac, edits);
    if k < |items| {
      EditRowSetsLeaves(items[k].entries, edits, leaf);
    } else if OnlyClears(edits) {
      ClearsAsk(edits, leaf);
    } else {
      NewRowReadsBack(mac, edits, leaf);
    }
  }

  lemma {:induction false} NewRowReadsBack(mac: Mac, edits: seq<LeafEdit>, leaf: string)
    requires Proper(edits) && leaf != "mac"
    ensures Get(EditRow(NewRow(mac), edits).row, leaf) == Asked(edits, leaf, None)
  {
    EditRowSetsLeaves(NewRow(mac), edits, leaf);
  }

  lemma {:induction false} DroppedRowReads(items: seq<Node>, mac: Mac, edits: seq<LeafEdit>, leaf: string)
    requires Drops(items, mac, edits) && leaf != "mac"
    ensures Asked(edits, leaf, ReadLeaf(items, mac, leaf)).None?
    ensures ReadLeaf(EditRows(items, mac, edits).items, mac, leaf)
         == match SecondRow(items, mac) case Some(row) => Get(row, leaf) case None => None
  {
    var entries := items[RowIndex(items, mac)].entries;
    EditRowSetsLeaves(entries, edits, leaf);
    StubHasNoLeaf(EditRow(entries, edits).row, leaf);
  }

  /** Exactly when read-back holds: it fails only when the edit drops the MAC's first row and a
      second one still says something. */
  lemma {:induction false} ReadBackIff(items: seq<Node>, mac: Mac, edits: seq<LeafEdit>)
    requires Canonical(mac) && Proper(edits)
    ensures (forall leaf :: leaf != "mac" ==> ReadsBack(items, mac, edits, leaf))
            <==> !(Drops(items, mac, edits)
                   && SecondRow(items, mac).Some? && !IsStub(SecondRow(items, mac).value))
  {
    if !Drops(items, mac, edits) {
      forall leaf | leaf != "mac" ensures ReadsBack(items, mac, edits, leaf) {
        KeptRowReadsBack(items, mac, edits, leaf);
      }
    } else if SecondRow(items, mac).Some? && !IsStub(SecondRow(items, mac).value) {
      var leaf := SpeakingLeaf(SecondRow(items, mac).value);
      DroppedRowReads(items, mac, edits, leaf);
      assert !ReadsBack(items, mac, edits, leaf);
    } else {
      forall leaf | leaf != "mac" ensures ReadsBack(items, mac, edits, leaf) {
        DroppedRowReads(items, mac, edits, leaf);
        if SecondRow(items, mac).Some? { StubHasNoLeaf(SecondRow(items, mac).value, leaf); }
      }
    }
  }

  lemma {:induction false} SpeakingLeaf(row: Entries) returns (leaf: string)
    requires !IsStub(row)
    ensures leaf != "mac" && Get(row, leaf).Some?
  {
    if row[0].key != "mac" {
      leaf := row[0].key;
    } else {
      leaf := SpeakingLeaf(row[1..]);
    }
  }

  /** A removed row leaves a payload of clears only: a written leaf would still be in it. */
  lemma {:induction false} RemovedMeansOnlyClears(row: Entries, edits: seq<LeafEdit>)
    requires Proper(edits) && IsStub(EditRow(row, edits).row)
    ensures OnlyClears(edits)
  {
    EditedRowSatisfies(row, edits);
    forall k | 0 <= k < |edits| ensures edits[k].edit.Clear? {
      StubHasNoLeaf(EditRow(row, edits).row, edits[k].leaf);
    }
  }

  /** An edit reported as no change leaves the list as it was. */
  lemma {:induction false} UnchangedRow(row: Entries, edits: seq<LeafEdit>)
    ensures !EditRow(row, edits).changed ==> EditRow(row, edits).row == row && !EditRow(row, edits).cleared
  {
    if edits != [] {
      UnchangedRow(row, edits[..|edits| - 1]);
    }
  }

  lemma {:induction false} UnchangedRows(items: seq<Node>, mac: Mac, edits: seq<LeafEdit>)
    requires !EditRows(items, mac, edits).changed
    ensures EditRows(items, mac, edits).items == items
  {
    var k := RowIndex(items, mac);
    if k < |items| {
      UnchangedRow(items[k].entries, edits);
    }
  }

  /** Exactly when applying the same payload twice changes nothing the second time: unless the
      first time drops a row and a second row has a leaf to clear. */
  lemma {:induction false} EditTwiceIff(items: seq<Node>, mac: Mac, edits: seq<LeafEdit>)
    requires Canonical(mac) && Proper(edits)
    ensures var once := EditRows(items, mac, edits).items;
            EditRows(once, mac, edits) == RowsEdit(once, false)
            <==> !(Drops(items, mac, edits)
                   && SecondRow(items, mac).Some? && !Satisfies(SecondRow(items, mac).value, edits))
  {
    if Drops(items, mac, edits) {
      RemovedMeansOnlyClears(items[RowIndex(items, mac)].entries, edits);
      var once := EditRows(items, mac, edits).items;
      if SecondRow(items, mac).Some? {
        UnchangedIffSatisfied(once, mac, edits);
      }
    } else {
      KeptRowEditsOnce(items, mac, edits);
    }
  }

  /** Over a list that has a row, an edit changes nothing exactly when that row satisfies it. */
  lemma {:induction false} UnchangedIffSatisfied(items: seq<Node>, mac: Mac, edits: seq<LeafEdit>)
    requires Proper(edits) && RowIndex(items, mac) < |items|
    ensures EditRows(items, mac, edits) == RowsEdit(items, false)
            <==> Satisfies(items[RowIndex(items, mac)].entries, edits)
  {
    var entries := items[RowIndex(items, mac)].entries;
    if Satisfies(entries, edits) {
      SatisfiedRowStays(entries, edits);
    } else {
      EditedRowSatisfies(entries, edits);
      UnchangedRow(entries, edits);
    }
  }

  lemma {:induction false} KeptRowEditsOnce(items: seq<Node>, mac: Mac, edits: seq<LeafEdit>)
    requires Canonical(mac) && Proper(edits) && !Drops(items, mac, edits)
    ensures var once := EditRows(items, mac, edits).items;
            EditRows(once, mac, edits) == RowsEdit(once, false)
  {
    var k := RowIndex(items, mac);
    var once := EditRows(items, mac, edits).items;
    EditRowsShape(items, mac, edits);
    if k < |items| {
      EditedRowSatisfies(items[k].entries, edits);
      UnchangedIffSatisfied(once, mac, edits);
    } else if !OnlyClears(edits) {
      EditedRowSatisfies(NewRow(mac), edits);
      UnchangedIffSatisfied(once, mac, edits);
    }
  }

  /** And so for a row edit. */
  lemma {:induction false} RowEditOverwritesIff(
      doc: Node, path: Path, mac: Mac, edits: seq<LeafEdit>, known: set<string>)
    requires ApplyObjectRow(doc, path, mac, edits, known).Ok?
    requires ApplyObjectRow(doc, path, mac, edits, known).value.changed
    ensures Keeps(doc, ApplyObjectRow(doc, path, mac, edits, known).value.doc, path) <==> !Blocked(doc, path)
  {
    WritingKeepsIff(doc, path, EditRows(ListItems(doc, path), mac, edits).items);
  }

  lemma {:induction false} OneRowReadsBack(items: seq<Node>, mac: Mac, edits: seq<LeafEdit>, leaf: string)
    requires Canonical(mac) && Proper(edits) && OneRow(items, mac) && leaf != "mac"
    ensures ReadsBack(items, mac, edits, leaf)
  {
    ReadBackIff(items, mac, edits);
  }

  lemma {:induction false} OneRowEditsOnce(items: seq<Node>, mac: Mac, edits: seq<LeafEdit>)
    requires Canonical(mac) && Proper(edits) && OneRow(items, mac)
    ensures EditRows(EditRows(items, mac, edits).items, mac, edits) == RowsEdit(EditRows(items, mac, edits).items, false)
  {
    EditTwiceIff(items, mac, edits);
  }

  /** The document after a row edit holds the edited list, and nothing else has moved. */
  lemma {:induction false} DocHoldsRows(
      doc: Node, path: Path, mac: Mac, edits: seq<LeafEdit>, known: set<string>, other: Path)
    requires ApplyObjectRow(doc, path, mac, edits, known).Ok?
    ensures var e := ApplyObjectRow(doc, path, mac, edits, known).value;
            && ListItems(e.doc, path) == EditRows(ListItems(doc, path), mac, edits).items
            && ApplyObjectRow(e.doc, path, mac, edits, known).Ok?
            && (!e.changed ==> e.doc == doc)
            && (Diverge(path, other) ==> NodeAt(e.doc, other) == NodeAt(doc, other))
  {
    var rows := EditRows(ListItems(doc, path), mac, edits);
    if rows.changed {
      ReadBack(doc, path, List(rows.items));
      if Diverge(path, other) { OtherPathsStay(doc, path, List(rows.items), other); }
    } else {
      UnchangedRows(ListItems(doc, path), mac, edits);
    }
  }

  /** The row lens on the document: reading after applying gives what was asked, applying again
      changes nothing, every other MAC's row keeps its value and order, and every diverging
      path keeps its node. */
  lemma {:induction false} ObjectRowLens(
      doc: Node, path: Path, mac: Mac, edits: seq<LeafEdit>, known: set<string>, leaf: string, other: Path)
    requires Canonical(mac) && Proper(edits) && OneRow(ListItems(doc, path), mac) && leaf != "mac"
    requires ApplyObjectRow(doc, path, mac, edits, known).Ok?
    ensures var e := ApplyObjectRow(doc, path, mac, edits, known).value;
            var was, now := ListItems(doc, path), ListItems(e.doc, path);
            && ReadLeaf(now, mac, leaf) == Asked(edits, leaf, ReadLeaf(was, mac, leaf))
            && ApplyObjectRow(e.doc, path, mac, edits, known) == Ok(Edited(e.doc, false))
            && OtherRows(now, mac) == OtherRows(was, mac)
            && (!e.changed ==> e.doc == doc)
            && (Diverge(path, other) ==> NodeAt(e.doc, other) == NodeAt(doc, other))
  {
    var was := ListItems(doc, path);
    var after := ApplyObjectRow(doc, path, mac, edits, known).value.doc;
    DocHoldsRows(doc, path, mac, edits, known, other);
    OneRowReadsBack(was, mac, edits, leaf);
    OneRowEditsOnce(was, mac, edits);
    EditRowsShape(was, mac, edits);
  }

  /** Two rows for one MAC break the law: clearing the first row's last leaf removes that row,
      and the second one, never edited, is what the card then reads. */
  lemma {:induction false} DuplicateRowsBreakReadback(mac: Mac, v: Node)
    requires Canonical(mac)
    ensures var row := Map(NewRow(mac) + [Entry("name", v)]);
            var clear := [LeafEdit("name", Clear)];
            ReadLeaf(EditRows([row, row], mac, clear).items, mac, "name") == Some(v)
  {
    var entries := NewRow(mac) + [Entry("name", v)];
    var row := Map(entries);
    var clear := [LeafEdit("name", Clear)];
    assert entries[1..] == [Entry("name", v)] && entries[1..][1..] == [];
    assert Get(entries, "name") == Some(v);
    assert IsRowOf(row, mac);
    assert clear[..0] == [];
    assert Delete([Entry("name", v)], "name") == [];
    assert Delete(entries, "name") == [entries[0]] + Delete(entries[1..], "name");
    assert Delete(entries, "name") == NewRow(mac);
    assert EditRow(entries, clear) == RowEdit(NewRow(mac), true, true);
    assert [row, row][..0] + [row, row][1..] == [row];
    RowIndexIs([row, row], mac, 0);
    RowIndexIs([row], mac, 0);
  }
}
