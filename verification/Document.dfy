/** A configuration document as a tree of ordered mappings, lists and scalars, with the walk
    that reads a path and the one that creates it. */
module Document {
  import opened Config

  datatype Atom = Str(s: string) | Int(i: int) | Bool(b: bool) | Null

  datatype Node = Scalar(atom: Atom) | List(items: seq<Node>) | Map(entries: Entries)

  datatype Entry = Entry(key: string, value: Node)

  type Entries = seq<Entry>

  type Path = seq<string>

  // ---- ordered mappings ----

  function Get(m: Entries, key: string): Option<Node> {
    if m == [] then None
    else if m[0].key == key then Some(m[0].value)
    else Get(m[1..], key)
  }

  /** Replaces in place, or appends. */
  function Put(m: Entries, key: string, value: Node): Entries {
    if m == [] then [Entry(key, value)]
    else if m[0].key == key then [Entry(key, value)] + m[1..]
    else [m[0]] + Put(m[1..], key, value)
  }

  function Delete(m: Entries, key: string): Entries {
    if m == [] then []
    else if m[0].key == key then Delete(m[1..], key)
    else [m[0]] + Delete(m[1..], key)
  }

  lemma {:induction false} GetPut(m: Entries, key: string, value: Node, other: string)
    ensures Get(Put(m, key, value), other) == if other == key then Some(value) else Get(m, other)
  {
    if m != [] && m[0].key != key {
      GetPut(m[1..], key, value, other);
      assert Put(m, key, value)[1..] == Put(m[1..], key, value);
    } else if m != [] {
      assert Put(m, key, value)[1..] == m[1..];
    }
  }

  lemma {:induction false} PutSame(m: Entries, key: string, value: Node)
    requires Get(m, key) == Some(value)
    ensures Put(m, key, value) == m
  {
    if m[0].key != key {
      PutSame(m[1..], key, value);
    }
  }

  lemma {:induction false} GetDelete(m: Entries, key: string, other: string)
    ensures Get(Delete(m, key), other) == if other == key then None else Get(m, other)
  {
    if m != [] {
      GetDelete(m[1..], key, other);
      if m[0].key != key {
        assert Delete(m, key)[1..] == Delete(m[1..], key);
      }
    }
  }

  lemma {:induction false} DeleteAbsent(m: Entries, key: string)
    requires Get(m, key).None?
    ensures Delete(m, key) == m
  {
    if m != [] {
      DeleteAbsent(m[1..], key);
    }
  }

  // ---- paths ----

  function Children(n: Node): Entries {
    if n.Map? then n.entries else []
  }

  /** None when any step is missing or not a mapping. */
  function NodeAt(n: Node, path: Path): Option<Node>
    decreases path
  {
    if path == [] then Some(n)
    else match Get(Children(n), path[0])
      case None => None
      case Some(child) => NodeAt(child, path[1..])
  }

  /** What the editor sees: a null is indistinguishable from a missing node. */
  function Existing(doc: Node, path: Path): Option<Node> {
    match NodeAt(doc, path)
    case Some(n) => if n == Scalar(Null) then None else Some(n)
    case None => None
  }

  /** Creates empty blocks along the way; a step that is not a mapping is replaced by one. */
  function SetAt(n: Node, path: Path, value: Node): Node
    decreases path
  {
    if path == [] then value
    else
      var child := match Get(Children(n), path[0]) case Some(c) => c case None => Map([]);
      Map(Put(Children(n), path[0], SetAt(child, path[1..], value)))
  }

  lemma {:induction false} ReadBack(n: Node, path: Path, value: Node)
    ensures NodeAt(SetAt(n, path, value), path) == Some(value)
    decreases path
  {
    if path != [] {
      var child := match Get(Children(n), path[0]) case Some(c) => c case None => Map([]);
      ReadBack(child, path[1..], value);
      GetPut(Children(n), path[0], SetAt(child, path[1..], value), path[0]);
    }
  }

  /** Neither path runs through the other. */
  predicate Diverge(p: Path, q: Path) {
    p != [] && q != [] && (p[0] != q[0] || Diverge(p[1..], q[1..]))
  }

  lemma {:induction false} OtherPathsStay(n: Node, path: Path, value: Node, other: Path)
    requires Diverge(path, other)
    ensures NodeAt(SetAt(n, path, value), other) == NodeAt(n, other)
    decreases path
  {
    var child := match Get(Children(n), path[0]) case Some(c) => c case None => Map([]);
    GetPut(Children(n), path[0], SetAt(child, path[1..], value), other[0]);
    if path[0] == other[0] {
      OtherPathsStay(child, path[1..], value, other[1..]);
      if Get(Children(n), path[0]).None? {
        assert NodeAt(Map([]), other[1..]).None?;
      }
    }
  }

  /** Writing back what is already there changes nothing. */
  lemma {:induction false} SetSame(n: Node, path: Path)
    requires NodeAt(n, path).Some?
    ensures SetAt(n, path, NodeAt(n, path).value) == n
    decreases path
  {
    if path != [] {
      var child := Get(Children(n), path[0]).value;
      SetSame(child, path[1..]);
      PutSame(Children(n), path[0], child);
    }
  }

  // ---- what creating a path overwrites ----

  /** Something other than a mapping stands on the way to the path, or a null at its end. */
  predicate Blocked(n: Node, path: Path)
    decreases path
  {
    if path == [] then n == Scalar(Null)
    else if !n.Map? then true
    else match Get(n.entries, path[0])
      case None => false
      case Some(child) => Blocked(child, path[1..])
  }

  /** Every scalar and list of the document is where it was, except that the list at the path
      may have been edited. */
  ghost predicate Keeps(before: Node, after: Node, path: Path) {
    forall q :: NodeKept(before, after, path, q)
  }

  ghost predicate NodeKept(before: Node, after: Node, path: Path, q: Path) {
    NodeAt(before, q).Some? && !NodeAt(before, q).value.Map? ==>
      NodeAt(after, q) == NodeAt(before, q) || (q == path && NodeAt(before, q).value.List?)
  }

  lemma {:induction false} UnblockedKeeps(n: Node, path: Path, value: Node, q: Path)
    requires !Blocked(n, path) && (NodeAt(n, path).Some? ==> NodeAt(n, path).value.List?)
    ensures NodeKept(n, SetAt(n, path, value), path, q)
    decreases path
  {
    if path != [] && q != [] {
      var child := match Get(Children(n), path[0]) case Some(c) => c case None => Map([]);
      GetPut(Children(n), path[0], SetAt(child, path[1..], value), q[0]);
      if q[0] == path[0] && Get(n.entries, path[0]).Some? {
        UnblockedKeeps(child, path[1..], value, q[1..]);
        assert q[1..] == path[1..] ==> q == path by {
          assert q == [q[0]] + q[1..] && path == [path[0]] + path[1..];
        }
      }
    }
  }

  /** Where the obstacle stands. */
  lemma {:induction false} BlockedAt(n: Node, path: Path, items: seq<Node>) returns (q: Path)
    requires Blocked(n, path)
    ensures !NodeKept(n, SetAt(n, path, List(items)), path, q)
    decreases path
  {
    if path == [] || !n.Map? {
      q := [];
    } else {
      var child := Get(n.entries, path[0]).value;
      var rest := BlockedAt(child, path[1..], items);
      q := [path[0]] + rest;
      assert q[1..] == rest && [path[0]] + path[1..] == path;
      GetPut(n.entries, path[0], SetAt(child, path[1..], List(items)), path[0]);
    }
  }

  /** Writing a list at a path where there is none or another list overwrites something if and
      only if the path is blocked. */
  lemma {:induction false} WritingKeepsIff(n: Node, path: Path, items: seq<Node>)
    requires NodeAt(n, path).Some? ==> NodeAt(n, path).value.List? || NodeAt(n, path).value == Scalar(Null)
    ensures Keeps(n, SetAt(n, path, List(items)), path) <==> !Blocked(n, path)
  {
    if Blocked(n, path) {
      var q := BlockedAt(n, path, items);
    } else {
      UnblockedEnd(n, path);
      forall q ensures NodeKept(n, SetAt(n, path, List(items)), path, q) {
        UnblockedKeeps(n, path, List(items), q);
      }
    }
  }

  lemma {:induction false} UnblockedEnd(n: Node, path: Path)
    requires !Blocked(n, path)
    ensures NodeAt(n, path) != Some(Scalar(Null))
    decreases path
  {
    if path != [] && Get(Children(n), path[0]).Some? {
      UnblockedEnd(Get(Children(n), path[0]).value, path[1..]);
    }
  }
}
