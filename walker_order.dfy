/**
 * The order of a walk: reading each item's relative path as its sequence of
 * names, the items of a walk over a well-formed tree come in strictly
 * increasing lexicographic order of those sequences. That one fact is the
 * pre-order with sorted siblings: no path is reported twice, a directory
 * comes before everything below it, and siblings come in ascending name order.
 */
module WalkerOrder {
  import opened Results
  import opened FileTree
  import opened Listing
  import opened RootResolver
  import opened Walker

  predicate ValidNames(names: seq<string>)
  {
    forall k :: 0 <= k < |names| ==> ValidName(names[k])
  }

  /** The relative path of the node reached from the root through `names`; the root itself is `.`. */
  function PathOf(names: seq<string>): (path: string)
    requires ValidNames(names)
    ensures Segments(path) == names
  {
    if names == [] then
      assert Segments(".") == [] by {
        IndexOfSlashIsFirst(".", 1);
        SegmentsStep(".", 1);
        assert "."[..1] == ".";
      }
      "."
    else
      SegmentsOfJoin(names);
      JoinPath(names)
  }

  lemma {:induction false} JoinPathSnoc(names: seq<string>, name: string)
    requires names != []
    ensures JoinPath(names + [name]) == JoinPath(names) + "/" + name
    decreases |names|
  {
    var longer := names + [name];
    if |names| == 1 {
      assert longer[1..] == [name];
    } else {
      assert longer[0] == names[0] && longer[1..] == names[1..] + [name];
      JoinPathSnoc(names[1..], name);
    }
  }

  /** The child `name` of the node at `names` lies at `names + [name]`. */
  lemma ChildPathOf(names: seq<string>, name: string)
    requires ValidNames(names) && ValidName(name)
    ensures ValidNames(names + [name])
    ensures ChildPath(PathOf(names), name) == PathOf(names + [name])
  {
    assert ValidNames(names + [name]) by {
      forall k | 0 <= k < |names + [name]| ensures ValidName((names + [name])[k]) {
        if k < |names| {
          assert (names + [name])[k] == names[k];
        }
      }
    }
    if names == [] {
      assert [] + [name] == [name];
    } else {
      assert PathOf(names) != "." by {
        if |names| == 1 {
          assert PathOf(names) == names[0];
        } else {
          assert PathOf(names)[|names[0]|] == '/';
        }
      }
      JoinPathSnoc(names, name);
    }
  }

  /** The path `p` lies at or below the node reached through `names`. */
  predicate Extends(p: string, names: seq<string>)
  {
    |names| <= |Segments(p)| && Segments(p)[..|names|] == names
  }

  /** The path `p` lies strictly below the path `q`. */
  predicate Below(p: string, q: string)
  {
    |Segments(q)| < |Segments(p)| && Segments(p)[..|Segments(q)|] == Segments(q)
  }

  /** The paths `p` and `q` name two entries of the same directory. */
  predicate SameParent(p: string, q: string)
  {
    var a, b := Segments(p), Segments(q);
    |a| == |b| > 0 && a[..|a| - 1] == b[..|b| - 1]
  }

  /** Lexicographic order on name sequences, strict: a proper prefix comes first; otherwise the first differing name decides. */
  predicate SegmentsBefore(a: seq<string>, b: seq<string>)
    decreases |a|
  {
    if a == [] then b != []
    else b != [] && ((NameLe(a[0], b[0]) && a[0] != b[0]) || (a[0] == b[0] && SegmentsBefore(a[1..], b[1..])))
  }

  /** Each item's path comes before every later item's path in that order. */
  predicate InWalkOrder(items: seq<FileItem>)
  {
    forall i, j :: 0 <= i < j < |items| ==> SegmentsBefore(Segments(items[i].relPath), Segments(items[j].relPath))
  }

  lemma {:induction false} SegmentsBeforeIrreflexive(a: seq<string>)
    ensures !SegmentsBefore(a, a)
    decreases |a|
  {
    if a != [] {
      SegmentsBeforeIrreflexive(a[1..]);
    }
  }

  /** Nothing comes before one of its own ancestors. */
  lemma {:induction false} DescendantNotBefore(a: seq<string>, b: seq<string>)
    requires |b| < |a| && a[..|b|] == b
    ensures !SegmentsBefore(a, b)
    decreases |b|
  {
    if b != [] {
      assert a[0] == b[0];
      assert a[1..][..|b| - 1] == b[1..];
      DescendantNotBefore(a[1..], b[1..]);
    }
  }

  lemma {:induction false} AncestorBefore(a: seq<string>, b: seq<string>)
    requires |a| < |b| && b[..|a|] == a
    ensures SegmentsBefore(a, b)
    decreases |a|
  {
    if a != [] {
      assert b[0] == a[0];
      assert b[1..][..|a| - 1] == a[1..];
      AncestorBefore(a[1..], b[1..]);
    }
  }

  /** Of two paths with the same parent, the one that comes first has the smaller last name. */
  lemma {:induction false} BeforeSameParent(a: seq<string>, b: seq<string>)
    requires SegmentsBefore(a, b) && |a| == |b| > 0 && a[..|a| - 1] == b[..|b| - 1]
    ensures NameLe(a[|a| - 1], b[|b| - 1]) && a[|a| - 1] != b[|b| - 1]
    decreases |a|
  {
    if |a| > 1 {
      assert a[0] == a[..|a| - 1][0] == b[0];
      assert a[1..][..|a| - 2] == a[..|a| - 1][1..] == b[..|b| - 1][1..] == b[1..][..|b| - 2];
      BeforeSameParent(a[1..], b[1..]);
    }
  }

  /** Two paths below the same node, which part at the next name, are ordered by that name. */
  lemma {:induction false} BeforeAtFirstDifference(names: seq<string>, a: seq<string>, b: seq<string>)
    requires |names| < |a| && |names| < |b| && a[..|names|] == names && b[..|names|] == names
    requires NameLe(a[|names|], b[|names|]) && a[|names|] != b[|names|]
    ensures SegmentsBefore(a, b)
    decreases |names|
  {
    if names != [] {
      assert a[0] == names[0] == b[0];
      assert a[1..][..|names| - 1] == names[1..] && b[1..][..|names| - 1] == names[1..];
      BeforeAtFirstDifference(names[1..], a[1..], b[1..]);
    }
  }

  lemma InWalkOrderAppend(a: seq<FileItem>, b: seq<FileItem>)
    requires InWalkOrder(a) && InWalkOrder(b)
    requires forall i, j :: 0 <= i < |a| && 0 <= j < |b| ==> SegmentsBefore(Segments(a[i].relPath), Segments(b[j].relPath))
    ensures InWalkOrder(a + b)
  {
    var c := a + b;
    forall i, j | 0 <= i < j < |c| ensures SegmentsBefore(Segments(c[i].relPath), Segments(c[j].relPath)) {
      if j < |a| {
        assert c[i] == a[i] && c[j] == a[j];
      } else if i < |a| {
        assert c[i] == a[i] && c[j] == b[j - |a|];
      } else {
        assert c[i] == b[i - |a|] && c[j] == b[j - |a|];
      }
    }
  }

  /** A path at or below `names + [name]` lies strictly below `names`, and `name` is its next name. */
  lemma ExtendsChild(p: string, names: seq<string>, name: string)
    requires Extends(p, names + [name])
    ensures Extends(p, names) && |names| < |Segments(p)| && Segments(p)[|names|] == name
  {
    var s := Segments(p);
    assert s[..|names|] == s[..|names| + 1][..|names|] == (names + [name])[..|names|] == names;
    assert s[|names|] == s[..|names| + 1][|names|] == (names + [name])[|names|];
  }

  /** The listing in walk order: strictly ascending names. */
  predicate StrictlyAscending(entries: seq<DirEntry>)
  {
    forall i, j :: 0 <= i < j < |entries| ==> NameLe(entries[i].name, entries[j].name) && entries[i].name != entries[j].name
  }

  lemma StrictlyAscendingTail(entries: seq<DirEntry>)
    requires entries != [] && StrictlyAscending(entries)
    ensures StrictlyAscending(entries[1..])
  {
    forall i, j | 0 <= i < j < |entries[1..]|
      ensures NameLe(entries[1..][i].name, entries[1..][j].name) && entries[1..][i].name != entries[1..][j].name
    {
      assert entries[1..][i] == entries[i + 1] && entries[1..][j] == entries[j + 1];
    }
  }

  lemma StrictlyAfter(name: string, next: string, n: string)
    requires NameLe(name, next) && name != next && NameLe(next, n)
    ensures NameLe(name, n) && name != n
  {
    NameLeTransitive(name, next, n);
    if name == n {
      NameLeAntisymmetric(name, next);
    }
  }

  /** The item of the node at `names`, if any, lies exactly at `names`. */
  lemma VisitAt(names: seq<string>, node: Node, o: Options)
    requires ValidNames(names)
    ensures var top := Visit(PathOf(names), node, o);
      InWalkOrder(top) && forall k :: 0 <= k < |top| ==> Segments(top[k].relPath) == names
  {
  }

  /** A node's own item followed by the items strictly below it is in walk order. */
  lemma ParentThenBelow(names: seq<string>, top: seq<FileItem>, below: seq<FileItem>)
    requires InWalkOrder(top) && forall k :: 0 <= k < |top| ==> Segments(top[k].relPath) == names
    requires InWalkOrder(below)
    requires forall k :: 0 <= k < |below| ==> Extends(below[k].relPath, names) && |names| < |Segments(below[k].relPath)|
    ensures InWalkOrder(top + below)
    ensures forall k :: 0 <= k < |top + below| ==> Extends((top + below)[k].relPath, names)
  {
    forall i, j | 0 <= i < |top| && 0 <= j < |below|
      ensures SegmentsBefore(Segments(top[i].relPath), Segments(below[j].relPath))
    {
      AncestorBefore(names, Segments(below[j].relPath));
    }
    InWalkOrderAppend(top, below);
    forall k | 0 <= k < |top + below| ensures Extends((top + below)[k].relPath, names) {
      if k < |top| {
        assert (top + below)[k] == top[k];
        assert Segments(top[k].relPath)[..|names|] == names;
      } else {
        assert (top + below)[k] == below[k - |top|];
      }
    }
  }

  /** The subtree of the first sibling `name`, followed by the later siblings' subtrees, is in walk order. */
  lemma SiblingThenLater(names: seq<string>, name: string, head: seq<FileItem>, rest: seq<FileItem>)
    requires InWalkOrder(head) && InWalkOrder(rest)
    requires forall k :: 0 <= k < |head| ==> Extends(head[k].relPath, names + [name])
    requires forall k :: 0 <= k < |rest| ==>
      Extends(rest[k].relPath, names) && |names| < |Segments(rest[k].relPath)| &&
      NameLe(name, Segments(rest[k].relPath)[|names|]) && name != Segments(rest[k].relPath)[|names|]
    ensures InWalkOrder(head + rest)
    ensures forall k :: 0 <= k < |head + rest| ==>
      Extends((head + rest)[k].relPath, names) && |names| < |Segments((head + rest)[k].relPath)| &&
      NameLe(name, Segments((head + rest)[k].relPath)[|names|])
  {
    NameLeReflexive(name);
    forall k | 0 <= k < |head|
      ensures Extends(head[k].relPath, names) && |names| < |Segments(head[k].relPath)|
      ensures Segments(head[k].relPath)[|names|] == name
    {
      ExtendsChild(head[k].relPath, names, name);
    }
    forall i, j | 0 <= i < |head| && 0 <= j < |rest|
      ensures SegmentsBefore(Segments(head[i].relPath), Segments(rest[j].relPath))
    {
      BeforeAtFirstDifference(names, Segments(head[i].relPath), Segments(rest[j].relPath));
    }
    InWalkOrderAppend(head, rest);
    forall k | 0 <= k < |head + rest|
      ensures Extends((head + rest)[k].relPath, names) && |names| < |Segments((head + rest)[k].relPath)|
      ensures NameLe(name, Segments((head + rest)[k].relPath)[|names|])
    {
      if k < |head| {
        assert (head + rest)[k] == head[k];
      } else {
        assert (head + rest)[k] == rest[k - |head|];
      }
    }
  }

  lemma {:induction false} OrderNode(names: seq<string>, node: Node, depth: nat, o: Options)
    requires ValidNames(names) && ValidTree(node)
    ensures var items := WalkNode(PathOf(names), node, depth, o);
      InWalkOrder(items) && forall k :: 0 <= k < |items| ==> Extends(items[k].relPath, names)
    decreases node, 2
  {
    var items := WalkNode(PathOf(names), node, depth, o);
    if node.Directory? && MayDescend(o.maxRecurseDepth, depth) {
      OrderChildren(names, node, depth + 1, o);
      OrderVisitThenBelow(names, node, o, items, WalkChildren(PathOf(names), node, depth + 1, o));
    } else {
      OrderVisitThenBelow(names, node, o, items, []);
    }
  }

  lemma OrderVisitThenBelow(names: seq<string>, node: Node, o: Options, items: seq<FileItem>, below: seq<FileItem>)
    requires ValidNames(names) && items == Visit(PathOf(names), node, o) + below && InWalkOrder(below)
    requires forall k :: 0 <= k < |below| ==> Extends(below[k].relPath, names) && |names| < |Segments(below[k].relPath)|
    ensures InWalkOrder(items) && forall k :: 0 <= k < |items| ==> Extends(items[k].relPath, names)
  {
    VisitAt(names, node, o);
    ParentThenBelow(names, Visit(PathOf(names), node, o), below);
  }

  lemma {:induction false} OrderChildren(names: seq<string>, dir: Node, depth: nat, o: Options)
    requires ValidNames(names) && ValidTree(dir) && dir.Directory?
    ensures var items := WalkChildren(PathOf(names), dir, depth, o);
      InWalkOrder(items) &&
      forall k :: 0 <= k < |items| ==> Extends(items[k].relPath, names) && |names| < |Segments(items[k].relPath)|
    decreases dir, 1
  {
    SortKeepsEntries(dir.entries);
    SiblingsAscendWhateverTheListingOrder(dir.entries, dir.entries);
    OrderEntries(dir, SortByName(dir.entries), names, depth, o);
  }

  lemma {:induction false} OrderEntries(dir: Node, entries: seq<DirEntry>, names: seq<string>, depth: nat, o: Options)
    requires dir.Directory? && ValidTree(dir) && forall e | e in entries :: e in dir.entries
    requires ValidNames(names) && StrictlyAscending(entries)
    ensures var items := WalkEntries(dir, entries, PathOf(names), depth, o);
      InWalkOrder(items) &&
      forall k :: 0 <= k < |items| ==>
        Extends(items[k].relPath, names) && |names| < |Segments(items[k].relPath)| &&
        NameLe(entries[0].name, Segments(items[k].relPath)[|names|])
    decreases dir, 0, |entries|
  {
    if entries != [] {
      var e := entries[0];
      assert e in dir.entries;
      EntryOf(dir, e);
      ChildPathOf(names, e.name);
      var head := WalkNode(PathOf(names + [e.name]), e.node, depth, o);
      var rest := WalkEntries(dir, entries[1..], PathOf(names), depth, o);
      assert WalkEntries(dir, entries, PathOf(names), depth, o) == head + rest;
      OrderNode(names + [e.name], e.node, depth, o);
      StrictlyAscendingTail(entries);
      OrderEntries(dir, entries[1..], names, depth, o);
      forall k | 0 <= k < |rest|
        ensures NameLe(e.name, Segments(rest[k].relPath)[|names|]) && e.name != Segments(rest[k].relPath)[|names|]
      {
        StrictlyAfter(e.name, entries[1].name, Segments(rest[k].relPath)[|names|]);
      }
      SiblingThenLater(names, e.name, head, rest);
    }
  }

  /** Items in walk order name pairwise distinct paths, put every item after the items above it, and put siblings in ascending name order. */
  lemma WalkOrderConsequences(items: seq<FileItem>)
    requires InWalkOrder(items)
    ensures forall i, j :: 0 <= i < j < |items| ==> items[i].relPath != items[j].relPath
    ensures forall i, j :: 0 <= i < |items| && 0 <= j < |items| && Below(items[j].relPath, items[i].relPath) ==> i < j
    ensures forall i, j :: 0 <= i < j < |items| && SameParent(items[i].relPath, items[j].relPath) ==>
      NameLe(BaseName(items[i].relPath), BaseName(items[j].relPath)) && BaseName(items[i].relPath) != BaseName(items[j].relPath)
  {
    forall i, j | 0 <= i < j < |items| ensures items[i].relPath != items[j].relPath {
      SegmentsBeforeIrreflexive(Segments(items[i].relPath));
    }
    forall i, j | 0 <= i < j < |items| && SameParent(items[i].relPath, items[j].relPath)
      ensures NameLe(BaseName(items[i].relPath), BaseName(items[j].relPath)) && BaseName(items[i].relPath) != BaseName(items[j].relPath)
    {
      BeforeSameParent(Segments(items[i].relPath), Segments(items[j].relPath));
    }
    forall i, j | 0 <= i < |items| && 0 <= j < |items| && Below(items[j].relPath, items[i].relPath) ensures i < j {
      if j < i {
        DescendantNotBefore(Segments(items[j].relPath), Segments(items[i].relPath));
      }
    }
  }

  /**
   * The walk of a well-formed tree is in pre-order with siblings by name: the
   * items come in strictly increasing order of their paths' names, so no two
   * items share a relative path, an item lying below another comes after it,
   * and entries of one directory come in ascending name order.
   */
  lemma WalkIsPreOrder(root: Node, baseName: string, o: Options)
    requires ValidTree(root)
    ensures InWalkOrder(WalkRoot(root, baseName, o))
    ensures var items := WalkRoot(root, baseName, o);
      forall i, j :: 0 <= i < j < |items| ==> items[i].relPath != items[j].relPath
    ensures var items := WalkRoot(root, baseName, o);
      forall i, j :: 0 <= i < |items| && 0 <= j < |items| && Below(items[j].relPath, items[i].relPath) ==> i < j
    ensures var items := WalkRoot(root, baseName, o);
      forall i, j :: 0 <= i < j < |items| && SameParent(items[i].relPath, items[j].relPath) ==>
        NameLe(BaseName(items[i].relPath), BaseName(items[j].relPath)) && BaseName(items[i].relPath) != BaseName(items[j].relPath)
  {
    var items := WalkRoot(root, baseName, o);
    if root.Directory? {
      var top := if o.skipRoot then [] else Visit(PathOf([]), root, o);
      VisitAt([], root, o);
      OrderChildren([], root, 1, o);
      ParentThenBelow([], top, WalkChildren(PathOf([]), root, 1, o));
      assert items == top + WalkChildren(PathOf([]), root, 1, o);
    }
    WalkOrderConsequences(items);
  }
}
