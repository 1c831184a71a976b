/**
 * Laws of the walker over all trees and all configurations: every filter is
 * a gate applied to the unfiltered walk (so it only removes items and never
 * reorders them, and never stops recursion), the depth limit removes exactly
 * the items deeper than the limit, a limit of 0 acts as 1, errors are never
 * filtered out, and a non-directory root yields one item, named after the
 * file its path resolves to.
 */
module WalkerLaws {
  import opened Results
  import opened Glob
  import opened FileTree
  import opened Listing
  import opened RootResolver
  import opened Walker
  import opened WalkerOrder

  /** A condition on items that a configuration imposes. */
  datatype Gate =
    | PatternGate(patterns: seq<string>)
    | TypeGate(types: set<FileType>)
    | DepthGate(maxRecurseDepth: int)
    | NotRootGate

  predicate Admits(g: Gate, item: FileItem)
  {
    match g
    case PatternGate(patterns) => item.error.Some? || PatternsAdmit(patterns, item.relPath)
    case TypeGate(types) => item.error.Some? || TypesAdmit(types, item.fileType)
    case DepthGate(m) => m < 0 || RelDepth(item.relPath) <= DepthBound(m)
    case NotRootGate => item.relPath != "."
  }

  /** Whether `a` is `b` with some elements left out, the rest in their order. */
  predicate IsSubsequence(a: seq<FileItem>, b: seq<FileItem>)
    decreases |b|
  {
    if a == [] then true
    else if b == [] then false
    else (a[0] == b[0] && IsSubsequence(a[1..], b[1..])) || IsSubsequence(a, b[1..])
  }

  /** The items `g` admits, in their order. */
  function Keep(g: Gate, items: seq<FileItem>): (kept: seq<FileItem>)
    ensures IsSubsequence(kept, items)
  {
    if items == [] then []
    else
      var rest := Keep(g, items[1..]);
      if Admits(g, items[0]) then
        assert ([items[0]] + rest)[1..] == rest;
        [items[0]] + rest
      else rest
  }

  /** `Keep` keeps exactly the admitted items. */
  lemma {:induction false} KeepMembers(g: Gate, items: seq<FileItem>)
    ensures forall item :: item in Keep(g, items) <==> item in items && Admits(g, item)
    decreases |items|
  {
    if items != [] {
      KeepMembers(g, items[1..]);
      assert items == [items[0]] + items[1..];
    }
  }

  lemma {:induction false} SubsequenceReflexive(a: seq<FileItem>)
    ensures IsSubsequence(a, a)
    decreases |a|
  {
    if a != [] {
      SubsequenceReflexive(a[1..]);
    }
  }

  lemma {:induction false} SubsequenceTransitive(a: seq<FileItem>, b: seq<FileItem>, c: seq<FileItem>)
    requires IsSubsequence(a, b) && IsSubsequence(b, c)
    ensures IsSubsequence(a, c)
    decreases |c|
  {
    if a != [] {
      if IsSubsequence(b, c[1..]) {
        SubsequenceTransitive(a, b, c[1..]);
      } else if a[0] == b[0] && IsSubsequence(a[1..], b[1..]) {
        SubsequenceTransitive(a[1..], b[1..], c[1..]);
      } else {
        SubsequenceTransitive(a, b[1..], c[1..]);
      }
    }
  }

  lemma {:induction false} KeepAppend(g: Gate, a: seq<FileItem>, b: seq<FileItem>)
    ensures Keep(g, a + b) == Keep(g, a) + Keep(g, b)
    decreases |a|
  {
    if a == [] {
      assert a + b == b;
    } else {
      assert (a + b)[1..] == a[1..] + b;
      KeepAppend(g, a[1..], b);
    }
  }

  lemma {:induction false} KeepAll(g: Gate, items: seq<FileItem>)
    requires forall item | item in items :: Admits(g, item)
    ensures Keep(g, items) == items
    decreases |items|
  {
    if items != [] {
      KeepAll(g, items[1..]);
    }
  }

  lemma {:induction false} KeepNone(g: Gate, items: seq<FileItem>)
    requires forall item | item in items :: !Admits(g, item)
    ensures Keep(g, items) == []
    decreases |items|
  {
    if items != [] {
      KeepNone(g, items[1..]);
    }
  }

  /**
   * `o` differs from `o'` only by the gate `g`: by inclusion patterns or by a
   * type filter that `o'` leaves empty, or not at all (the gate of no depth
   * limit); both enter the same directories.
   */
  predicate Refines(o: Options, o': Options, g: Gate)
  {
    o.maxRecurseDepth == o'.maxRecurseDepth &&
    match g
    case PatternGate(patterns) => o.fnmatchPatterns == patterns && o'.fnmatchPatterns == [] && o.fileTypes == o'.fileTypes
    case TypeGate(types) => o.fileTypes == types && o'.fileTypes == {} && o.fnmatchPatterns == o'.fnmatchPatterns
    case DepthGate(m) => m < 0 && o.fnmatchPatterns == o'.fnmatchPatterns && o.fileTypes == o'.fileTypes
    case NotRootGate => false
  }

  /** What a node's visit emits depends on the patterns and types only, not on the depth limit. */
  lemma VisitIgnoresDepth(relPath: string, node: Node, o: Options, o': Options)
    requires o.fnmatchPatterns == o'.fnmatchPatterns && o.fileTypes == o'.fileTypes
    ensures Visit(relPath, node, o) == Visit(relPath, node, o')
  {
    assert Admitted(ItemFor(relPath, node), o) == Admitted(ItemFor(relPath, node), o');
  }

  /** `o` lets an item through exactly when `o'` does and `g` admits it. */
  lemma AdmittedRefines(item: FileItem, o: Options, o': Options, g: Gate)
    requires Refines(o, o', g)
    ensures Admitted(item, o) == (Admitted(item, o') && Admits(g, item))
  {
  }

  lemma VisitRefines(relPath: string, node: Node, o: Options, o': Options, g: Gate)
    requires Refines(o, o', g)
    ensures Visit(relPath, node, o) == Keep(g, Visit(relPath, node, o'))
  {
    AdmittedRefines(ItemFor(relPath, node), o, o', g);
  }

  lemma {:induction false} GateLawNode(relPath: string, node: Node, depth: nat, o: Options, o': Options, g: Gate)
    requires Refines(o, o', g)
    ensures WalkNode(relPath, node, depth, o) == Keep(g, WalkNode(relPath, node, depth, o'))
    decreases node, 2
  {
    var enter := node.Directory? && MayDescend(o.maxRecurseDepth, depth);
    var below := if enter then WalkChildren(relPath, node, depth + 1, o) else [];
    var below' := if enter then WalkChildren(relPath, node, depth + 1, o') else [];
    if enter {
      GateLawChildren(relPath, node, depth + 1, o, o', g);
    } else {
      KeepNone(g, []);
    }
    VisitThenBelow(relPath, node, o, o', g, below, below');
    assert WalkNode(relPath, node, depth, o) == Visit(relPath, node, o) + below;
    assert WalkNode(relPath, node, depth, o') == Visit(relPath, node, o') + below';
  }

  /** A node's own item, followed by what lies below it, passes the gate piece by piece. */
  lemma VisitThenBelow(relPath: string, node: Node, o: Options, o': Options, g: Gate, below: seq<FileItem>, below': seq<FileItem>)
    requires Refines(o, o', g) && below == Keep(g, below')
    ensures Visit(relPath, node, o) + below == Keep(g, Visit(relPath, node, o') + below')
  {
    VisitRefines(relPath, node, o, o', g);
    KeepAppend(g, Visit(relPath, node, o'), below');
  }

  lemma {:induction false} GateLawChildren(relPath: string, dir: Node, depth: nat, o: Options, o': Options, g: Gate)
    requires dir.Directory?
    requires Refines(o, o', g)
    ensures WalkChildren(relPath, dir, depth, o) == Keep(g, WalkChildren(relPath, dir, depth, o'))
    decreases dir, 1
  {
    SortKeepsEntries(dir.entries);
    GateLawEntries(dir, SortByName(dir.entries), relPath, depth, o, o', g);
  }

  lemma {:induction false} GateLawEntries(dir: Node, entries: seq<DirEntry>, parent: string, depth: nat, o: Options, o': Options, g: Gate)
    requires dir.Directory? && forall e | e in entries :: e in dir.entries
    requires Refines(o, o', g)
    ensures WalkEntries(dir, entries, parent, depth, o) == Keep(g, WalkEntries(dir, entries, parent, depth, o'))
    decreases dir, 0, |entries|
  {
    if entries != [] {
      assert entries[0] in dir.entries;
      var path := ChildPath(parent, entries[0].name);
      GateLawNode(path, entries[0].node, depth, o, o', g);
      GateLawEntries(dir, entries[1..], parent, depth, o, o', g);
      KeepAppend(g, WalkNode(path, entries[0].node, depth, o'), WalkEntries(dir, entries[1..], parent, depth, o'));
    }
  }

  lemma GateLawRoot(root: Node, baseName: string, o: Options, o': Options, g: Gate)
    requires Refines(o, o', g) && o.skipRoot == o'.skipRoot
    ensures WalkRoot(root, baseName, o) == Keep(g, WalkRoot(root, baseName, o'))
  {
    match root
    case Directory(entries) =>
      var top := if o.skipRoot then [] else Visit(".", root, o');
      VisitRefines(".", root, o, o', g);
      GateLawChildren(".", root, 1, o, o', g);
      KeepAppend(g, top, WalkChildren(".", root, 1, o'));
    case _ =>
      VisitRefines(baseName, root, o, o', g);
  }

  /**
   * Inclusion patterns are an allow-list on the whole relative path applied to
   * the walk without patterns: they only drop items, and unmatched directories
   * are still entered, so matching descendants are still found.
   */
  lemma PatternFilterLaw(root: Node, baseName: string, o: Options)
    ensures WalkRoot(root, baseName, o) ==
      Keep(PatternGate(o.fnmatchPatterns), WalkRoot(root, baseName, o.(fnmatchPatterns := [])))
  {
    GateLawRoot(root, baseName, o, o.(fnmatchPatterns := []), PatternGate(o.fnmatchPatterns));
  }

  /** The type filter drops the items of other types from the walk without it, and never stops recursion. */
  lemma TypeFilterLaw(root: Node, baseName: string, o: Options)
    ensures WalkRoot(root, baseName, o) ==
      Keep(TypeGate(o.fileTypes), WalkRoot(root, baseName, o.(fileTypes := {})))
  {
    GateLawRoot(root, baseName, o, o.(fileTypes := {}), TypeGate(o.fileTypes));
  }

  lemma ChildPathDepth(parent: string, name: string)
    requires ValidName(name)
    ensures RelDepth(ChildPath(parent, name)) == RelDepth(parent) + 1
  {
    NoSlashCountsZero(name);
    if parent != "." {
      SlashCountAppend(parent, "/" + name);
      SlashCountAppend("/", name);
      assert parent + "/" + name == parent + ("/" + name);
      assert |parent + "/" + name| >= 2;
    }
  }

  /** Everything a subtree emits lies at least as deep as the subtree's own root. */
  lemma {:induction false} DeepItemsNode(relPath: string, node: Node, depth: nat, o: Options)
    requires ValidTree(node) && RelDepth(relPath) == depth
    ensures forall item | item in WalkNode(relPath, node, depth, o) :: RelDepth(item.relPath) >= depth
    decreases node, 2
  {
    var below := if node.Directory? && MayDescend(o.maxRecurseDepth, depth) then WalkChildren(relPath, node, depth + 1, o) else [];
    if node.Directory? && MayDescend(o.maxRecurseDepth, depth) {
      DeepItemsChildren(relPath, node, depth + 1, o);
    }
    DeepVisitThenBelow(relPath, node, depth, o, below);
    assert WalkNode(relPath, node, depth, o) == Visit(relPath, node, o) + below;
  }

  lemma DeepVisitThenBelow(relPath: string, node: Node, depth: nat, o: Options, below: seq<FileItem>)
    requires RelDepth(relPath) == depth && forall item | item in below :: RelDepth(item.relPath) >= depth
    ensures forall item | item in Visit(relPath, node, o) + below :: RelDepth(item.relPath) >= depth
  {
  }

  lemma {:induction false} DeepItemsChildren(relPath: string, dir: Node, depth: nat, o: Options)
    requires dir.Directory? && ValidTree(dir) && RelDepth(relPath) + 1 == depth
    ensures forall item | item in WalkChildren(relPath, dir, depth, o) :: RelDepth(item.relPath) >= depth
    decreases dir, 1
  {
    SortKeepsEntries(dir.entries);
    DeepItemsEntries(dir, SortByName(dir.entries), relPath, depth, o);
  }

  lemma {:induction false} DeepItemsEntries(dir: Node, entries: seq<DirEntry>, parent: string, depth: nat, o: Options)
    requires dir.Directory? && forall e | e in entries :: e in dir.entries
    requires ValidTree(dir) && RelDepth(parent) + 1 == depth
    ensures forall item | item in WalkEntries(dir, entries, parent, depth, o) :: RelDepth(item.relPath) >= depth
    decreases dir, 0, |entries|
  {
    if entries != [] {
      assert entries[0] in dir.entries;
      EntryOf(dir, entries[0]);
      ChildPathDepth(parent, entries[0].name);
      DeepItemsNode(ChildPath(parent, entries[0].name), entries[0].node, depth, o);
      DeepItemsEntries(dir, entries[1..], parent, depth, o);
    }
  }

  lemma {:induction false} DepthLawNode(relPath: string, node: Node, depth: nat, o: Options)
    requires ValidTree(node) && RelDepth(relPath) == depth
    requires o.maxRecurseDepth < 0 || depth <= DepthBound(o.maxRecurseDepth)
    ensures WalkNode(relPath, node, depth, o) ==
      Keep(DepthGate(o.maxRecurseDepth), WalkNode(relPath, node, depth, o.(maxRecurseDepth := -1)))
    decreases node, 2
  {
    var g, unlimited := DepthGate(o.maxRecurseDepth), o.(maxRecurseDepth := -1);
    var top := Visit(relPath, node, o);
    assert top == Visit(relPath, node, unlimited);
    KeepAll(g, top);
    if node.Directory? {
      var below := WalkChildren(relPath, node, depth + 1, unlimited);
      assert WalkNode(relPath, node, depth, unlimited) == top + below;
      KeepAppend(g, top, below);
      if MayDescend(o.maxRecurseDepth, depth) {
        DepthLawChildren(relPath, node, depth + 1, o);
      } else {
        DepthLawClosed(relPath, node, depth, o);
      }
    } else {
      KeepAppend(g, top, []);
    }
  }

  /** A directory the limit does not let the walk enter loses everything below it. */
  lemma DepthLawClosed(relPath: string, dir: Node, depth: nat, o: Options)
    requires dir.Directory? && ValidTree(dir) && RelDepth(relPath) == depth
    requires o.maxRecurseDepth >= 0 && !MayDescend(o.maxRecurseDepth, depth)
    ensures Keep(DepthGate(o.maxRecurseDepth), WalkChildren(relPath, dir, depth + 1, o.(maxRecurseDepth := -1))) == []
  {
    var below := WalkChildren(relPath, dir, depth + 1, o.(maxRecurseDepth := -1));
    DeepItemsChildren(relPath, dir, depth + 1, o.(maxRecurseDepth := -1));
    KeepNone(DepthGate(o.maxRecurseDepth), below);
  }

  lemma {:induction false} DepthLawChildren(relPath: string, dir: Node, depth: nat, o: Options)
    requires dir.Directory? && ValidTree(dir) && RelDepth(relPath) + 1 == depth
    requires o.maxRecurseDepth < 0 || depth <= DepthBound(o.maxRecurseDepth)
    ensures WalkChildren(relPath, dir, depth, o) ==
      Keep(DepthGate(o.maxRecurseDepth), WalkChildren(relPath, dir, depth, o.(maxRecurseDepth := -1)))
    decreases dir, 1
  {
    SortKeepsEntries(dir.entries);
    DepthLawEntries(dir, SortByName(dir.entries), relPath, depth, o);
  }

  lemma {:induction false} DepthLawEntries(dir: Node, entries: seq<DirEntry>, parent: string, depth: nat, o: Options)
    requires dir.Directory? && forall e | e in entries :: e in dir.entries
    requires ValidTree(dir) && RelDepth(parent) + 1 == depth
    requires o.maxRecurseDepth < 0 || depth <= DepthBound(o.maxRecurseDepth)
    ensures WalkEntries(dir, entries, parent, depth, o) ==
      Keep(DepthGate(o.maxRecurseDepth), WalkEntries(dir, entries, parent, depth, o.(maxRecurseDepth := -1)))
    decreases dir, 0, |entries|
  {
    if entries != [] {
      var unlimited := o.(maxRecurseDepth := -1);
      assert entries[0] in dir.entries;
      EntryOf(dir, entries[0]);
      var path := ChildPath(parent, entries[0].name);
      ChildPathDepth(parent, entries[0].name);
      DepthLawNode(path, entries[0].node, depth, o);
      DepthLawEntries(dir, entries[1..], parent, depth, o);
      KeepAppend(DepthGate(o.maxRecurseDepth), WalkNode(path, entries[0].node, depth, unlimited),
        WalkEntries(dir, entries[1..], parent, depth, unlimited));
    }
  }

  /**
   * The depth limit removes exactly the items deeper than the limit (a limit
   * of 0 counting as 1) from the unlimited walk: directories at the limit are
   * reported but not entered, and nothing shallower is lost.
   */
  lemma DepthLaw(root: Node, baseName: string, o: Options)
    requires ValidTree(root) && '/' !in baseName
    ensures WalkRoot(root, baseName, o) ==
      Keep(DepthGate(o.maxRecurseDepth), WalkRoot(root, baseName, o.(maxRecurseDepth := -1)))
  {
    var g, unlimited := DepthGate(o.maxRecurseDepth), o.(maxRecurseDepth := -1);
    match root
    case Directory(entries) =>
      var top := if o.skipRoot then [] else Visit(".", root, o);
      assert top == (if unlimited.skipRoot then [] else Visit(".", root, unlimited));
      KeepAll(g, top);
      DepthLawChildren(".", root, 1, o);
      KeepAppend(g, top, WalkChildren(".", root, 1, unlimited));
    case _ =>
      NoSlashCountsZero(baseName);
      KeepAll(g, Visit(baseName, root, unlimited));
  }

  /** With a depth limit, every emitted item lies at most that deep (0 counting as 1). */
  lemma EmittedDepthIsBounded(root: Node, baseName: string, o: Options)
    requires ValidTree(root) && '/' !in baseName && o.maxRecurseDepth >= 0
    ensures forall item | item in WalkRoot(root, baseName, o) ::
      RelDepth(item.relPath) <= if o.maxRecurseDepth == 0 then 1 else o.maxRecurseDepth
  {
    DepthLaw(root, baseName, o);
    KeepMembers(DepthGate(o.maxRecurseDepth), WalkRoot(root, baseName, o.(maxRecurseDepth := -1)));
  }

  lemma {:induction false} DepthZeroActsAsOneNode(relPath: string, node: Node, depth: nat, o: Options)
    ensures WalkNode(relPath, node, depth, o.(maxRecurseDepth := 0)) == WalkNode(relPath, node, depth, o.(maxRecurseDepth := 1))
    decreases node, 2
  {
    var o0, o1 := o.(maxRecurseDepth := 0), o.(maxRecurseDepth := 1);
    var below := if node.Directory? && MayDescend(1, depth) then WalkChildren(relPath, node, depth + 1, o0) else [];
    var below' := if node.Directory? && MayDescend(1, depth) then WalkChildren(relPath, node, depth + 1, o1) else [];
    if node.Directory? && MayDescend(1, depth) {
      SortKeepsEntries(node.entries);
      DepthZeroActsAsOneEntries(node, SortByName(node.entries), relPath, depth + 1, o);
    }
    VisitIgnoresDepth(relPath, node, o0, o1);
    assert WalkNode(relPath, node, depth, o0) == Visit(relPath, node, o0) + below;
    assert WalkNode(relPath, node, depth, o1) == Visit(relPath, node, o1) + below';
  }

  lemma {:induction false} DepthZeroActsAsOneEntries(dir: Node, entries: seq<DirEntry>, parent: string, depth: nat, o: Options)
    requires dir.Directory? && forall e | e in entries :: e in dir.entries
    ensures WalkEntries(dir, entries, parent, depth, o.(maxRecurseDepth := 0)) ==
      WalkEntries(dir, entries, parent, depth, o.(maxRecurseDepth := 1))
    decreases dir, 0, |entries|
  {
    if entries != [] {
      assert entries[0] in dir.entries;
      DepthZeroActsAsOneNode(ChildPath(parent, entries[0].name), entries[0].node, depth, o);
      DepthZeroActsAsOneEntries(dir, entries[1..], parent, depth, o);
    }
  }

  /** A maximum recursion depth of 0 gives the same walk as a maximum of 1, on every tree. */
  lemma DepthZeroActsAsOne(root: Node, baseName: string, o: Options)
    ensures WalkRoot(root, baseName, o.(maxRecurseDepth := 0)) == WalkRoot(root, baseName, o.(maxRecurseDepth := 1))
  {
    if root.Directory? {
      SortKeepsEntries(root.entries);
      DepthZeroActsAsOneEntries(root, SortByName(root.entries), ".", 1, o);
    }
  }

  /** Skipping a directory root drops exactly the item `.` from the walk that includes it. */
  lemma SkipRootLaw(root: Node, baseName: string, o: Options)
    requires ValidTree(root) && root.Directory?
    ensures WalkRoot(root, baseName, o.(skipRoot := true)) ==
      Keep(NotRootGate, WalkRoot(root, baseName, o.(skipRoot := false)))
  {
    var skip, keep := o.(skipRoot := true), o.(skipRoot := false);
    var below := WalkChildren(".", root, 1, keep);
    ChildrenIgnoreSkipRoot(root, o);
    ChildrenAreNotRoot(root, keep);
    KeepAll(NotRootGate, below);
    KeepNone(NotRootGate, Visit(".", root, keep));
    KeepAppend(NotRootGate, Visit(".", root, keep), below);
  }

  lemma ChildrenIgnoreSkipRoot(root: Node, o: Options)
    requires root.Directory?
    ensures WalkChildren(".", root, 1, o.(skipRoot := true)) == WalkChildren(".", root, 1, o.(skipRoot := false))
  {
    var below := WalkChildren(".", root, 1, o.(skipRoot := false));
    GateLawChildren(".", root, 1, o.(skipRoot := true), o.(skipRoot := false), DepthGate(-1));
    KeepAll(DepthGate(-1), below);
  }

  /** No item below a directory root is the root itself. */
  lemma ChildrenAreNotRoot(root: Node, o: Options)
    requires ValidTree(root) && root.Directory?
    ensures forall item | item in WalkChildren(".", root, 1, o) :: item.relPath != "."
  {
    DeepItemsChildren(".", root, 1, o);
  }

  /**
   * Every filtered walk is an order-preserving subsequence of the walk with
   * the root included and no filter or limit: the options only remove items.
   */
  lemma FiltersOnlyRemove(fs: Node, rootPath: string, options: seq<WalkerOption>)
    requires ValidTree(fs)
    ensures Walk(fs, rootPath, options).Ok? <==> Walk(fs, rootPath, []).Ok?
    ensures Walk(fs, rootPath, options).Ok? ==>
      IsSubsequence(Walk(fs, rootPath, options).value, Walk(fs, rootPath, []).value)
  {
    var resolved := ResolveRoot(fs, rootPath);
    if resolved.Ok? {
      var root, base := resolved.value.node, LastName(resolved.value.path);
      ResolveKeepsValidity(fs, [], fs, Segments(rootPath), MaxSymlinkHops);
      ResolvedPathLeadsToNode(fs, [], fs, Segments(rootPath), MaxSymlinkHops);
      NamesOnPathAreValid(fs, resolved.value.path);
      var o0 := BuildOptions(options);
      var o1 := o0.(fnmatchPatterns := []);
      var o2 := o1.(fileTypes := {});
      var o3 := o2.(maxRecurseDepth := -1);
      assert BuildOptions([]) == DefaultOptions == o3.(skipRoot := false);
      PatternFilterLaw(root, base, o0);
      TypeFilterLaw(root, base, o1);
      DepthLaw(root, base, o2);
      var w0, w1, w2, w3 := WalkRoot(root, base, o0), WalkRoot(root, base, o1), WalkRoot(root, base, o2), WalkRoot(root, base, o3);
      var full := WalkRoot(root, base, DefaultOptions);
      SubsequenceTransitive(w0, w1, w2);
      SubsequenceTransitive(w0, w2, w3);
      if root.Directory? && o3.skipRoot {
        SkipRootLaw(root, base, o3);
        assert o3.(skipRoot := true) == o3;
        SubsequenceTransitive(w0, w3, full);
      } else {
        assert w3 == full;
      }
    }
  }

  /**
   * An item carrying an error is never removed by the pattern or type filter:
   * every error the walk meets without those filters is still reported with them.
   */
  lemma ErrorsAreNeverFilteredOut(root: Node, baseName: string, o: Options, item: FileItem)
    requires item in WalkRoot(root, baseName, o.(fnmatchPatterns := [], fileTypes := {}))
    requires item.error.Some?
    ensures item in WalkRoot(root, baseName, o)
  {
    var o1 := o.(fnmatchPatterns := []);
    PatternFilterLaw(root, baseName, o);
    TypeFilterLaw(root, baseName, o1);
    assert o1.(fileTypes := {}) == o.(fnmatchPatterns := [], fileTypes := {});
    KeepMembers(TypeGate(o1.fileTypes), WalkRoot(root, baseName, o1.(fileTypes := {})));
    KeepMembers(PatternGate(o.fnmatchPatterns), WalkRoot(root, baseName, o1));
  }

  /**
   * A root that resolves to anything but a directory yields at most one item,
   * whatever skip-root and the depth say, and without pattern or type filters
   * exactly that item. It is named by the last name of the path the node was
   * found at, which leads to that node through directories; when the root
   * path meets no link and no `..`, that is the root path's own base name.
   */
  lemma NonDirectoryRootYieldsOneItem(fs: Node, rootPath: string, options: seq<WalkerOption>)
    requires ResolveRoot(fs, rootPath).Ok? && !ResolveRoot(fs, rootPath).value.node.Directory?
    ensures Walk(fs, rootPath, options).Ok?
    ensures |Walk(fs, rootPath, options).value| <= 1
    ensures var root := ResolveRoot(fs, rootPath).value;
      forall item | item in Walk(fs, rootPath, options).value :: item.relPath == LastName(root.path)
    ensures var root := ResolveRoot(fs, rootPath).value;
      BuildOptions(options).fnmatchPatterns == [] && BuildOptions(options).fileTypes == {} ==>
      Walk(fs, rootPath, options).value == [ItemFor(LastName(root.path), root.node)]
    ensures var root := ResolveRoot(fs, rootPath).value;
      NodeAt(fs, root.path) == Some(root.node)
    ensures var root := ResolveRoot(fs, rootPath).value;
      ".." !in Segments(rootPath) && NoLinkOnPath(fs, Segments(rootPath)) ==> LastName(root.path) == BaseName(rootPath)
  {
    var root := ResolveRoot(fs, rootPath).value;
    NonDirectoryWalk(root.node, LastName(root.path), BuildOptions(options));
    ResolvedPathLeadsToNode(fs, [], fs, Segments(rootPath), MaxSymlinkHops);
    if ".." !in Segments(rootPath) && NoLinkOnPath(fs, Segments(rootPath)) {
      ResolveIsLookup(fs, [], fs, Segments(rootPath), MaxSymlinkHops);
      assert [] + Segments(rootPath) == Segments(rootPath);
    }
  }

  /** The walk of a node that is not a directory is its one item, or nothing when filtered. */
  lemma NonDirectoryWalk(root: Node, baseName: string, o: Options)
    requires !root.Directory?
    ensures |WalkRoot(root, baseName, o)| <= 1
    ensures forall item | item in WalkRoot(root, baseName, o) :: item.relPath == baseName
    ensures o.fnmatchPatterns == [] && o.fileTypes == {} ==> WalkRoot(root, baseName, o) == [ItemFor(baseName, root)]
  {
  }

  /**
   * A root path ending at a link to a file, whose target is reached through
   * directories only, yields a single item named after the file, not after
   * the link.
   */
  lemma LinkRootIsNamedByItsTarget(fs: Node, names: seq<string>, name: string, target: string,
                                   linkPath: string, options: seq<WalkerOption>)
    requires HoldsLink(fs, names, name, target) && Segments(linkPath) == names + [name] && !SpelledAsDirectory(linkPath)
    requires var t := TargetSegments(names, target);
      ".." !in t && NoLinkOnPath(fs, t) && NodeAt(fs, t).Some? &&
      (NodeAt(fs, t).value.RegularFile? || NodeAt(fs, t).value.Special?)
    ensures Walk(fs, linkPath, options).Ok?
    ensures var t := TargetSegments(names, target);
      forall item | item in Walk(fs, linkPath, options).value :: item.relPath == LastName(t)
    ensures var t := TargetSegments(names, target);
      BuildOptions(options).fnmatchPatterns == [] && BuildOptions(options).fileTypes == {} ==>
      Walk(fs, linkPath, options).value == [ItemFor(LastName(t), NodeAt(fs, t).value)]
  {
    var t := TargetSegments(names, target);
    LinkStep(fs, names, name, target);
    ResolveIsLookup(fs, [], fs, t, MaxSymlinkHops - 1);
    assert [] + t == t;
    if !IsAbsolute(target) {
      ResolveThroughDirectories(fs, [], fs, names, Segments(target), MaxSymlinkHops - 1);
      assert [] + names == names;
    }
    assert linkPath != "";
    assert ResolveRoot(fs, linkPath) == Ok(Located(t, NodeAt(fs, t).value));
    NonDirectoryRootYieldsOneItem(fs, linkPath, options);
  }

  /**
   * A root path that ends at a symbolic link, and resolves, is walked exactly
   * as the path of the link's target: read from the link's directory when the
   * target is relative and from the filesystem root when it is absolute. The
   * target's path must name something and, when spelled as a directory, the
   * link must lead to one.
   */
  lemma RootLinkWalksItsTarget(fs: Node, names: seq<string>, name: string, target: string,
                               linkPath: string, targetPath: string, options: seq<WalkerOption>)
    requires HoldsLink(fs, names, name, target)
    requires Segments(linkPath) == names + [name] && Segments(targetPath) == TargetSegments(names, target)
    requires ResolveRoot(fs, linkPath).Ok? && targetPath != ""
    requires ResolveRoot(fs, linkPath).value.node.Directory? || !SpelledAsDirectory(targetPath)
    ensures Walk(fs, linkPath, options) == Walk(fs, targetPath, options)
  {
    LinkResolvesAsItsTarget(fs, names, name, target, linkPath, targetPath);
  }

  /** A symbolic link is not followed: its walk is its own item, when admitted. */
  lemma LinkIsNotFollowed(relPath: string, target: string, depth: nat, o: Options)
    ensures var link := FileItem(relPath, Some(SymlinkFileType), target, None);
      WalkNode(relPath, Symlink(target), depth, o) == if Admitted(link, o) then [link] else []
  {
    assert WalkNode(relPath, Symlink(target), depth, o) == Visit(relPath, Symlink(target), o) + [];
  }

  /**
   * Among the subtrees of `entries`, only the symbolic link entry `name`
   * reaches its own path or below, and it contributes just its own item.
   */
  lemma {:induction false} LinkEntryAmongEntries(dir: Node, entries: seq<DirEntry>, names: seq<string>, name: string,
                                                 target: string, depth: nat, o: Options)
    requires dir.Directory? && ValidTree(dir) && forall e | e in entries :: e in dir.entries
    requires DirEntry(name, Symlink(target)) in dir.entries
    requires ValidNames(names) && ValidNames(names + [name])
    ensures var items := WalkEntries(dir, entries, PathOf(names), depth, o);
      var link := FileItem(PathOf(names + [name]), Some(SymlinkFileType), target, None);
      (link in items <==> DirEntry(name, Symlink(target)) in entries && Admitted(link, o)) &&
      forall k :: 0 <= k < |items| && Extends(items[k].relPath, names + [name]) ==> items[k] == link
    decreases |entries|
  {
    if entries != [] {
      var e := entries[0];
      var link := FileItem(PathOf(names + [name]), Some(SymlinkFileType), target, None);
      assert e in dir.entries;
      var items := WalkEntries(dir, entries, PathOf(names), depth, o);
      var head := WalkNode(ChildPath(PathOf(names), e.name), e.node, depth, o);
      var rest := WalkEntries(dir, entries[1..], PathOf(names), depth, o);
      assert items == head + rest;
      LinkHead(dir, e, names, name, target, depth, o);
      LinkEntryAmongEntries(dir, entries[1..], names, name, target, depth, o);
      JoinAroundLink(entries, DirEntry(name, Symlink(target)), Admitted(link, o), items, head, rest, link, names + [name]);
    }
  }

  /** The subtree of one entry holds the link's item only if it is the link entry, and nothing else at or below the link's path. */
  lemma LinkHead(dir: Node, e: DirEntry, names: seq<string>, name: string, target: string, depth: nat, o: Options)
    requires dir.Directory? && ValidTree(dir) && e in dir.entries && DirEntry(name, Symlink(target)) in dir.entries
    requires ValidNames(names) && ValidNames(names + [name])
    ensures var head := WalkNode(ChildPath(PathOf(names), e.name), e.node, depth, o);
      var link := FileItem(PathOf(names + [name]), Some(SymlinkFileType), target, None);
      (link in head <==> e == DirEntry(name, Symlink(target)) && Admitted(link, o)) &&
      forall k :: 0 <= k < |head| && Extends(head[k].relPath, names + [name]) ==> head[k] == link
  {
    var link := FileItem(PathOf(names + [name]), Some(SymlinkFileType), target, None);
    EntryOf(dir, e);
    ChildPathOf(names, e.name);
    if e.name == name {
      SameNameSameEntry(dir, e, DirEntry(name, Symlink(target)));
      LinkIsNotFollowed(PathOf(names + [name]), target, depth, o);
    } else {
      OrderNode(names + [e.name], e.node, depth, o);
      OtherSubtreeMissesLink(WalkNode(PathOf(names + [e.name]), e.node, depth, o), link, names, e.name, name);
    }
  }

  /** The subtree of a sibling named otherwise never reaches the link's path or below it. */
  lemma OtherSubtreeMissesLink(head: seq<FileItem>, link: FileItem, names: seq<string>, other: string, name: string)
    requires other != name && Segments(link.relPath) == names + [name]
    requires forall k :: 0 <= k < |head| ==> Extends(head[k].relPath, names + [other])
    ensures link !in head
    ensures forall k :: 0 <= k < |head| ==> !Extends(head[k].relPath, names + [name])
  {
    forall k | 0 <= k < |head| ensures !Extends(head[k].relPath, names + [name]) {
      ExtendsChild(head[k].relPath, names, other);
      if Extends(head[k].relPath, names + [name]) {
        ExtendsChild(head[k].relPath, names, name);
      }
    }
    assert Extends(link.relPath, names + [name]);
  }

  /** The items of a run of entries hold the link's item as its first entry's subtree and the others' do. */
  lemma JoinAroundLink(entries: seq<DirEntry>, linkEntry: DirEntry, admitted: bool,
                       items: seq<FileItem>, head: seq<FileItem>, rest: seq<FileItem>, link: FileItem, names: seq<string>)
    requires entries != [] && items == head + rest
    requires link in head <==> entries[0] == linkEntry && admitted
    requires link in rest <==> linkEntry in entries[1..] && admitted
    requires forall k :: 0 <= k < |head| && Extends(head[k].relPath, names) ==> head[k] == link
    requires forall k :: 0 <= k < |rest| && Extends(rest[k].relPath, names) ==> rest[k] == link
    ensures link in items <==> linkEntry in entries && admitted
    ensures forall k :: 0 <= k < |items| && Extends(items[k].relPath, names) ==> items[k] == link
  {
    assert linkEntry in entries <==> entries[0] == linkEntry || linkEntry in entries[1..] by {
      assert entries == [entries[0]] + entries[1..];
    }
    forall k | 0 <= k < |items| && Extends(items[k].relPath, names) ensures items[k] == link {
      if k < |head| {
        assert items[k] == head[k];
      } else {
        assert items[k] == rest[k - |head|];
      }
    }
  }

  /**
   * A symbolic link inside an entered directory is reported, never followed:
   * the walk holds its item, at the link's own path and carrying the target
   * as written, exactly when the filters admit it; no other item has that
   * path and none lies below it.
   */
  lemma SymlinkEntryYieldsOneItem(names: seq<string>, dir: Node, name: string, target: string, depth: nat, o: Options)
    requires dir.Directory? && ValidTree(dir) && Child(dir.entries, name) == Some(Symlink(target))
    requires ValidNames(names) && ValidNames(names + [name])
    ensures var items := WalkChildren(PathOf(names), dir, depth, o);
      var link := FileItem(PathOf(names + [name]), Some(SymlinkFileType), target, None);
      (link in items <==> Admitted(link, o)) &&
      (forall item | item in items && item.relPath == link.relPath :: item == link) &&
      (forall item | item in items :: !Below(item.relPath, link.relPath))
  {
    var link := FileItem(PathOf(names + [name]), Some(SymlinkFileType), target, None);
    var i :| 0 <= i < |dir.entries| && dir.entries[i] == DirEntry(name, Symlink(target));
    SortKeepsEntries(dir.entries);
    LinkEntryAmongEntries(dir, SortByName(dir.entries), names, name, target, depth, o);
    OnlyItemAtOrBelow(WalkChildren(PathOf(names), dir, depth, o), link, names + [name]);
  }

  /** When the only item at or below `names` is `item`, no other item shares its path and none lies below it. */
  lemma OnlyItemAtOrBelow(items: seq<FileItem>, item: FileItem, names: seq<string>)
    requires Segments(item.relPath) == names
    requires forall k :: 0 <= k < |items| && Extends(items[k].relPath, names) ==> items[k] == item
    ensures forall other | other in items && other.relPath == item.relPath :: other == item
    ensures forall other | other in items :: !Below(other.relPath, item.relPath)
  {
    forall other | other in items ensures other.relPath == item.relPath || Below(other.relPath, item.relPath) ==> other == item {
      var k :| 0 <= k < |items| && items[k] == other;
      assert other.relPath == item.relPath || Below(other.relPath, item.relPath) ==> Extends(items[k].relPath, names);
    }
  }

  /** An item is well formed: a link text exactly on symlinks, a missing type exactly with an error. */
  predicate WellFormedItem(item: FileItem)
  {
    (item.link != "" <==> item.fileType == Some(SymlinkFileType)) &&
    (item.error.Some? <==> item.fileType.None?)
  }

  lemma ItemForWellFormed(relPath: string, node: Node)
    requires ValidTree(node)
    ensures WellFormedItem(ItemFor(relPath, node))
    ensures Readable(node) ==> ItemFor(relPath, node).error.None?
  {
  }

  /** Every item is well formed and, when `clean` holds, none carries an error. */
  predicate WellFormedItems(items: seq<FileItem>, clean: bool)
  {
    forall item | item in items :: WellFormedItem(item) && (clean ==> item.error.None?)
  }

  lemma WellFormedItemsAppend(a: seq<FileItem>, b: seq<FileItem>, clean: bool)
    requires WellFormedItems(a, clean) && WellFormedItems(b, clean)
    ensures WellFormedItems(a + b, clean)
  {
  }

  lemma VisitWellFormed(relPath: string, node: Node, o: Options)
    requires ValidTree(node)
    ensures WellFormedItems(Visit(relPath, node, o), Readable(node))
  {
    ItemForWellFormed(relPath, node);
  }

  lemma {:induction false} ItemsWellFormedNode(relPath: string, node: Node, depth: nat, o: Options)
    requires ValidTree(node)
    ensures WellFormedItems(WalkNode(relPath, node, depth, o), Readable(node))
    decreases node, 2
  {
    var below := if node.Directory? && MayDescend(o.maxRecurseDepth, depth) then WalkChildren(relPath, node, depth + 1, o) else [];
    if node.Directory? && MayDescend(o.maxRecurseDepth, depth) {
      ItemsWellFormedChildren(relPath, node, depth + 1, o);
    }
    WellFormedVisitThenBelow(relPath, node, o, below);
    assert WalkNode(relPath, node, depth, o) == Visit(relPath, node, o) + below;
  }

  lemma WellFormedVisitThenBelow(relPath: string, node: Node, o: Options, below: seq<FileItem>)
    requires ValidTree(node) && WellFormedItems(below, Readable(node))
    ensures WellFormedItems(Visit(relPath, node, o) + below, Readable(node))
  {
    VisitWellFormed(relPath, node, o);
    WellFormedItemsAppend(Visit(relPath, node, o), below, Readable(node));
  }

  lemma {:induction false} ItemsWellFormedChildren(relPath: string, dir: Node, depth: nat, o: Options)
    requires dir.Directory? && ValidTree(dir)
    ensures WellFormedItems(WalkChildren(relPath, dir, depth, o), Readable(dir))
    decreases dir, 1
  {
    SortKeepsEntries(dir.entries);
    ItemsWellFormedEntries(dir, SortByName(dir.entries), relPath, depth, o);
  }

  lemma {:induction false} ItemsWellFormedEntries(dir: Node, entries: seq<DirEntry>, parent: string, depth: nat, o: Options)
    requires dir.Directory? && forall e | e in entries :: e in dir.entries
    requires ValidTree(dir)
    ensures WellFormedItems(WalkEntries(dir, entries, parent, depth, o), Readable(dir))
    decreases dir, 0, |entries|
  {
    if entries != [] {
      var clean := Readable(dir);
      var e := entries[0];
      assert e in dir.entries;
      EntryOf(dir, e);
      var here := WalkNode(ChildPath(parent, e.name), e.node, depth, o);
      var rest := WalkEntries(dir, entries[1..], parent, depth, o);
      assert WalkEntries(dir, entries, parent, depth, o) == here + rest;
      ItemsWellFormedNode(ChildPath(parent, e.name), e.node, depth, o);
      assert WellFormedItems(here, clean);
      ItemsWellFormedEntries(dir, entries[1..], parent, depth, o);
      WellFormedItemsAppend(here, rest, clean);
    }
  }

  /**
   * In a well-formed tree every item carries a link text exactly when it is a
   * symlink (and then no error), and a tree whose
   * metadata is all readable yields no item with an error.
   */
  lemma ItemsWellFormed(root: Node, baseName: string, o: Options)
    requires ValidTree(root)
    ensures WellFormedItems(WalkRoot(root, baseName, o), Readable(root))
  {
    ItemForWellFormed(baseName, root);
    ItemForWellFormed(".", root);
    if root.Directory? {
      var top := if o.skipRoot then [] else Visit(".", root, o);
      assert WellFormedItems(top, Readable(root));
      ItemsWellFormedChildren(".", root, 1, o);
      WellFormedItemsAppend(top, WalkChildren(".", root, 1, o), Readable(root));
    }
  }

  lemma {:induction false} EntriesIgnoreTheirDirectory(d1: Node, d2: Node, entries: seq<DirEntry>, parent: string, depth: nat, o: Options)
    requires d1.Directory? && forall e | e in entries :: e in d1.entries
    requires d2.Directory? && forall e | e in entries :: e in d2.entries
    ensures WalkEntries(d1, entries, parent, depth, o) == WalkEntries(d2, entries, parent, depth, o)
    decreases |entries|
  {
    if entries != [] {
      EntriesIgnoreTheirDirectory(d1, d2, entries[1..], parent, depth, o);
    }
  }

  /**
   * The order a directory happens to be listed in makes no difference to the
   * walk: two listings with the same entries (and distinct names) give the
   * same items.
   */
  lemma ListingOrderIsIrrelevant(a: seq<DirEntry>, b: seq<DirEntry>, baseName: string, o: Options)
    requires multiset(a) == multiset(b) && UniqueNames(a)
    ensures WalkRoot(Directory(a), baseName, o) == WalkRoot(Directory(b), baseName, o)
  {
    SiblingsAscendWhateverTheListingOrder(a, b);
    SortKeepsEntries(a);
    SortKeepsEntries(b);
    EntriesIgnoreTheirDirectory(Directory(a), Directory(b), SortByName(a), ".", 1, o);
    assert Visit(".", Directory(a), o) == Visit(".", Directory(b), o);
  }
}
