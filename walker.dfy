/**
 * The walker: a pre-order, depth-first traversal of the resolved root that
 * visits siblings in ascending name order and yields one `FileItem` per
 * visited node that passes the configured filters. The stream the original
 * produces on a channel is modelled as the finite sequence of items it
 * carries, in order.
 *
 * Three gates decide what is emitted: the inclusion patterns, the type filter
 * and (for the root only) skip-root. Only the depth limit decides which
 * directories are entered; a directory that is filtered out is still entered.
 * An item carrying an error passes the pattern and type gates, so a failure is
 * never dropped silently.
 */
module Walker {
  import opened Results
  import opened Glob
  import opened FileTree
  import opened Listing
  import opened RootResolver

  datatype FileType = RegularFileType | DirectoryFileType | SymlinkFileType | OtherFileType

  /** The walker's functional options, in the order the caller passes them. */
  datatype WalkerOption =
    | WithSkipRoot
    | WithMaxRecurseDepth(depth: int)
    | WithFnmatchPatterns(patterns: seq<string>)
    | WithFileTypes(types: set<FileType>)

  /** The configuration a walk runs with; a negative depth means no limit. */
  datatype Options = Options(
    skipRoot: bool,
    maxRecurseDepth: int,
    fnmatchPatterns: seq<string>,
    fileTypes: set<FileType>)

  /** Root included, no depth limit, no pattern and no type filter. */
  const DefaultOptions := Options(false, -1, [], {})

  function Apply(o: Options, option: WalkerOption): Options
  {
    match option
    case WithSkipRoot => o.(skipRoot := true)
    case WithMaxRecurseDepth(depth) => o.(maxRecurseDepth := depth)
    case WithFnmatchPatterns(patterns) => o.(fnmatchPatterns := patterns)
    case WithFileTypes(types) => o.(fileTypes := types)
  }

  /**
   * The configuration built from the options, applied left to right onto the
   * defaults: skip-root is on when asked for once; a setting no option
   * mentions keeps its default.
   */
  function BuildOptions(options: seq<WalkerOption>): (o: Options)
    ensures o.skipRoot <==> WithSkipRoot in options
    ensures (forall i :: 0 <= i < |options| ==> !options[i].WithMaxRecurseDepth?) ==> o.maxRecurseDepth == -1
    ensures (forall i :: 0 <= i < |options| ==> !options[i].WithFnmatchPatterns?) ==> o.fnmatchPatterns == []
    ensures (forall i :: 0 <= i < |options| ==> !options[i].WithFileTypes?) ==> o.fileTypes == {}
    decreases |options|
  {
    if options == [] then DefaultOptions
    else
      var init := options[..|options| - 1];
      assert forall i :: 0 <= i < |init| ==> init[i] == options[i];
      assert options == init + [options[|options| - 1]];
      Apply(BuildOptions(init), options[|options| - 1])
  }

  predicate SameKind(a: WalkerOption, b: WalkerOption)
  {
    (a.WithSkipRoot? && b.WithSkipRoot?) ||
    (a.WithMaxRecurseDepth? && b.WithMaxRecurseDepth?) ||
    (a.WithFnmatchPatterns? && b.WithFnmatchPatterns?) ||
    (a.WithFileTypes? && b.WithFileTypes?)
  }

  /** For each setting, the last option of its kind decides it. */
  lemma {:induction false} LastOptionOfItsKindWins(options: seq<WalkerOption>, i: nat)
    requires i < |options|
    requires forall j :: i < j < |options| ==> !SameKind(options[j], options[i])
    ensures options[i].WithMaxRecurseDepth? ==> BuildOptions(options).maxRecurseDepth == options[i].depth
    ensures options[i].WithFnmatchPatterns? ==> BuildOptions(options).fnmatchPatterns == options[i].patterns
    ensures options[i].WithFileTypes? ==> BuildOptions(options).fileTypes == options[i].types
    decreases |options|
  {
    var init := options[..|options| - 1];
    if i < |options| - 1 {
      assert options[i] == init[i];
      forall j | i < j < |init| ensures !SameKind(init[j], init[i]) {
        assert init[j] == options[j];
      }
      LastOptionOfItsKindWins(init, i);
      assert !SameKind(options[|options| - 1], options[i]);
    }
  }

  /**
   * One emitted entry: its path relative to the root, its type (absent when
   * the metadata could not be read), the raw target text of a symlink below
   * the root (empty otherwise) and the per-entry error, if any.
   */
  datatype FileItem = FileItem(
    relPath: string,
    fileType: Option<FileType>,
    link: string,
    error: Option<string>)

  /**
   * The item describing `node` at `relPath`: its type read from the node
   * itself (a link is not followed), a link's target reported as it is,
   * unresolved, and an error exactly when the metadata cannot be read.
   */
  function ItemFor(relPath: string, node: Node): (item: FileItem)
    ensures item.relPath == relPath
    ensures node.Symlink? ==> item.link == node.target && item.fileType == Some(SymlinkFileType)
    ensures !node.Symlink? ==> item.link == ""
    ensures item.fileType == Some(RegularFileType) <==> node.RegularFile?
    ensures item.fileType == Some(DirectoryFileType) <==> node.Directory?
    ensures item.fileType == Some(OtherFileType) <==> node.Special?
    ensures item.fileType.None? <==> node.Unreadable?
    ensures item.error.Some? <==> node.Unreadable?
  {
    match node
    case RegularFile => FileItem(relPath, Some(RegularFileType), "", None)
    case Directory(_) => FileItem(relPath, Some(DirectoryFileType), "", None)
    case Symlink(target) => FileItem(relPath, Some(SymlinkFileType), target, None)
    case Special => FileItem(relPath, Some(OtherFileType), "", None)
    case Unreadable(reason) => FileItem(relPath, None, "", Some(reason))
  }

  /** An empty pattern list lets everything through; otherwise one pattern must match the whole relative path. */
  predicate PatternsAdmit(patterns: seq<string>, relPath: string)
    ensures PatternsAdmit(patterns, relPath) <==>
      patterns == [] || exists i :: 0 <= i < |patterns| && Match(patterns[i], relPath)
  {
    patterns == [] || AnyMatch(patterns, relPath)
  }

  /** An empty type set lets everything through; otherwise the item's type must be in it. */
  predicate TypesAdmit(types: set<FileType>, fileType: Option<FileType>)
    ensures types == {} ==> TypesAdmit(types, fileType)
    ensures fileType.None? ==> (TypesAdmit(types, fileType) <==> types == {})
    ensures fileType.Some? && fileType.value in types ==> TypesAdmit(types, fileType)
  {
    types == {} || (fileType.Some? && fileType.value in types)
  }

  /** Whether the pattern and type gates let `item` through; errors always pass. */
  predicate Admitted(item: FileItem, o: Options)
    ensures item.error.Some? ==> Admitted(item, o)
    ensures o.fnmatchPatterns == [] && o.fileTypes == {} ==> Admitted(item, o)
  {
    item.error.Some? || (PatternsAdmit(o.fnmatchPatterns, item.relPath) && TypesAdmit(o.fileTypes, item.fileType))
  }

  /** What visiting `node` at `relPath` emits: its item, or nothing when a gate stops it. */
  function Visit(relPath: string, node: Node, o: Options): (items: seq<FileItem>)
    ensures items == [] || items == [ItemFor(relPath, node)]
    ensures node.Unreadable? ==> items == [ItemFor(relPath, node)]
    ensures o.fnmatchPatterns == [] && o.fileTypes == {} ==> items == [ItemFor(relPath, node)]
  {
    var item := ItemFor(relPath, node);
    if Admitted(item, o) then [item] else []
  }

  /**
   * The depth tracker: whether a directory at `depth` (the root is at 0) is
   * entered. A negative maximum is unlimited; the root is always entered;
   * otherwise the directory must be shallower than the maximum. So a maximum
   * of 0 acts as 1.
   */
  function MayDescend(maxRecurseDepth: int, depth: nat): (descend: bool)
    ensures descend <==> maxRecurseDepth < 0 || depth == 0 || depth < maxRecurseDepth
  {
    maxRecurseDepth < 0 || depth < DepthBound(maxRecurseDepth)
  }

  /** The deepest level a walk with the given non-negative maximum reports. */
  function DepthBound(maxRecurseDepth: int): nat
    requires maxRecurseDepth >= 0
  {
    if maxRecurseDepth == 0 then 1 else maxRecurseDepth
  }

  /** The relative path of child `name` of the directory at `parent` (the root is `.`). */
  function ChildPath(parent: string, name: string): string
  {
    if parent == "." then name else parent + "/" + name
  }

  /** How deep below the root a relative path lies: `.` is 0, `a` is 1, `a/b` is 2. */
  function RelDepth(relPath: string): nat
  {
    if relPath == "." then 0 else SlashCount(relPath) + 1
  }

  /** No item carries an error. */
  predicate ErrorFree(items: seq<FileItem>)
  {
    forall k :: 0 <= k < |items| ==> items[k].error.None?
  }

  /**
   * The items of the subtree `node` at `relPath`, which lies `depth` levels
   * below the root: the node's own item first, and no error from a subtree
   * whose metadata is all readable.
   */
  function WalkNode(relPath: string, node: Node, depth: nat, o: Options): (items: seq<FileItem>)
    ensures Visit(relPath, node, o) <= items
    ensures Readable(node) ==> ErrorFree(items)
    decreases node, 2
  {
    Visit(relPath, node, o) +
    if node.Directory? && MayDescend(o.maxRecurseDepth, depth) then WalkChildren(relPath, node, depth + 1, o)
    else []
  }

  /** The items below directory `dir` at `relPath`: its entries' subtrees, in ascending name order. */
  function WalkChildren(relPath: string, dir: Node, depth: nat, o: Options): (items: seq<FileItem>)
    requires dir.Directory?
    ensures Readable(dir) ==> ErrorFree(items)
    decreases dir, 1
  {
    SortKeepsEntries(dir.entries);
    WalkEntries(dir, SortByName(dir.entries), relPath, depth, o)
  }

  /** The items of the subtrees `entries` of directory `dir` at `parent`, in the order given. */
  function WalkEntries(ghost dir: Node, entries: seq<DirEntry>, parent: string, depth: nat, o: Options): (items: seq<FileItem>)
    requires dir.Directory? && forall e | e in entries :: e in dir.entries
    ensures (forall e | e in entries :: Readable(e.node)) ==> ErrorFree(items)
    decreases dir, 0, |entries|
  {
    if entries == [] then []
    else
      assert entries[0] in dir.entries;
      WalkNode(ChildPath(parent, entries[0].name), entries[0].node, depth, o) +
      WalkEntries(dir, entries[1..], parent, depth, o)
  }

  /**
   * The items of a walk from the resolved root. A directory root is `.`, is
   * subject to skip-root and is always entered; any other root yields only
   * its own item, named `baseName`, whatever skip-root and the depth say.
   */
  function WalkRoot(root: Node, baseName: string, o: Options): (items: seq<FileItem>)
    ensures root.Directory? && !o.skipRoot ==> Visit(".", root, o) <= items
    ensures !root.Directory? ==> items == Visit(baseName, root, o)
    ensures Readable(root) ==> ErrorFree(items)
  {
    match root
    case Directory(_) =>
      (if o.skipRoot then [] else Visit(".", root, o)) + WalkChildren(".", root, 1, o)
    case _ => Visit(baseName, root, o)
  }

  /**
   * Walks `rootPath` in the filesystem `fs` with the given options. A root
   * that cannot be resolved is an immediate error and no item is produced.
   * A root that is not a directory is named by the last name of the path it
   * was found at, so a link to a file is named after the file.
   */
  function Walk(fs: Node, rootPath: string, options: seq<WalkerOption>): (r: Result<seq<FileItem>, WalkError>)
    ensures r.Err? <==> ResolveRoot(fs, rootPath).Err?
    ensures r.Err? ==> r.error == ResolveRoot(fs, rootPath).error
  {
    match ResolveRoot(fs, rootPath)
    case Err(e) => Err(e)
    case Ok(root) => Ok(WalkRoot(root.node, LastName(root.path), BuildOptions(options)))
  }
}
