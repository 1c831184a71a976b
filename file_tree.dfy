/**
 * The in-memory filesystem the walker reads: every node is a regular file, a
 * directory with a listing of named children, a symbolic link holding its raw
 * target text, some other special file (device, pipe, socket), or a node whose
 * metadata cannot be read. A directory listing comes in no particular order;
 * the walker sorts it by name itself.
 */
module FileTree {
  import opened Results

  datatype Node =
    | RegularFile
    | Directory(entries: seq<DirEntry>)
    | Symlink(target: string)
    | Special
    | Unreadable(reason: string)

  datatype DirEntry = DirEntry(name: string, node: Node)

  /** A name a directory entry can carry: one non-empty segment other than `.` and `..`. */
  predicate ValidName(name: string)
  {
    name != "" && name != "." && name != ".." && '/' !in name
  }

  predicate UniqueNames(entries: seq<DirEntry>)
  {
    forall i, j :: 0 <= i < j < |entries| ==> entries[i].name != entries[j].name
  }

  /** What a real filesystem guarantees of a tree: well-formed, distinct names and non-empty link targets. */
  predicate ValidTree(node: Node)
  {
    match node
    case Directory(entries) =>
      UniqueNames(entries) &&
      forall i :: 0 <= i < |entries| ==> ValidName(entries[i].name) && ValidTree(entries[i].node)
    case Symlink(target) => target != ""
    case _ => true
  }

  /** No node of the tree has unreadable metadata. */
  predicate Readable(node: Node)
  {
    match node
    case Directory(entries) => forall i :: 0 <= i < |entries| ==> Readable(entries[i].node)
    case Unreadable(_) => false
    case _ => true
  }

  /** The child of a listing called `name`, if there is one. */
  function Child(entries: seq<DirEntry>, name: string): (child: Option<Node>)
    ensures child.Some? <==> exists i :: 0 <= i < |entries| && entries[i].name == name
    ensures child.Some? ==> exists i :: 0 <= i < |entries| && entries[i] == DirEntry(name, child.value)
  {
    if entries == [] then None
    else if entries[0].name == name then Some(entries[0].node)
    else
      var child := Child(entries[1..], name);
      assert forall i :: 1 <= i < |entries| ==> entries[i] == entries[1..][i - 1];
      child
  }

  lemma ValidTreeChild(entries: seq<DirEntry>, name: string)
    requires ValidTree(Directory(entries))
    requires Child(entries, name).Some?
    ensures ValidTree(Child(entries, name).value)
  {
    var i :| 0 <= i < |entries| && entries[i] == DirEntry(name, Child(entries, name).value);
    assert ValidTree(entries[i].node);
  }

  /** Lookup finds the first entry carrying the name. */
  lemma {:induction false} ChildFound(entries: seq<DirEntry>, k: nat)
    requires k < |entries| && forall j :: 0 <= j < k ==> entries[j].name != entries[k].name
    ensures Child(entries, entries[k].name) == Some(entries[k].node)
    decreases k
  {
    if k > 0 {
      ChildFound(entries[1..], k - 1);
    }
  }

  /** An entry of a well-formed (or readable) directory has a valid name and a well-formed (or readable) node. */
  lemma EntryOf(dir: Node, e: DirEntry)
    requires dir.Directory? && e in dir.entries
    ensures ValidTree(dir) ==> ValidName(e.name) && ValidTree(e.node)
    ensures Readable(dir) ==> Readable(e.node)
  {
    var i :| 0 <= i < |dir.entries| && dir.entries[i] == e;
  }

  /** In a directory with distinct names, an entry is determined by its name. */
  lemma SameNameSameEntry(dir: Node, e: DirEntry, e': DirEntry)
    requires ValidTree(dir) && dir.Directory? && e in dir.entries && e' in dir.entries && e.name == e'.name
    ensures e == e'
  {
    var i :| 0 <= i < |dir.entries| && dir.entries[i] == e;
    var j :| 0 <= j < |dir.entries| && dir.entries[j] == e';
    assert !(i < j) && !(j < i);
  }
}
