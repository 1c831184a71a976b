/**
 * Root resolution: turns the root path handed to the walker into the node the
 * walk starts from. Like a metadata lookup that follows links, it follows a
 * symbolic link met anywhere on the path (relative targets from the link's
 * directory, absolute ones from the filesystem root), up to the kernel's limit
 * of 40 links. Below the root the walker never follows links; only the root
 * is dereferenced here.
 */
module RootResolver {
  import opened Results
  import opened FileTree

  /** Why a walk could not start; no entry is produced in these cases. */
  datatype WalkError =
    | RootNotFound
    | RootUnreadable(reason: string)
    | TooManySymlinks
    | RootNotADirectory

  /**
   * A resolved root: the node the walk starts from and the path it was found
   * at, as names through directories only, with every link and `..` on the
   * way already followed.
   */
  datatype Located = Located(path: seq<string>, node: Node)

  /** Linux's MAXSYMLINKS: more links than this on one lookup fail with ELOOP. */
  const MaxSymlinkHops: nat := 40

  predicate IsAbsolute(path: string)
  {
    path != [] && path[0] == '/'
  }

  /** Index of the first `/` in `s`, or `|s|` when there is none. */
  function IndexOfSlash(s: string): (i: nat)
    ensures i <= |s|
    ensures '/' !in s[..i]
    ensures i < |s| ==> s[i] == '/'
  {
    if s == [] then 0
    else if s[0] == '/' then 0
    else
      var i := 1 + IndexOfSlash(s[1..]);
      assert s[..i] == [s[0]] + s[1..][..i - 1];
      i
  }

  /** The segments of a path: split at `/`, dropping empty and `.` segments. */
  function Segments(path: string): (segments: seq<string>)
    ensures forall k :: 0 <= k < |segments| ==>
      segments[k] != "" && segments[k] != "." && '/' !in segments[k]
    decreases |path|
  {
    if path == [] then []
    else
      var i := IndexOfSlash(path);
      var head := path[..i];
      var tail := if i < |path| then path[i + 1..] else [];
      (if head == "" || head == "." then [] else [head]) + Segments(tail)
  }

  /** Segments joined with `/`, the inverse of `Segments` on well-formed names. */
  function JoinPath(names: seq<string>): string
  {
    if names == [] then ""
    else if |names| == 1 then names[0]
    else names[0] + "/" + JoinPath(names[1..])
  }

  lemma IndexOfSlashIsFirst(s: string, k: nat)
    requires k <= |s| && '/' !in s[..k] && (k < |s| ==> s[k] == '/')
    ensures IndexOfSlash(s) == k
  {
  }

  /** Splitting a path joined from segment names gives the names back. */
  lemma {:induction false} SegmentsOfJoin(names: seq<string>)
    requires forall k :: 0 <= k < |names| ==> ValidName(names[k])
    ensures Segments(JoinPath(names)) == names
    decreases |names|
  {
    if |names| == 1 {
      SegmentsOfName(names[0]);
    } else if |names| > 1 {
      SegmentsOfNameThen(names[0], JoinPath(names[1..]));
      SegmentsOfJoin(names[1..]);
      assert names == [names[0]] + names[1..];
    }
  }

  lemma SegmentsOfName(name: string)
    requires ValidName(name)
    ensures Segments(name) == [name]
  {
    assert name[..|name|] == name;
    IndexOfSlashIsFirst(name, |name|);
    SegmentsStep(name, |name|);
  }

  lemma SegmentsOfNameThen(name: string, rest: string)
    requires ValidName(name)
    ensures Segments(name + "/" + rest) == [name] + Segments(rest)
  {
    var path := name + "/" + rest;
    assert path[..|name|] == name && path[|name|] == '/';
    IndexOfSlashIsFirst(path, |name|);
    SegmentsStep(path, |name|);
    assert path[|name| + 1..] == rest;
  }

  /** An absolute path written from segment names splits back into those names. */
  lemma SegmentsOfAbsolute(names: seq<string>)
    requires forall k :: 0 <= k < |names| ==> ValidName(names[k])
    ensures Segments("/" + JoinPath(names)) == names
  {
    SegmentsAfterLeadingSlash(JoinPath(names));
    SegmentsOfJoin(names);
  }

  /** One step of splitting: the first piece up to a `/` (kept unless empty or `.`), then the rest. */
  lemma SegmentsStep(path: string, i: nat)
    requires path != [] && IndexOfSlash(path) == i
    ensures Segments(path) ==
      (if path[..i] == "" || path[..i] == "." then [] else [path[..i]]) + Segments(if i < |path| then path[i + 1..] else [])
  {
  }

  /** A separator between two paths adds their segments up: `a/b` splits into the segments of `a`, then those of `b`. */
  lemma {:induction false} SegmentsOfConcat(a: string, b: string)
    ensures Segments(a + "/" + b) == Segments(a) + Segments(b)
    decreases |a|
  {
    var i := IndexOfSlash(a);
    if a == [] {
      SegmentsAfterLeadingSlash(b);
      assert a + "/" + b == "/" + b;
    } else if i < |a| {
      SegmentsOfConcat(a[i + 1..], b);
      SegmentsSplitInA(a, b, i);
    } else {
      SegmentsSplitAtJoint(a, b);
    }
  }

  lemma SegmentsAfterLeadingSlash(b: string)
    ensures Segments("/" + b) == Segments(b)
  {
    var path := "/" + b;
    IndexOfSlashIsFirst(path, 0);
    SegmentsStep(path, 0);
    assert path[..0] == "" && path[1..] == b;
  }

  lemma SlashInAFirst(a: string, b: string, i: nat)
    requires IndexOfSlash(a) == i && i < |a|
    ensures IndexOfSlash(a + "/" + b) == i
    ensures (a + "/" + b)[i + 1..] == a[i + 1..] + "/" + b
  {
    var path := a + "/" + b;
    assert path[..i] == a[..i] && path[i] == '/';
    IndexOfSlashIsFirst(path, i);
  }

  lemma SegmentsOfConcatHead(a: string, b: string, i: nat)
    requires IndexOfSlash(a) == i && i < |a|
    ensures Segments(a + "/" + b) == (if a[..i] == "" || a[..i] == "." then [] else [a[..i]]) + Segments(a[i + 1..] + "/" + b)
  {
    var path := a + "/" + b;
    SlashInAFirst(a, b, i);
    SegmentsStep(path, i);
    assert path[..i] == a[..i];
  }

  lemma Regroup(first: seq<string>, x: seq<string>, y: seq<string>, whole: seq<string>, left: seq<string>, tail: seq<string>)
    requires whole == first + tail && tail == x + y && left == first + x
    ensures whole == left + y
  {
  }

  lemma SegmentsSplitInA(a: string, b: string, i: nat)
    requires a != [] && IndexOfSlash(a) == i && i < |a|
    requires Segments(a[i + 1..] + "/" + b) == Segments(a[i + 1..]) + Segments(b)
    ensures Segments(a + "/" + b) == Segments(a) + Segments(b)
  {
    SegmentsOfConcatHead(a, b, i);
    SegmentsStep(a, i);
    var first: seq<string> := if a[..i] == "" || a[..i] == "." then [] else [a[..i]];
    Regroup(first, Segments(a[i + 1..]), Segments(b), Segments(a + "/" + b), Segments(a), Segments(a[i + 1..] + "/" + b));
  }

  lemma SlashAtJoint(a: string, b: string)
    requires a != [] && IndexOfSlash(a) == |a|
    ensures IndexOfSlash(a + "/" + b) == |a|
  {
    var path := a + "/" + b;
    assert path[..|a|] == a && path[|a|] == '/' && a[..|a|] == a;
    IndexOfSlashIsFirst(path, |a|);
  }

  lemma SingleSegment(a: string)
    requires a != [] && IndexOfSlash(a) == |a|
    ensures Segments(a) == (if a == "." then [] else [a])
  {
    SegmentsStep(a, |a|);
    assert a[..|a|] == a;
  }

  lemma SegmentsSplitAtJoint(a: string, b: string)
    requires a != [] && IndexOfSlash(a) == |a|
    ensures Segments(a + "/" + b) == Segments(a) + Segments(b)
  {
    var path := a + "/" + b;
    SlashAtJoint(a, b);
    SingleSegment(a);
    SegmentsStep(path, |a|);
    assert path[..|a|] == a;
    assert path[|a| + 1..] == b;
  }

  /** The last of some names, `.` when there is none. */
  function LastName(names: seq<string>): string
  {
    if names == [] then "." else names[|names| - 1]
  }

  /** The last segment of a path, `.` for a path without segments. */
  function BaseName(path: string): (base: string)
    ensures base != "" && '/' !in base
  {
    LastName(Segments(path))
  }

  /** The base name of a path written from valid names, absolute or relative, is its last name. */
  lemma BaseNameOfJoin(names: seq<string>)
    requires |names| > 0 && forall k :: 0 <= k < |names| ==> ValidName(names[k])
    ensures BaseName("/" + JoinPath(names)) == names[|names| - 1]
    ensures BaseName(JoinPath(names)) == names[|names| - 1]
  {
    SegmentsOfAbsolute(names);
    SegmentsOfJoin(names);
  }

  /** Whatever the directory part, the base name of `dir/name` is `name`. */
  lemma BaseNameOfChild(dir: string, name: string)
    requires ValidName(name)
    ensures BaseName(dir + "/" + name) == name
  {
    SegmentsOfConcat(dir, name);
    SegmentsOfJoin([name]);
  }

  /** The node reached from `root` by following `names` through directories only. */
  function NodeAt(root: Node, names: seq<string>): (found: Option<Node>)
    ensures found.Some? && names != [] ==> root.Directory? && Child(root.entries, names[0]).Some?
    decreases |names|
  {
    if names == [] then Some(root)
    else match root
      case Directory(entries) =>
        (match Child(entries, names[0])
         case Some(child) => NodeAt(child, names[1..])
         case None => None)
      case _ => None
  }

  /**
   * Resolves the segments `rest` starting in directory `here`, found at the
   * symlink-free path `dir` of the filesystem `fs`, with `hops` more links allowed.
   */
  function ResolveFrom(fs: Node, dir: seq<string>, here: Node, rest: seq<string>, hops: nat): (r: Result<Located, WalkError>)
    ensures r.Ok? ==> !r.value.node.Symlink? && !r.value.node.Unreadable?
    ensures r != Err(RootNotADirectory)
    decreases hops, |rest|
  {
    if rest == [] then
      (match here
       case Symlink(_) => Err(RootNotFound)
       case Unreadable(reason) => Err(RootUnreadable(reason))
       case _ => Ok(Located(dir, here)))
    else if !here.Directory? then Err(RootNotFound)
    else if rest[0] == ".." then
      var up := if dir == [] then [] else dir[..|dir| - 1];
      (match NodeAt(fs, up)
       case Some(parent) => ResolveFrom(fs, up, parent, rest[1..], hops)
       case None => Err(RootNotFound))
    else
      match Child(here.entries, rest[0])
      case None => Err(RootNotFound)
      case Some(Symlink(target)) =>
        if hops == 0 then Err(TooManySymlinks)
        else if IsAbsolute(target) then ResolveFrom(fs, [], fs, Segments(target) + rest[1..], hops - 1)
        else ResolveFrom(fs, dir, here, Segments(target) + rest[1..], hops - 1)
      case Some(Unreadable(reason)) => Err(RootUnreadable(reason))
      case Some(Directory(entries)) => ResolveFrom(fs, dir + [rest[0]], Directory(entries), rest[1..], hops)
      case Some(child) => if |rest| == 1 then Ok(Located(dir + [rest[0]], child)) else Err(RootNotFound)
  }

  /**
   * Whether the spelling of a path demands a directory: it ends in `/` or in
   * a `.` segment (`dir/`, `dir/.`), which a lookup ending at anything but a
   * directory refuses even though the segments no longer show it.
   */
  predicate SpelledAsDirectory(path: string)
  {
    path != [] && (path[|path| - 1] == '/' || (path[|path| - 1] == '.' && (|path| == 1 || path[|path| - 2] == '/')))
  }

  /**
   * The node a walk rooted at `rootPath` starts from, with the path it was
   * found at; relative paths start at the filesystem root. The empty path
   * names nothing, and a path spelled as a directory must end at one.
   */
  function ResolveRoot(fs: Node, rootPath: string): (r: Result<Located, WalkError>)
    ensures r.Ok? ==> !r.value.node.Symlink? && !r.value.node.Unreadable?
    ensures rootPath == "" ==> r == Err(RootNotFound)
    ensures r.Ok? && SpelledAsDirectory(rootPath) ==> r.value.node.Directory?
    ensures r == Err(RootNotADirectory) ==> SpelledAsDirectory(rootPath)
  {
    if rootPath == "" then Err(RootNotFound)
    else
      match ResolveFrom(fs, [], fs, Segments(rootPath), MaxSymlinkHops)
      case Err(e) => Err(e)
      case Ok(root) => if SpelledAsDirectory(rootPath) && !root.node.Directory? then Err(RootNotADirectory) else Ok(root)
  }

  /**
   * The path a resolution reports leads, through directories only, to the
   * node it reports: the name of a resolved root is the name it really has.
   */
  lemma {:induction false} ResolvedPathLeadsToNode(fs: Node, dir: seq<string>, here: Node, rest: seq<string>, hops: nat)
    requires NodeAt(fs, dir) == Some(here)
    requires ResolveFrom(fs, dir, here, rest, hops).Ok?
    ensures NodeAt(fs, ResolveFrom(fs, dir, here, rest, hops).value.path) == Some(ResolveFrom(fs, dir, here, rest, hops).value.node)
    decreases hops, |rest|, 2
  {
    if rest != [] && here.Directory? {
      if rest[0] == ".." {
        PathLeadsUp(fs, dir, here, rest, hops);
      } else {
        var child := Child(here.entries, rest[0]);
        if child.Some? && child.value.Symlink? {
          PathLeadsThroughLink(fs, dir, here, rest, hops, child.value.target);
        } else if child.Some? && child.value.Directory? {
          PathLeadsDown(fs, dir, here, rest, hops);
        } else {
          NodeAtStep(fs, dir, here, rest[0]);
        }
      }
    }
  }

  lemma {:induction false} PathLeadsUp(fs: Node, dir: seq<string>, here: Node, rest: seq<string>, hops: nat)
    requires rest != [] && here.Directory? && rest[0] == ".."
    requires ResolveFrom(fs, dir, here, rest, hops).Ok?
    ensures NodeAt(fs, ResolveFrom(fs, dir, here, rest, hops).value.path) == Some(ResolveFrom(fs, dir, here, rest, hops).value.node)
    decreases hops, |rest|, 1
  {
    var up := if dir == [] then [] else dir[..|dir| - 1];
    GoUp(fs, dir, here, rest, hops);
    PathLeadsFrom(fs, dir, here, rest, hops, up, NodeAt(fs, up).value, rest[1..], hops);
  }

  lemma {:induction false} PathLeadsDown(fs: Node, dir: seq<string>, here: Node, rest: seq<string>, hops: nat)
    requires NodeAt(fs, dir) == Some(here)
    requires rest != [] && here.Directory? && rest[0] != ".."
    requires Child(here.entries, rest[0]).Some? && Child(here.entries, rest[0]).value.Directory?
    requires ResolveFrom(fs, dir, here, rest, hops).Ok?
    ensures NodeAt(fs, ResolveFrom(fs, dir, here, rest, hops).value.path) == Some(ResolveFrom(fs, dir, here, rest, hops).value.node)
    decreases hops, |rest|, 1
  {
    NodeAtStep(fs, dir, here, rest[0]);
    GoDown(fs, dir, here, rest, hops);
    PathLeadsFrom(fs, dir, here, rest, hops, dir + [rest[0]], Child(here.entries, rest[0]).value, rest[1..], hops);
  }

  lemma {:induction false} PathLeadsThroughLink(fs: Node, dir: seq<string>, here: Node, rest: seq<string>, hops: nat, target: string)
    requires NodeAt(fs, dir) == Some(here)
    requires rest != [] && here.Directory? && rest[0] != ".."
    requires Child(here.entries, rest[0]) == Some(Symlink(target))
    requires ResolveFrom(fs, dir, here, rest, hops).Ok?
    ensures NodeAt(fs, ResolveFrom(fs, dir, here, rest, hops).value.path) == Some(ResolveFrom(fs, dir, here, rest, hops).value.node)
    decreases hops, |rest|, 1
  {
    LinkHop(fs, dir, here, rest, hops, target);
    PathLeadsFrom(fs, dir, here, rest, hops, LinkDir(dir, target), LinkHere(fs, here, target), Segments(target) + rest[1..], hops - 1);
  }

  /** A resolution that goes on as another, from a place the path leads to, reports a place its path leads to. */
  lemma {:induction false} PathLeadsFrom(fs: Node, dir: seq<string>, here: Node, rest: seq<string>, hops: nat,
                                         dir': seq<string>, here': Node, rest': seq<string>, hops': nat)
    requires NodeAt(fs, dir') == Some(here')
    requires hops' < hops || (hops' == hops && |rest'| < |rest|)
    requires ResolveFrom(fs, dir, here, rest, hops).Ok?
    requires ResolveFrom(fs, dir, here, rest, hops) == ResolveFrom(fs, dir', here', rest', hops')
    ensures NodeAt(fs, ResolveFrom(fs, dir, here, rest, hops).value.path) == Some(ResolveFrom(fs, dir, here, rest, hops).value.node)
    decreases hops, |rest|, 0
  {
    ResolvedPathLeadsToNode(fs, dir', here', rest', hops');
  }

  /** One more name after a directory's path leads to that directory's entry of that name. */
  lemma {:induction false} NodeAtStep(root: Node, dir: seq<string>, here: Node, name: string)
    requires NodeAt(root, dir) == Some(here) && here.Directory?
    ensures NodeAt(root, dir + [name]) == Child(here.entries, name)
    decreases |dir|
  {
    if dir == [] {
      assert [] + [name] == [name];
      assert [name][1..] == [];
    } else {
      var next := Child(root.entries, dir[0]).value;
      assert (dir + [name])[0] == dir[0] && (dir + [name])[1..] == dir[1..] + [name];
      NodeAtStep(next, dir[1..], here, name);
    }
  }

  /**
   * In a well-formed tree, every name on a path that leads somewhere is a
   * valid entry name, so the last name of a resolved path has no `/`.
   */
  lemma {:induction false} NamesOnPathAreValid(root: Node, names: seq<string>)
    requires ValidTree(root) && NodeAt(root, names).Some?
    ensures forall k :: 0 <= k < |names| ==> ValidName(names[k])
    ensures '/' !in LastName(names)
    decreases |names|
  {
    if names != [] {
      var child := Child(root.entries, names[0]).value;
      EntryOf(root, DirEntry(names[0], child));
      NamesOnPathAreValid(child, names[1..]);
      assert forall k :: 1 <= k < |names| ==> names[k] == names[1..][k - 1];
    }
  }

  /** Whether following `names` from `here` meets no symbolic link. */
  predicate NoLinkOnPath(here: Node, names: seq<string>)
    decreases |names|
  {
    names == [] ||
    match here
    case Directory(entries) =>
      (match Child(entries, names[0])
       case Some(child) => !child.Symlink? && NoLinkOnPath(child, names[1..])
       case None => true)
    case _ => true
  }

  /**
   * On a path without `..` and without links, resolution is plain lookup:
   * a readable node found there is the root; nothing found is an error.
   */
  lemma {:induction false} ResolveIsLookup(fs: Node, dir: seq<string>, here: Node, rest: seq<string>, hops: nat)
    requires ".." !in rest && NoLinkOnPath(here, rest)
    ensures NodeAt(here, rest).None? ==> ResolveFrom(fs, dir, here, rest, hops).Err?
    ensures NodeAt(here, rest).Some? && !NodeAt(here, rest).value.Unreadable? && !NodeAt(here, rest).value.Symlink? ==>
      ResolveFrom(fs, dir, here, rest, hops) == Ok(Located(dir + rest, NodeAt(here, rest).value))
    ensures ResolveFrom(fs, dir, here, rest, hops).Ok? ==> ResolveFrom(fs, dir, here, rest, hops).value.path == dir + rest
    decreases |rest|
  {
    if rest == [] {
      assert dir + rest == dir;
    } else if here.Directory? {
      assert rest[0] != "..";
      match Child(here.entries, rest[0])
      case None =>
      case Some(child) =>
        assert ".." !in rest[1..] by {
          forall k | 0 <= k < |rest[1..]| ensures rest[1..][k] != ".." {
            assert rest[1..][k] == rest[k + 1];
          }
        }
        assert NodeAt(here, rest) == NodeAt(child, rest[1..]);
        assert dir + [rest[0]] + rest[1..] == dir + rest by {
          assert rest == [rest[0]] + rest[1..];
        }
        if child.Directory? {
          ResolveIsLookup(fs, dir + [rest[0]], child, rest[1..], hops);
        } else if |rest| == 1 {
          assert rest == [rest[0]];
          assert NodeAt(here, rest) == Some(child);
        }
    }
  }

  lemma {:induction false} NodeAtKeepsValidity(root: Node, names: seq<string>)
    requires ValidTree(root) && NodeAt(root, names).Some?
    ensures ValidTree(NodeAt(root, names).value)
    decreases |names|
  {
    if names != [] {
      ValidTreeChild(root.entries, names[0]);
      NodeAtKeepsValidity(Child(root.entries, names[0]).value, names[1..]);
    }
  }

  /** The resolved root of a well-formed filesystem is itself a well-formed tree. */
  lemma ResolveKeepsValidity(fs: Node, dir: seq<string>, here: Node, rest: seq<string>, hops: nat)
    requires ValidTree(fs) && NodeAt(fs, dir) == Some(here)
    requires ResolveFrom(fs, dir, here, rest, hops).Ok?
    ensures ValidTree(ResolveFrom(fs, dir, here, rest, hops).value.node)
  {
    ResolvedPathLeadsToNode(fs, dir, here, rest, hops);
    NodeAtKeepsValidity(fs, ResolveFrom(fs, dir, here, rest, hops).value.path);
  }

  /** Resolution passes through a directory entry that is itself a directory. */
  lemma ResolveDown(fs: Node, dir: seq<string>, here: Node, name: string, rest: seq<string>, hops: nat)
    requires here.Directory? && name != ".."
    requires Child(here.entries, name).Some? && Child(here.entries, name).value.Directory?
    ensures ResolveFrom(fs, dir, here, [name] + rest, hops) ==
      ResolveFrom(fs, dir + [name], Child(here.entries, name).value, rest, hops)
  {
    assert ([name] + rest)[1..] == rest;
  }

  /** Resolution follows a relative link from the directory that holds it, using up one link of the allowance. */
  lemma ResolveRelativeLink(fs: Node, dir: seq<string>, here: Node, name: string, target: string, rest: seq<string>, hops: nat)
    requires here.Directory? && name != ".." && hops > 0 && !IsAbsolute(target)
    requires Child(here.entries, name) == Some(Symlink(target))
    ensures ResolveFrom(fs, dir, here, [name] + rest, hops) ==
      ResolveFrom(fs, dir, here, Segments(target) + rest, hops - 1)
  {
    assert ([name] + rest)[1..] == rest;
  }

  /** Resolution follows an absolute link from the filesystem root, using up one link of the allowance. */
  lemma ResolveAbsoluteLink(fs: Node, dir: seq<string>, here: Node, name: string, target: string, rest: seq<string>, hops: nat)
    requires here.Directory? && name != ".." && hops > 0 && IsAbsolute(target)
    requires Child(here.entries, name) == Some(Symlink(target))
    ensures ResolveFrom(fs, dir, here, [name] + rest, hops) ==
      ResolveFrom(fs, [], fs, Segments(target) + rest, hops - 1)
  {
    assert ([name] + rest)[1..] == rest;
  }

  /** Along a path of directories without links or `..`, resolution is lookup, step after step. */
  lemma {:induction false} ResolveThroughDirectories(fs: Node, dir: seq<string>, here: Node, names: seq<string>, rest: seq<string>, hops: nat)
    requires ".." !in names && NoLinkOnPath(here, names)
    requires NodeAt(here, names).Some? && NodeAt(here, names).value.Directory?
    ensures ResolveFrom(fs, dir, here, names + rest, hops) == ResolveFrom(fs, dir + names, NodeAt(here, names).value, rest, hops)
    decreases |names|
  {
    if names == [] {
      assert names + rest == rest && dir + names == dir;
    } else {
      FirstStepIsDirectory(here, names);
      NotInTail(names, "..");
      var child := Child(here.entries, names[0]).value;
      ResolveDown(fs, dir, here, names[0], names[1..] + rest, hops);
      ResolveThroughDirectories(fs, dir + [names[0]], child, names[1..], rest, hops);
      SplitAtHead(dir, names, rest);
    }
  }

  /** The first step of a link-free lookup that ends at a directory enters a directory. */
  lemma FirstStepIsDirectory(here: Node, names: seq<string>)
    requires names != [] && NoLinkOnPath(here, names)
    requires NodeAt(here, names).Some? && NodeAt(here, names).value.Directory?
    ensures here.Directory? && Child(here.entries, names[0]).Some?
    ensures var child := Child(here.entries, names[0]).value;
      child.Directory? && NoLinkOnPath(child, names[1..]) && NodeAt(child, names[1..]) == NodeAt(here, names)
  {
    var child := Child(here.entries, names[0]).value;
    if names[1..] != [] {
      assert NodeAt(child, names[1..]).Some?;
    }
  }

  lemma SplitAtHead(dir: seq<string>, names: seq<string>, rest: seq<string>)
    requires names != []
    ensures names + rest == [names[0]] + (names[1..] + rest)
    ensures dir + [names[0]] + names[1..] == dir + names
  {
    assert names == [names[0]] + names[1..];
  }

  lemma NotInTail(names: seq<string>, name: string)
    requires names != [] && name !in names
    ensures name != names[0] && name !in names[1..]
  {
    assert names == [names[0]] + names[1..];
  }

  /** A resolution that succeeds within an allowance of links succeeds alike with a larger one. */
  lemma {:induction false} MoreHopsChangeNothing(fs: Node, dir: seq<string>, here: Node, rest: seq<string>, hops: nat)
    requires ResolveFrom(fs, dir, here, rest, hops).Ok?
    ensures ResolveFrom(fs, dir, here, rest, hops + 1) == ResolveFrom(fs, dir, here, rest, hops)
    decreases hops, |rest|, 1
  {
    if rest == [] || !here.Directory? {
      StepIgnoresHops(fs, dir, here, rest, hops);
    } else if rest[0] == ".." {
      MoreHopsUp(fs, dir, here, rest, hops);
    } else {
      var child := Child(here.entries, rest[0]);
      if child.Some? && child.value.Symlink? {
        MoreHopsThroughLink(fs, dir, here, rest, hops);
      } else if child.Some? && child.value.Directory? {
        MoreHopsDown(fs, dir, here, rest, hops);
      } else {
        StepIgnoresHops(fs, dir, here, rest, hops);
      }
    }
  }

  lemma {:induction false} MoreHopsUp(fs: Node, dir: seq<string>, here: Node, rest: seq<string>, hops: nat)
    requires rest != [] && here.Directory? && rest[0] == ".."
    requires ResolveFrom(fs, dir, here, rest, hops).Ok?
    ensures ResolveFrom(fs, dir, here, rest, hops + 1) == ResolveFrom(fs, dir, here, rest, hops)
    decreases hops, |rest|, 0
  {
    var up := if dir == [] then [] else dir[..|dir| - 1];
    GoUp(fs, dir, here, rest, hops);
    GoUp(fs, dir, here, rest, hops + 1);
    MoreHopsChangeNothing(fs, up, NodeAt(fs, up).value, rest[1..], hops);
  }

  lemma {:induction false} MoreHopsDown(fs: Node, dir: seq<string>, here: Node, rest: seq<string>, hops: nat)
    requires rest != [] && here.Directory? && rest[0] != ".."
    requires Child(here.entries, rest[0]).Some? && Child(here.entries, rest[0]).value.Directory?
    requires ResolveFrom(fs, dir, here, rest, hops).Ok?
    ensures ResolveFrom(fs, dir, here, rest, hops + 1) == ResolveFrom(fs, dir, here, rest, hops)
    decreases hops, |rest|, 0
  {
    GoDown(fs, dir, here, rest, hops);
    GoDown(fs, dir, here, rest, hops + 1);
    MoreHopsChangeNothing(fs, dir + [rest[0]], Child(here.entries, rest[0]).value, rest[1..], hops);
  }

  lemma {:induction false} MoreHopsThroughLink(fs: Node, dir: seq<string>, here: Node, rest: seq<string>, hops: nat)
    requires rest != [] && here.Directory? && rest[0] != ".."
    requires Child(here.entries, rest[0]).Some? && Child(here.entries, rest[0]).value.Symlink?
    requires ResolveFrom(fs, dir, here, rest, hops).Ok?
    ensures ResolveFrom(fs, dir, here, rest, hops + 1) == ResolveFrom(fs, dir, here, rest, hops)
    decreases hops, |rest|, 0
  {
    var target := Child(here.entries, rest[0]).value.target;
    var dir', here' := LinkDir(dir, target), LinkHere(fs, here, target);
    var rest' := Segments(target) + rest[1..];
    FollowLink(fs, dir, here, rest, hops);
    FollowLink(fs, dir, here, rest, hops - 1);
    MoreHopsChangeNothing(fs, dir', here', rest', hops - 1);
  }

  /** The path of the directory the target of a link met in the directory at `dir` is read from. */
  function LinkDir(dir: seq<string>, target: string): seq<string>
  {
    if IsAbsolute(target) then [] else dir
  }

  /** The directory the target of a link met in the directory `here` is read from. */
  function LinkHere(fs: Node, here: Node, target: string): Node
  {
    if IsAbsolute(target) then fs else here
  }

  /** A step that neither follows a link nor moves to another directory settles the result whatever the allowance. */
  lemma StepIgnoresHops(fs: Node, dir: seq<string>, here: Node, rest: seq<string>, hops: nat)
    requires rest == [] || !here.Directory? ||
      (rest[0] != ".." && (Child(here.entries, rest[0]).None? ||
        (!Child(here.entries, rest[0]).value.Symlink? && !Child(here.entries, rest[0]).value.Directory?)))
    ensures ResolveFrom(fs, dir, here, rest, hops + 1) == ResolveFrom(fs, dir, here, rest, hops)
  {
  }

  /** A `..` step moves to the parent of the current directory, found from the filesystem root. */
  lemma GoUp(fs: Node, dir: seq<string>, here: Node, rest: seq<string>, hops: nat)
    requires rest != [] && here.Directory? && rest[0] == ".."
    ensures var up := if dir == [] then [] else dir[..|dir| - 1];
      NodeAt(fs, up).None? ==> ResolveFrom(fs, dir, here, rest, hops) == Err(RootNotFound)
    ensures var up := if dir == [] then [] else dir[..|dir| - 1];
      NodeAt(fs, up).Some? ==> ResolveFrom(fs, dir, here, rest, hops) == ResolveFrom(fs, up, NodeAt(fs, up).value, rest[1..], hops)
  {
  }

  /** A step into a directory entry continues from that directory. */
  lemma GoDown(fs: Node, dir: seq<string>, here: Node, rest: seq<string>, hops: nat)
    requires rest != [] && here.Directory? && rest[0] != ".."
    requires Child(here.entries, rest[0]).Some? && Child(here.entries, rest[0]).value.Directory?
    ensures ResolveFrom(fs, dir, here, rest, hops) == ResolveFrom(fs, dir + [rest[0]], Child(here.entries, rest[0]).value, rest[1..], hops)
  {
  }

  /**
   * A link met on the way is replaced by its target's segments, read from the
   * filesystem root when absolute and from the current directory otherwise,
   * using up one link of the allowance; with no allowance left it is an error.
   */
  lemma FollowLink(fs: Node, dir: seq<string>, here: Node, rest: seq<string>, hops: nat)
    requires rest != [] && here.Directory? && rest[0] != ".."
    requires Child(here.entries, rest[0]).Some? && Child(here.entries, rest[0]).value.Symlink?
    ensures ResolveFrom(fs, dir, here, rest, 0) == Err(TooManySymlinks)
    ensures var target := Child(here.entries, rest[0]).value.target;
      ResolveFrom(fs, dir, here, rest, hops + 1) ==
      ResolveFrom(fs, LinkDir(dir, target), LinkHere(fs, here, target), Segments(target) + rest[1..], hops)
  {
  }

  /** A resolution that succeeds through a link had a hop left and continues at the link's target. */
  lemma LinkHop(fs: Node, dir: seq<string>, here: Node, rest: seq<string>, hops: nat, target: string)
    requires rest != [] && here.Directory? && rest[0] != ".."
    requires Child(here.entries, rest[0]) == Some(Symlink(target))
    requires ResolveFrom(fs, dir, here, rest, hops).Ok?
    ensures hops > 0
    ensures ResolveFrom(fs, dir, here, rest, hops) ==
      ResolveFrom(fs, LinkDir(dir, target), LinkHere(fs, here, target), Segments(target) + rest[1..], hops - 1)
    ensures NodeAt(fs, dir) == Some(here) ==> NodeAt(fs, LinkDir(dir, target)) == Some(LinkHere(fs, here, target))
  {
  }

  /**
   * The directory reached from the filesystem root through `names`, without
   * links or `..` on the way, holds an entry `name` that is a link to `target`.
   */
  predicate HoldsLink(fs: Node, names: seq<string>, name: string, target: string)
  {
    ".." !in names && NoLinkOnPath(fs, names) &&
    NodeAt(fs, names).Some? && NodeAt(fs, names).value.Directory? &&
    name != ".." && Child(NodeAt(fs, names).value.entries, name) == Some(Symlink(target))
  }

  /** The segments the target of a link in the directory at `names` stands for, read from the filesystem root. */
  function TargetSegments(names: seq<string>, target: string): seq<string>
  {
    if IsAbsolute(target) then Segments(target) else names + Segments(target)
  }

  /**
   * A root path ending at a link resolves as the link's target does, read
   * from the link's directory when relative and from the filesystem root when
   * absolute, with one link fewer allowed. When it resolves, the target's own
   * path resolves to the same node at the same place, unless that path is
   * spelled as a directory and the node is not one.
   */
  lemma LinkResolvesAsItsTarget(fs: Node, names: seq<string>, name: string, target: string, linkPath: string, targetPath: string)
    requires HoldsLink(fs, names, name, target)
    requires Segments(linkPath) == names + [name] && Segments(targetPath) == TargetSegments(names, target)
    ensures IsAbsolute(target) ==>
      ResolveFrom(fs, [], fs, Segments(linkPath), MaxSymlinkHops) == ResolveFrom(fs, [], fs, Segments(target), MaxSymlinkHops - 1)
    ensures !IsAbsolute(target) ==>
      ResolveFrom(fs, [], fs, Segments(linkPath), MaxSymlinkHops) ==
      ResolveFrom(fs, names, NodeAt(fs, names).value, Segments(target), MaxSymlinkHops - 1)
    ensures var viaLink := ResolveRoot(fs, linkPath);
      viaLink.Ok? && targetPath != "" && (viaLink.value.node.Directory? || !SpelledAsDirectory(targetPath)) ==>
      ResolveRoot(fs, targetPath) == viaLink
  {
    LinkStep(fs, names, name, target);
    var dir := NodeAt(fs, names).value;
    var viaTarget := if IsAbsolute(target) then ResolveFrom(fs, [], fs, Segments(target), MaxSymlinkHops - 1)
      else ResolveFrom(fs, names, dir, Segments(target), MaxSymlinkHops - 1);
    if viaTarget.Ok? {
      TargetStep(fs, names, target);
    }
  }

  /** Resolving through the link itself: down the directories, then one link. */
  lemma LinkStep(fs: Node, names: seq<string>, name: string, target: string)
    requires HoldsLink(fs, names, name, target)
    ensures IsAbsolute(target) ==>
      ResolveFrom(fs, [], fs, names + [name], MaxSymlinkHops) == ResolveFrom(fs, [], fs, Segments(target), MaxSymlinkHops - 1)
    ensures !IsAbsolute(target) ==>
      ResolveFrom(fs, [], fs, names + [name], MaxSymlinkHops) ==
      ResolveFrom(fs, names, NodeAt(fs, names).value, Segments(target), MaxSymlinkHops - 1)
  {
    ResolveThroughDirectories(fs, [], fs, names, [name], MaxSymlinkHops);
    assert [] + names == names;
    LinkAtEnd(fs, names, NodeAt(fs, names).value, name, target, MaxSymlinkHops);
  }

  /** A link that is the last name of the path is replaced by its target's segments. */
  lemma LinkAtEnd(fs: Node, dir: seq<string>, here: Node, name: string, target: string, hops: nat)
    requires here.Directory? && name != ".." && hops > 0
    requires Child(here.entries, name) == Some(Symlink(target))
    ensures IsAbsolute(target) ==> ResolveFrom(fs, dir, here, [name], hops) == ResolveFrom(fs, [], fs, Segments(target), hops - 1)
    ensures !IsAbsolute(target) ==> ResolveFrom(fs, dir, here, [name], hops) == ResolveFrom(fs, dir, here, Segments(target), hops - 1)
  {
    assert [name] + [] == [name];
    assert Segments(target) + [] == Segments(target);
    if IsAbsolute(target) {
      ResolveAbsoluteLink(fs, dir, here, name, target, [], hops);
    } else {
      ResolveRelativeLink(fs, dir, here, name, target, [], hops);
    }
  }

  /** Resolving the target's own path, with the full allowance, finds what the link step finds. */
  lemma TargetStep(fs: Node, names: seq<string>, target: string)
    requires ".." !in names && NoLinkOnPath(fs, names) && NodeAt(fs, names).Some? && NodeAt(fs, names).value.Directory?
    requires IsAbsolute(target) ==> ResolveFrom(fs, [], fs, Segments(target), MaxSymlinkHops - 1).Ok?
    requires !IsAbsolute(target) ==> ResolveFrom(fs, names, NodeAt(fs, names).value, Segments(target), MaxSymlinkHops - 1).Ok?
    ensures IsAbsolute(target) ==>
      ResolveFrom(fs, [], fs, TargetSegments(names, target), MaxSymlinkHops) == ResolveFrom(fs, [], fs, Segments(target), MaxSymlinkHops - 1)
    ensures !IsAbsolute(target) ==>
      ResolveFrom(fs, [], fs, TargetSegments(names, target), MaxSymlinkHops) ==
      ResolveFrom(fs, names, NodeAt(fs, names).value, Segments(target), MaxSymlinkHops - 1)
  {
    if IsAbsolute(target) {
      MoreHopsChangeNothing(fs, [], fs, Segments(target), MaxSymlinkHops - 1);
    } else {
      MoreHopsChangeNothing(fs, names, NodeAt(fs, names).value, Segments(target), MaxSymlinkHops - 1);
      ResolveThroughDirectories(fs, [], fs, names, Segments(target), MaxSymlinkHops);
      assert [] + names == names;
    }
  }
}
