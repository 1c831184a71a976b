/**
 * The tree the walker tests run on, held in memory below a temporary
 * directory, and what walking it yields: resolution of the roots the tests
 * use, and the walk in pre-order for every combination of skip-root and depth
 * limit, computed one directory at a time.
 */
module WalkerFixture {
  import opened Results
  import opened FileTree
  import opened RootResolver
  import opened Walker
  import opened Listing

  /** The suite's temporary directory; the fixture tree lives below it. */
  const TmpDir := "/tmp"

  /** The fixture tree shared by the tests, one constant per top-level directory. */
  const Dev := Directory([DirEntry("random", RegularFile)])
  const Certs := Directory([DirEntry("ca.crt", RegularFile)])
  const Etc := Directory([DirEntry("certs", Certs), DirEntry("hostname", RegularFile)])
  const Lib := Directory([DirEntry("dynalib.so", RegularFile)])
  const Bin := Directory([DirEntry("cp", RegularFile), DirEntry("mv", Symlink("/usr/bin/cp"))])
  const Usr := Directory([DirEntry("bin", Bin)])
  const Fixture := Directory([DirEntry("dev", Dev), DirEntry("etc", Etc), DirEntry("lib", Lib), DirEntry("usr", Usr)])

  /** The symlink test adds a directory `original` holding an empty file and a relative link `new` to it. */
  const Original := Directory([DirEntry("original.txt", RegularFile)])
  const LinkedFixture := Directory([
    DirEntry("dev", Dev), DirEntry("etc", Etc), DirEntry("lib", Lib), DirEntry("usr", Usr),
    DirEntry("original", Original), DirEntry("new", Symlink("original"))])

  /** A filesystem whose only top-level directory is the temporary one. */
  function FileSystem(tmp: Node): Node
  {
    Directory([DirEntry("tmp", tmp)])
  }

  lemma TmpSegments()
    ensures Segments(TmpDir) == ["tmp"]
  {
    assert TmpDir == "/" + JoinPath(["tmp"]);
    SegmentsOfAbsolute(["tmp"]);
  }

  lemma OneEntryValid(a: DirEntry)
    requires ValidName(a.name) && ValidTree(a.node)
    ensures ValidTree(Directory([a]))
  {
  }

  lemma TwoEntriesValid(a: DirEntry, b: DirEntry)
    requires ValidName(a.name) && ValidTree(a.node)
    requires ValidName(b.name) && ValidTree(b.node)
    requires a.name != b.name
    ensures ValidTree(Directory([a, b]))
  {
  }

  lemma FourEntriesValid(a: DirEntry, b: DirEntry, c: DirEntry, d: DirEntry)
    requires ValidName(a.name) && ValidTree(a.node)
    requires ValidName(b.name) && ValidTree(b.node)
    requires ValidName(c.name) && ValidTree(c.node)
    requires ValidName(d.name) && ValidTree(d.node)
    requires NameLe(a.name, b.name) && a.name != b.name
    requires NameLe(b.name, c.name) && b.name != c.name
    requires NameLe(c.name, d.name) && c.name != d.name
    ensures ValidTree(Directory([a, b, c, d]))
  {
    var es := [a, b, c, d];
    forall i, j | 0 <= i < j < |es| ensures es[i].name != es[j].name {
      StepsAscendChain(es, i, j);
    }
  }

  lemma SubtreesAreValid()
    ensures ValidTree(Dev) && ValidTree(Etc) && ValidTree(Lib) && ValidTree(Usr)
  {
    OneEntryValid(DirEntry("random", RegularFile));
    OneEntryValid(DirEntry("ca.crt", RegularFile));
    TwoEntriesValid(DirEntry("certs", Certs), DirEntry("hostname", RegularFile));
    OneEntryValid(DirEntry("dynalib.so", RegularFile));
    TwoEntriesValid(DirEntry("cp", RegularFile), DirEntry("mv", Symlink("/usr/bin/cp")));
    OneEntryValid(DirEntry("bin", Bin));
  }

  /** The fixture is a tree a real filesystem could hold: valid, distinct names in every directory. */
  lemma FixtureIsValid()
    ensures ValidTree(Fixture) && ValidTree(FileSystem(Fixture))
  {
    SubtreesAreValid();
    assert NameLe("dev", "etc") && NameLe("etc", "lib") && NameLe("lib", "usr");
    FourEntriesValid(DirEntry("dev", Dev), DirEntry("etc", Etc), DirEntry("lib", Lib), DirEntry("usr", Usr));
    OneEntryValid(DirEntry("tmp", Fixture));
  }

  /** No node of the fixture has unreadable metadata. */
  lemma FixtureIsReadable()
    ensures Readable(Fixture) && Readable(Original)
  {
    assert Readable(Dev) && Readable(Etc) && Readable(Lib) && Readable(Usr);
  }

  /** The temporary directory resolves to itself and is named `tmp`. */
  lemma TmpResolves(tmp: Node)
    requires tmp.Directory?
    ensures ResolveRoot(FileSystem(tmp), TmpDir) == Ok(Located(["tmp"], tmp))
    ensures BaseName(TmpDir) == "tmp"
  {
    TmpSegments();
    var fs := FileSystem(tmp);
    assert Child(fs.entries, "tmp") == Some(tmp);
    ResolveDown(fs, [], fs, "tmp", [], MaxSymlinkHops);
    assert ["tmp"] + [] == ["tmp"];
  }

  /** Where the regular file of the file test sits, as names from the filesystem root. */
  const CpPath: seq<string> := ["tmp", "usr", "bin", "cp"]

  lemma CpSegments()
    ensures Segments("/tmp/usr/bin/cp") == CpPath
  {
    assert "/tmp/usr/bin/cp" == "/" + JoinPath(["tmp", "usr", "bin", "cp"]);
    SegmentsOfAbsolute(["tmp", "usr", "bin", "cp"]);
  }

  lemma ResolveThreeDown(tmp: Node, usr: Node, bin: Node)
    requires tmp.Directory? && Child(tmp.entries, "usr") == Some(usr)
    requires usr.Directory? && Child(usr.entries, "bin") == Some(bin)
    requires bin.Directory? && Child(bin.entries, "cp") == Some(RegularFile)
    ensures ResolveFrom(FileSystem(tmp), [], FileSystem(tmp), CpPath, MaxSymlinkHops) == Ok(Located(CpPath, RegularFile))
  {
    var fs := FileSystem(tmp);
    assert Child(fs.entries, "tmp") == Some(tmp);
    assert ResolveFrom(fs, ["tmp", "usr", "bin"], bin, ["cp"], MaxSymlinkHops) == Ok(Located(["tmp", "usr", "bin"] + ["cp"], RegularFile));
    ResolveDown(fs, ["tmp", "usr"], usr, "bin", ["cp"], MaxSymlinkHops);
    ResolveDown(fs, ["tmp"], tmp, "usr", ["bin", "cp"], MaxSymlinkHops);
    ResolveDown(fs, [], fs, "tmp", ["usr", "bin", "cp"], MaxSymlinkHops);
    CpPathPieces();
  }

  lemma CpPathPieces()
    ensures ["tmp"] + ["usr", "bin", "cp"] == ["tmp", "usr", "bin", "cp"]
    ensures ["usr"] + ["bin", "cp"] == ["usr", "bin", "cp"] && ["bin"] + ["cp"] == ["bin", "cp"]
    ensures [] + ["tmp"] == ["tmp"] && ["tmp"] + ["usr"] == ["tmp", "usr"] && ["tmp", "usr"] + ["bin"] == ["tmp", "usr", "bin"]
    ensures ["tmp", "usr", "bin"] + ["cp"] == CpPath
  {
  }

  lemma CpEntries()
    ensures Child(Fixture.entries, "usr") == Some(Usr)
    ensures Child(Usr.entries, "bin") == Some(Bin)
    ensures Child(Bin.entries, "cp") == Some(RegularFile)
  {
    ChildFound(Fixture.entries, 3);
  }

  /** The regular file `usr/bin/cp` of the fixture resolves to itself and is named `cp`. */
  lemma CpResolves()
    ensures ResolveRoot(FileSystem(Fixture), "/tmp/usr/bin/cp") == Ok(Located(CpPath, RegularFile))
    ensures BaseName("/tmp/usr/bin/cp") == "cp"
  {
    CpLooksUp();
    assert !SpelledAsDirectory("/tmp/usr/bin/cp");
    CpSegments();
  }

  lemma CpLooksUp()
    ensures ResolveFrom(FileSystem(Fixture), [], FileSystem(Fixture), Segments("/tmp/usr/bin/cp"), MaxSymlinkHops) == Ok(Located(CpPath, RegularFile))
  {
    CpSegments();
    CpEntries();
    ResolveThreeDown(Fixture, Usr, Bin);
  }

  /**
   * Spelled with a trailing `/.`, the same file cannot be a root: the lookup
   * demands a directory, so the walk fails to start.
   */
  lemma CpAsDirectoryFails()
    ensures ResolveRoot(FileSystem(Fixture), "/tmp/usr/bin/cp/.") == Err(RootNotADirectory)
  {
    CpDotLooksUp();
    assert SpelledAsDirectory("/tmp/usr/bin/cp/.");
  }

  lemma CpDotLooksUp()
    ensures ResolveFrom(FileSystem(Fixture), [], FileSystem(Fixture), Segments("/tmp/usr/bin/cp/."), MaxSymlinkHops) == Ok(Located(CpPath, RegularFile))
  {
    CpDotSegments();
    CpSegments();
    CpLooksUp();
  }

  lemma CpDotSegments()
    ensures Segments("/tmp/usr/bin/cp/.") == CpPath
  {
    CpSegments();
    SegmentsOfConcat("/tmp/usr/bin/cp", ".");
    assert "/tmp/usr/bin/cp/." == "/tmp/usr/bin/cp" + "/" + ".";
    DotHasNoSegments();
  }

  lemma DotHasNoSegments()
    ensures Segments(".") == []
  {
    IndexOfSlashIsFirst(".", 1);
    SegmentsStep(".", 1);
    assert "."[..1] == ".";
  }

  lemma NewSegments()
    ensures Segments("/tmp/new") == ["tmp", "new"]
    ensures Segments("original") == ["original"]
  {
    assert "/tmp/new" == "/" + JoinPath(["tmp", "new"]);
    SegmentsOfAbsolute(["tmp", "new"]);
    SegmentsOfJoin(["original"]);
  }

  /** Following a relative link `new` to the sibling directory `original`. */
  lemma ResolveSiblingLink(tmp: Node, original: Node)
    requires tmp.Directory? && original.Directory?
    requires Child(tmp.entries, "new") == Some(Symlink("original"))
    requires Child(tmp.entries, "original") == Some(original)
    ensures ResolveRoot(FileSystem(tmp), "/tmp/new") == Ok(Located(["tmp", "original"], original))
  {
    var fs := FileSystem(tmp);
    NewSegments();
    assert Child(fs.entries, "tmp") == Some(tmp);
    ResolveDown(fs, [], fs, "tmp", ["new"], MaxSymlinkHops);
    ResolveRelativeLink(fs, ["tmp"], tmp, "new", "original", [], MaxSymlinkHops);
    ResolveDown(fs, ["tmp"], tmp, "original", [], MaxSymlinkHops - 1);
    SiblingLinkPieces();
  }

  lemma SiblingLinkPieces()
    ensures [] + ["tmp"] == ["tmp"] && ["tmp"] + ["new"] == ["tmp", "new"]
    ensures ["new"] + [] == ["new"] && ["original"] + [] == ["original"]
    ensures ["tmp"] + ["original"] == ["tmp", "original"]
  {
  }

  /** In the symlink test, the root `/tmp/new` resolves to the directory `original`. */
  lemma NewResolvesToOriginal()
    ensures ResolveRoot(FileSystem(LinkedFixture), "/tmp/new") == Ok(Located(["tmp", "original"], Original))
  {
    ChildFound(LinkedFixture.entries, 4);
    ChildFound(LinkedFixture.entries, 5);
    ResolveSiblingLink(LinkedFixture, Original);
  }

  /** A name the temporary directory does not hold cannot be resolved. */
  lemma MissingEntryNotFound(tmp: Node, name: string, path: string)
    requires tmp.Directory? && Segments(path) == ["tmp", name] && name != ".." && Child(tmp.entries, name).None?
    ensures ResolveRoot(FileSystem(tmp), path) == Err(RootNotFound)
  {
    var fs := FileSystem(tmp);
    assert Child(fs.entries, "tmp") == Some(tmp);
    ResolveDown(fs, [], fs, "tmp", [name], MaxSymlinkHops);
    assert [] + ["tmp"] == ["tmp"] && ["tmp"] + [name] == ["tmp", name];
  }

  lemma DoesntLiveHereSegments()
    ensures Segments("/tmp/doesntlivehere") == ["tmp", "doesntlivehere"]
  {
    assert "/tmp/doesntlivehere" == "/" + JoinPath(["tmp", "doesntlivehere"]);
    SegmentsOfAbsolute(["tmp", "doesntlivehere"]);
  }

  lemma DoesntLiveHereIsMissing()
    ensures Child(Fixture.entries, "doesntlivehere").None?
  {
    assert forall i :: 0 <= i < |Fixture.entries| ==> Fixture.entries[i].name != "doesntlivehere";
  }

  /** The root `/tmp/doesntlivehere` names nothing in the fixture. */
  lemma DoesntLiveHereNotFound()
    ensures ResolveRoot(FileSystem(Fixture), "/tmp/doesntlivehere") == Err(RootNotFound)
  {
    DoesntLiveHereSegments();
    DoesntLiveHereIsMissing();
    MissingEntryNotFound(Fixture, "doesntlivehere", "/tmp/doesntlivehere");
  }

  function DirItem(relPath: string): FileItem
  {
    FileItem(relPath, Some(DirectoryFileType), "", None)
  }

  function FileAt(relPath: string): FileItem
  {
    FileItem(relPath, Some(RegularFileType), "", None)
  }

  function LinkAt(relPath: string, link: string): FileItem
  {
    FileItem(relPath, Some(SymlinkFileType), link, None)
  }

  /** Options without inclusion patterns and without a type filter: only skip-root and the depth limit act. */
  predicate NoGates(o: Options)
  {
    o.fnmatchPatterns == [] && o.fileTypes == {}
  }

  lemma UngatedLeaf(relPath: string, node: Node, depth: nat, o: Options)
    requires NoGates(o) && !node.Directory?
    ensures WalkNode(relPath, node, depth, o) == [ItemFor(relPath, node)]
  {
  }

  /** A directory the depth limit does not let the walk enter yields its own item only. */
  lemma ClosedDirectory(relPath: string, dir: Node, depth: nat, o: Options)
    requires NoGates(o) && dir.Directory? && !MayDescend(o.maxRecurseDepth, depth)
    ensures WalkNode(relPath, dir, depth, o) == [ItemFor(relPath, dir)]
  {
  }

  lemma EntriesAt(dir: Node, entries: seq<DirEntry>, i: nat, parent: string, depth: nat, o: Options)
    requires dir.Directory? && forall e | e in entries :: e in dir.entries
    requires i < |entries|
    ensures WalkEntries(dir, entries[i..], parent, depth, o) ==
      WalkNode(ChildPath(parent, entries[i].name), entries[i].node, depth, o) + WalkEntries(dir, entries[i + 1..], parent, depth, o)
  {
    assert entries[i..][1..] == entries[i + 1..];
  }

  /** An entered directory listed in name order: the directory, then its entries' subtrees. */
  lemma OpenDirectory(relPath: string, entries: seq<DirEntry>, depth: nat, o: Options)
    requires NoGates(o) && MayDescend(o.maxRecurseDepth, depth) && SortByName(entries) == entries
    ensures WalkNode(relPath, Directory(entries), depth, o) ==
      [ItemFor(relPath, Directory(entries))] + WalkEntries(Directory(entries), entries, relPath, depth + 1, o)
  {
    SortKeepsEntries(entries);
    assert WalkChildren(relPath, Directory(entries), depth + 1, o) == WalkEntries(Directory(entries), entries, relPath, depth + 1, o);
  }

  /** An entered directory with one entry, whose path is `pathA`. */
  lemma OneEntryDirectory(relPath: string, a: DirEntry, pathA: string, depth: nat, o: Options)
    requires NoGates(o) && MayDescend(o.maxRecurseDepth, depth) && pathA == ChildPath(relPath, a.name)
    ensures WalkNode(relPath, Directory([a]), depth, o) ==
      [ItemFor(relPath, Directory([a]))] + WalkNode(pathA, a.node, depth + 1, o)
  {
    var es := [a];
    assert SortByName(es) == es;
    OpenDirectory(relPath, es, depth, o);
    EntriesAt(Directory(es), es, 0, relPath, depth + 1, o);
    assert es[0..] == es && es[1..] == [];
  }

  lemma TwoEntriesWalk(dir: Node, a: DirEntry, b: DirEntry, relPath: string, depth: nat, o: Options)
    requires dir == Directory([a, b])
    ensures WalkEntries(dir, [a, b], relPath, depth, o) ==
      WalkNode(ChildPath(relPath, a.name), a.node, depth, o) + WalkNode(ChildPath(relPath, b.name), b.node, depth, o)
  {
    var es := [a, b];
    EntriesAt(dir, es, 0, relPath, depth, o);
    EntriesAt(dir, es, 1, relPath, depth, o);
    assert es[0..] == es && es[2..] == [];
  }

  /** An entered directory with two entries in name order, at paths `pathA` and `pathB`. */
  lemma TwoEntryDirectory(relPath: string, a: DirEntry, b: DirEntry, pathA: string, pathB: string, depth: nat, o: Options)
    requires NoGates(o) && MayDescend(o.maxRecurseDepth, depth)
    requires NameLe(a.name, b.name) && a.name != b.name
    requires pathA == ChildPath(relPath, a.name) && pathB == ChildPath(relPath, b.name)
    ensures WalkNode(relPath, Directory([a, b]), depth, o) ==
      [ItemFor(relPath, Directory([a, b]))] + (WalkNode(pathA, a.node, depth + 1, o) + WalkNode(pathB, b.node, depth + 1, o))
  {
    SortingAnAscendingListingKeepsIt([a, b]);
    OpenDirectory(relPath, [a, b], depth, o);
    TwoEntriesWalk(Directory([a, b]), a, b, relPath, depth + 1, o);
  }

  lemma FourEntriesSorted(a: DirEntry, b: DirEntry, c: DirEntry, d: DirEntry)
    requires NameLe(a.name, b.name) && a.name != b.name
    requires NameLe(b.name, c.name) && b.name != c.name
    requires NameLe(c.name, d.name) && c.name != d.name
    ensures SortByName([a, b, c, d]) == [a, b, c, d]
  {
    SortingAnAscendingListingKeepsIt([a, b, c, d]);
  }

  lemma FourEntriesWalk(root: Node, a: DirEntry, b: DirEntry, c: DirEntry, d: DirEntry, o: Options)
    requires root == Directory([a, b, c, d])
    ensures WalkEntries(root, [a, b, c, d], ".", 1, o) ==
      WalkNode(a.name, a.node, 1, o) + (WalkNode(b.name, b.node, 1, o) + (WalkNode(c.name, c.node, 1, o) + (WalkNode(d.name, d.node, 1, o) + [])))
  {
    var es := [a, b, c, d];
    EntriesAt(root, es, 0, ".", 1, o);
    EntriesAt(root, es, 1, ".", 1, o);
    EntriesAt(root, es, 2, ".", 1, o);
    EntriesAt(root, es, 3, ".", 1, o);
    assert es[0..] == es && es[4..] == [];
  }

  /** A directory root listed in name order: the root unless skipped, then its entries' subtrees. */
  lemma DirectoryRoot(root: Node, baseName: string, o: Options)
    requires NoGates(o) && root.Directory? && SortByName(root.entries) == root.entries
    ensures WalkRoot(root, baseName, o) ==
      (if o.skipRoot then [] else [ItemFor(".", root)]) + WalkEntries(root, root.entries, ".", 1, o)
  {
    SortKeepsEntries(root.entries);
    assert WalkChildren(".", root, 1, o) == WalkEntries(root, root.entries, ".", 1, o);
  }

  /** A directory root with a single entry. */
  lemma OneEntryRoot(a: DirEntry, baseName: string, o: Options)
    requires NoGates(o)
    ensures WalkRoot(Directory([a]), baseName, o) ==
      (if o.skipRoot then [] else [ItemFor(".", Directory([a]))]) + WalkNode(a.name, a.node, 1, o)
  {
    var root := Directory([a]);
    assert SortByName(root.entries) == root.entries;
    DirectoryRoot(root, baseName, o);
    EntriesAt(root, root.entries, 0, ".", 1, o);
    assert root.entries[0..] == root.entries && root.entries[1..] == [];
  }

  /** What the symlink test walks: the directory `original` and its file. */
  lemma OriginalWalk(o: Options)
    requires NoGates(o) && !o.skipRoot
    ensures WalkRoot(Original, "new", o) == [DirItem("."), FileAt("original.txt")]
  {
    OneEntryRoot(DirEntry("original.txt", RegularFile), "new", o);
    UngatedLeaf("original.txt", RegularFile, 1, o);
  }

  /** A directory root with four entries in name order. */
  lemma FourEntryRoot(a: DirEntry, b: DirEntry, c: DirEntry, d: DirEntry, baseName: string, o: Options)
    requires NoGates(o)
    requires NameLe(a.name, b.name) && a.name != b.name
    requires NameLe(b.name, c.name) && b.name != c.name
    requires NameLe(c.name, d.name) && c.name != d.name
    ensures WalkRoot(Directory([a, b, c, d]), baseName, o) ==
      (if o.skipRoot then [] else [ItemFor(".", Directory([a, b, c, d]))]) +
      (WalkNode(a.name, a.node, 1, o) + (WalkNode(b.name, b.node, 1, o) + (WalkNode(c.name, c.node, 1, o) + (WalkNode(d.name, d.node, 1, o) + []))))
  {
    var root := Directory([a, b, c, d]);
    FourEntriesSorted(a, b, c, d);
    DirectoryRoot(root, baseName, o);
    FourEntriesWalk(root, a, b, c, d, o);
  }

  const DevItems := [DirItem("dev"), FileAt("dev/random")]
  const CertsItems := [DirItem("etc/certs"), FileAt("etc/certs/ca.crt")]
  const EtcItems := [DirItem("etc")] + (CertsItems + [FileAt("etc/hostname")])
  const LibItems := [DirItem("lib"), FileAt("lib/dynalib.so")]
  const BinItems := [DirItem("usr/bin")] + ([FileAt("usr/bin/cp")] + [LinkAt("usr/bin/mv", "/usr/bin/cp")])
  const UsrItems := [DirItem("usr")] + BinItems

  /** What the second-level directories yield when the limit stops the walk at depth 2. */
  const EtcToDepthTwo := [DirItem("etc")] + ([DirItem("etc/certs")] + [FileAt("etc/hostname")])
  const UsrToDepthTwo := [DirItem("usr")] + [DirItem("usr/bin")]

  lemma DevWalk(o: Options)
    requires NoGates(o) && MayDescend(o.maxRecurseDepth, 1)
    ensures WalkNode("dev", Dev, 1, o) == DevItems
  {
    OneEntryDirectory("dev", DirEntry("random", RegularFile), "dev/random", 1, o);
    UngatedLeaf("dev/random", RegularFile, 2, o);
  }

  lemma CertsWalk(o: Options)
    requires NoGates(o) && MayDescend(o.maxRecurseDepth, 2)
    ensures WalkNode("etc/certs", Certs, 2, o) == CertsItems
  {
    OneEntryDirectory("etc/certs", DirEntry("ca.crt", RegularFile), "etc/certs/ca.crt", 2, o);
    UngatedLeaf("etc/certs/ca.crt", RegularFile, 3, o);
  }

  lemma EtcWalk(o: Options)
    requires NoGates(o) && MayDescend(o.maxRecurseDepth, 1)
    ensures WalkNode("etc", Etc, 1, o) == if MayDescend(o.maxRecurseDepth, 2) then EtcItems else EtcToDepthTwo
  {
    assert NameLe("certs", "hostname");
    TwoEntryDirectory("etc", DirEntry("certs", Certs), DirEntry("hostname", RegularFile), "etc/certs", "etc/hostname", 1, o);
    if MayDescend(o.maxRecurseDepth, 2) {
      CertsWalk(o);
    } else {
      ClosedDirectory("etc/certs", Certs, 2, o);
    }
    UngatedLeaf("etc/hostname", RegularFile, 2, o);
  }

  lemma LibWalk(o: Options)
    requires NoGates(o) && MayDescend(o.maxRecurseDepth, 1)
    ensures WalkNode("lib", Lib, 1, o) == LibItems
  {
    OneEntryDirectory("lib", DirEntry("dynalib.so", RegularFile), "lib/dynalib.so", 1, o);
    UngatedLeaf("lib/dynalib.so", RegularFile, 2, o);
  }

  lemma BinWalk(o: Options)
    requires NoGates(o) && MayDescend(o.maxRecurseDepth, 2)
    ensures WalkNode("usr/bin", Bin, 2, o) == BinItems
  {
    assert NameLe("cp", "mv");
    TwoEntryDirectory("usr/bin", DirEntry("cp", RegularFile), DirEntry("mv", Symlink("/usr/bin/cp")), "usr/bin/cp", "usr/bin/mv", 2, o);
    UngatedLeaf("usr/bin/cp", RegularFile, 3, o);
    UngatedLeaf("usr/bin/mv", Symlink("/usr/bin/cp"), 3, o);
  }

  lemma UsrWalk(o: Options)
    requires NoGates(o) && MayDescend(o.maxRecurseDepth, 1)
    ensures WalkNode("usr", Usr, 1, o) == if MayDescend(o.maxRecurseDepth, 2) then UsrItems else UsrToDepthTwo
  {
    OneEntryDirectory("usr", DirEntry("bin", Bin), "usr/bin", 1, o);
    if MayDescend(o.maxRecurseDepth, 2) {
      BinWalk(o);
    } else {
      ClosedDirectory("usr/bin", Bin, 2, o);
    }
  }

  /** Everything below the temporary directory in walk order, and what a depth limit of 2 and of 1 leaves of it. */
  const Below := DevItems + (EtcItems + (LibItems + (UsrItems + [])))
  const BelowToDepthTwo := DevItems + (EtcToDepthTwo + (LibItems + (UsrToDepthTwo + [])))
  const BelowToDepthOne := [DirItem("dev")] + ([DirItem("etc")] + ([DirItem("lib")] + ([DirItem("usr")] + [])))

  /** The items below the root that a walk with maximum recursion depth `m` reports. */
  function BelowWithin(m: int): seq<FileItem>
  {
    if m < 0 || m >= 3 then Below else if m == 2 then BelowToDepthTwo else BelowToDepthOne
  }

  lemma FixtureTop(o: Options)
    requires NoGates(o)
    ensures WalkRoot(Fixture, "tmp", o) ==
      (if o.skipRoot then [] else [DirItem(".")]) +
      (WalkNode("dev", Dev, 1, o) + (WalkNode("etc", Etc, 1, o) + (WalkNode("lib", Lib, 1, o) + (WalkNode("usr", Usr, 1, o) + []))))
  {
    assert NameLe("dev", "etc") && NameLe("etc", "lib") && NameLe("lib", "usr");
    FourEntryRoot(DirEntry("dev", Dev), DirEntry("etc", Etc), DirEntry("lib", Lib), DirEntry("usr", Usr), "tmp", o);
  }

  /**
   * Without patterns or a type filter the fixture walk is the tree in
   * pre-order with siblings by name, root first unless skipped, cut below the
   * depth limit.
   */
  lemma FixtureWalk(o: Options)
    requires NoGates(o)
    ensures WalkRoot(Fixture, "tmp", o) == (if o.skipRoot then [] else [DirItem(".")]) + BelowWithin(o.maxRecurseDepth)
  {
    FixtureTop(o);
    if MayDescend(o.maxRecurseDepth, 1) {
      OpenTopLevel(o);
    } else {
      ClosedTopLevel(o);
    }
  }

  lemma OpenTopLevel(o: Options)
    requires NoGates(o) && MayDescend(o.maxRecurseDepth, 1)
    ensures WalkNode("dev", Dev, 1, o) + (WalkNode("etc", Etc, 1, o) + (WalkNode("lib", Lib, 1, o) + (WalkNode("usr", Usr, 1, o) + []))) ==
      BelowWithin(o.maxRecurseDepth)
  {
    DevWalk(o);
    EtcWalk(o);
    LibWalk(o);
    UsrWalk(o);
  }

  lemma ClosedTopLevel(o: Options)
    requires NoGates(o) && !MayDescend(o.maxRecurseDepth, 1)
    ensures WalkNode("dev", Dev, 1, o) + (WalkNode("etc", Etc, 1, o) + (WalkNode("lib", Lib, 1, o) + (WalkNode("usr", Usr, 1, o) + []))) ==
      BelowWithin(o.maxRecurseDepth)
  {
    ClosedDirectory("dev", Dev, 1, o);
    ClosedDirectory("etc", Etc, 1, o);
    ClosedDirectory("lib", Lib, 1, o);
    ClosedDirectory("usr", Usr, 1, o);
  }
}
