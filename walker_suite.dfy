/**
 * The walker tests replayed on the in-memory fixture: the loop each test runs
 * to drain the stream of items, and one method per test that starts the walk
 * with the test's options and ends with exactly the relative paths the test
 * expects, every check of the loop satisfied.
 */
module WalkerSuite {
  import opened Results
  import opened Glob
  import opened FileTree
  import opened RootResolver
  import opened Walker
  import opened WalkerLaws
  import opened WalkerFixture

  /** The relative paths of the items, in order. */
  function RelPaths(items: seq<FileItem>): (paths: seq<string>)
    ensures |paths| == |items|
    ensures forall i :: 0 <= i < |items| ==> paths[i] == items[i].relPath
  {
    if items == [] then [] else [items[0].relPath] + RelPaths(items[1..])
  }

  lemma {:induction false} RelPathsAppend(a: seq<FileItem>, b: seq<FileItem>)
    ensures RelPaths(a + b) == RelPaths(a) + RelPaths(b)
    decreases |a|
  {
    if a != [] {
      assert (a + b)[1..] == a[1..] + b;
      RelPathsAppend(a[1..], b);
    }
  }

  lemma RelPathsOfOneMore(items: seq<FileItem>, i: nat)
    requires i < |items|
    ensures RelPaths(items[..i + 1]) == RelPaths(items[..i]) + [items[i].relPath]
  {
    assert items[..i + 1] == items[..i] + [items[i]];
    RelPathsAppend(items[..i], [items[i]]);
  }

  /** The position of the first item that carries an error, or the length when none does. */
  function FirstError(items: seq<FileItem>): (k: nat)
    ensures k <= |items|
    ensures forall i :: 0 <= i < k ==> items[i].error.None?
    ensures k < |items| ==> items[k].error.Some?
  {
    if items == [] then 0
    else if items[0].error.Some? then 0
    else 1 + FirstError(items[1..])
  }

  /** The link a test expects on one relative path, if it checks one. */
  datatype LinkCheck = NoLinkCheck | CheckLink(relPath: string, link: string)

  predicate LinkAgrees(check: LinkCheck, item: FileItem)
  {
    check.NoLinkCheck? || item.relPath != check.relPath || item.link == check.link
  }

  /**
   * The loop of a test over the stream: an item with an error stops the test
   * at once; otherwise its path is appended and, on the checked path, its link
   * compared with the expected one (a mismatch fails the test but the loop
   * goes on).
   */
  method Drain(items: seq<FileItem>, check: LinkCheck) returns (relPaths: seq<string>, stopped: bool, linksAgree: bool)
    ensures stopped <==> exists i :: 0 <= i < |items| && items[i].error.Some?
    ensures relPaths == RelPaths(items[..FirstError(items)])
    ensures linksAgree <==> forall i :: 0 <= i < FirstError(items) ==> LinkAgrees(check, items[i])
  {
    relPaths, stopped, linksAgree := [], false, true;
    var i := 0;
    while i < |items| && !stopped
      invariant 0 <= i <= |items|
      invariant forall j :: 0 <= j < i ==> items[j].error.None?
      invariant stopped ==> i < |items| && items[i].error.Some?
      invariant relPaths == RelPaths(items[..i])
      invariant linksAgree <==> forall j :: 0 <= j < i ==> LinkAgrees(check, items[j])
      decreases |items| - i, !stopped
    {
      var item := items[i];
      if item.error.Some? {
        stopped := true;
      } else {
        RelPathsOfOneMore(items, i);
        relPaths := relPaths + [item.relPath];
        if check.CheckLink? && item.relPath == check.relPath && item.link != check.link {
          linksAgree := false;
        }
        i := i + 1;
      }
    }
    assert i == FirstError(items);
  }

  /** An item stream without errors is drained to the end. */
  lemma CleanStreamRunsToTheEnd(items: seq<FileItem>)
    requires forall item | item in items :: item.error.None?
    ensures FirstError(items) == |items| && items[..FirstError(items)] == items
  {
  }

  /**
   * One walker test: a walk that fails to start fails the test with no path
   * collected; otherwise the stream is drained, and the test passes when no
   * item carries an error and every checked link agrees.
   */
  method RunWalkTest(fs: Node, rootPath: string, options: seq<WalkerOption>, check: LinkCheck)
    returns (relPaths: seq<string>, passed: bool)
    ensures Walk(fs, rootPath, options).Err? ==> relPaths == [] && !passed
    ensures Walk(fs, rootPath, options).Ok? ==>
      var items := Walk(fs, rootPath, options).value;
      relPaths == RelPaths(items[..FirstError(items)]) &&
      (passed <==> forall i :: 0 <= i < |items| ==> items[i].error.None? && LinkAgrees(check, items[i]))
  {
    var walked := Walk(fs, rootPath, options);
    if walked.Err? {
      return [], false;
    }
    var stopped, linksAgree;
    relPaths, stopped, linksAgree := Drain(walked.value, check);
    passed := !stopped && linksAgree;
  }

  /** A walk whose root resolves walks the resolved node under the last name of the path it was found at. */
  lemma WalkOfResolvedRoot(fs: Node, rootPath: string, options: seq<WalkerOption>, root: Located)
    requires ResolveRoot(fs, rootPath) == Ok(root)
    ensures Walk(fs, rootPath, options) == Ok(WalkRoot(root.node, LastName(root.path), BuildOptions(options)))
  {
  }

  /**
   * A walk of the fixture below `/tmp` with neither patterns nor a type
   * filter: the root unless skipped, then the tree down to the depth limit;
   * no item carries an error.
   */
  lemma UngatedRun(options: seq<WalkerOption>, o: Options)
    requires BuildOptions(options) == o && NoGates(o)
    ensures Walk(FileSystem(Fixture), TmpDir, options) ==
      Ok((if o.skipRoot then [] else [DirItem(".")]) + BelowWithin(o.maxRecurseDepth))
    ensures forall item | item in (if o.skipRoot then [] else [DirItem(".")]) + BelowWithin(o.maxRecurseDepth) ::
      item.error.None?
  {
    TmpResolves(Fixture);
    WalkOfResolvedRoot(FileSystem(Fixture), TmpDir, options, Located(["tmp"], Fixture));
    FixtureWalk(o);
    FixtureIsValid();
    FixtureIsReadable();
    ItemsWellFormed(Fixture, "tmp", o);
  }

  // TestIterationDir

  /** The walk the directory test starts: skip-root, no other option. */
  lemma DirScenario(options: seq<WalkerOption>)
    requires BuildOptions(options) == Options(true, -1, [], {})
    ensures Walk(FileSystem(Fixture), TmpDir, options) == Ok(Below)
    ensures forall item | item in Below :: item.error.None?
  {
    var o := Options(true, -1, [], {});
    UngatedRun(options, o);
    var walked := (if o.skipRoot then [] else [DirItem(".")]) + BelowWithin(o.maxRecurseDepth);
    assert walked == Below;
  }

  lemma SubtreePaths()
    ensures RelPaths(DevItems) == ["dev", "dev/random"]
    ensures RelPaths(EtcItems) == ["etc", "etc/certs", "etc/certs/ca.crt", "etc/hostname"]
    ensures RelPaths(LibItems) == ["lib", "lib/dynalib.so"]
    ensures RelPaths(UsrItems) == ["usr", "usr/bin", "usr/bin/cp", "usr/bin/mv"]
  {
    RelPathsAppend(CertsItems, [FileAt("etc/hostname")]);
    RelPathsAppend([DirItem("etc")], CertsItems + [FileAt("etc/hostname")]);
    RelPathsAppend([FileAt("usr/bin/cp")], [LinkAt("usr/bin/mv", "/usr/bin/cp")]);
    RelPathsAppend([DirItem("usr/bin")], [FileAt("usr/bin/cp")] + [LinkAt("usr/bin/mv", "/usr/bin/cp")]);
    RelPathsAppend([DirItem("usr")], BinItems);
  }

  lemma RelPathsOfFour(a: seq<FileItem>, b: seq<FileItem>, c: seq<FileItem>, d: seq<FileItem>)
    ensures RelPaths(a + (b + (c + (d + [])))) == RelPaths(a) + (RelPaths(b) + (RelPaths(c) + RelPaths(d)))
  {
    assert d + [] == d;
    RelPathsAppend(c, d);
    RelPathsAppend(b, c + d);
    RelPathsAppend(a, b + (c + d));
  }

  lemma BelowPaths()
    ensures RelPaths(Below) == ["dev", "dev/random", "etc", "etc/certs", "etc/certs/ca.crt", "etc/hostname",
      "lib", "lib/dynalib.so", "usr", "usr/bin", "usr/bin/cp", "usr/bin/mv"]
  {
    RelPathsOfFour(DevItems, EtcItems, LibItems, UsrItems);
    SubtreePaths();
  }

  /** Of the fixture's items, only `usr/bin/mv` is checked, and it holds the raw link text. */
  lemma MvLinkAgrees()
    ensures forall item | item in Below :: LinkAgrees(CheckLink("usr/bin/mv", "/usr/bin/cp"), item)
  {
  }

  /**
   * With skip-root, the walk of the fixture lists every path below the root in
   * pre-order, siblings by name, and `usr/bin/mv` carries the raw link
   * `/usr/bin/cp`.
   */
  method DirTest(options: seq<WalkerOption>) returns (relPaths: seq<string>, passed: bool)
    requires BuildOptions(options) == Options(true, -1, [], {})
    ensures relPaths == ["dev", "dev/random", "etc", "etc/certs", "etc/certs/ca.crt", "etc/hostname",
      "lib", "lib/dynalib.so", "usr", "usr/bin", "usr/bin/cp", "usr/bin/mv"]
    ensures passed
  {
    DirScenario(options);
    CleanStreamRunsToTheEnd(Below);
    BelowPaths();
    MvLinkAgrees();
    relPaths, passed := RunWalkTest(FileSystem(Fixture), TmpDir, options, CheckLink("usr/bin/mv", "/usr/bin/cp"));
  }

  /** The test as written: skip-root. */
  method IterationDir() returns (relPaths: seq<string>, passed: bool)
    ensures relPaths == ["dev", "dev/random", "etc", "etc/certs", "etc/certs/ca.crt", "etc/hostname",
      "lib", "lib/dynalib.so", "usr", "usr/bin", "usr/bin/cp", "usr/bin/mv"]
    ensures passed
  {
    var options := [WithSkipRoot];
    assert BuildOptions(options) == Options(true, -1, [], {});
    relPaths, passed := DirTest(options);
  }

  // TestIterationFilter

  lemma KeepTwo(g: Gate, x: FileItem, y: FileItem)
    ensures Keep(g, [x, y]) == Keep(g, [x]) + Keep(g, [y])
  {
    assert [x, y] == [x] + [y];
    KeepAppend(g, [x], [y]);
  }

  lemma KeepOfFour(g: Gate, a: seq<FileItem>, b: seq<FileItem>, c: seq<FileItem>, d: seq<FileItem>)
    ensures Keep(g, a + (b + (c + (d + [])))) == Keep(g, a) + (Keep(g, b) + (Keep(g, c) + (Keep(g, d) + [])))
  {
    KeepAppend(g, d, []);
    KeepAppend(g, c, d + []);
    KeepAppend(g, b, c + (d + []));
    KeepAppend(g, a, b + (c + (d + [])));
  }

  /** The inclusion patterns of the filter test. */
  const TestPatterns := ["dev/*", "lib"]
  const Picked := PatternGate(TestPatterns)

  lemma TestPatternsMatch(name: string)
    ensures AnyMatch(TestPatterns, name) <==> Match("dev/*", name) || name == "lib"
  {
    LiteralMatchesOnlyItself("lib", name);
    AnyMatchOfTwo("dev/*", "lib", name);
  }

  /** A name that does not start like `dev` and is not `lib` matches neither pattern. */
  lemma OutsideDev(name: string)
    requires name != [] && name[0] != 'd' && name != "lib"
    ensures !AnyMatch(TestPatterns, name)
  {
    TestPatternsMatch(name);
  }

  /** `dev` itself is not an entry of `dev`. */
  lemma DevNotPicked()
    ensures Keep(Picked, [DirItem("dev")]) == []
  {
    TestPatternsMatch("dev");
    assert "dev" + "/*" == "dev/*";
    DirectoryStar("dev", "dev");
  }

  lemma DevRandomMatches()
    ensures Match("dev/*", "dev/random")
  {
    assert "dev" + "/*" == "dev/*";
    DirectoryStarChild("dev", "random");
    assert "dev" + "/" + "random" == "dev/random";
  }

  lemma DevRandomPicked()
    ensures Keep(Picked, [FileAt("dev/random")]) == [FileAt("dev/random")]
  {
    TestPatternsMatch("dev/random");
    DevRandomMatches();
    assert PatternsAdmit(TestPatterns, "dev/random");
  }

  lemma PickedFromDev()
    ensures Keep(Picked, DevItems) == [FileAt("dev/random")]
  {
    KeepTwo(Picked, DirItem("dev"), FileAt("dev/random"));
    DevNotPicked();
    DevRandomPicked();
  }

  lemma PickedFromEtc()
    ensures Keep(Picked, EtcItems) == []
  {
    OutsideDev("etc");
    OutsideDev("etc/certs");
    OutsideDev("etc/certs/ca.crt");
    OutsideDev("etc/hostname");
    KeepNone(Picked, EtcItems);
  }

  lemma PickedFromLib()
    ensures Keep(Picked, LibItems) == [DirItem("lib")]
  {
    KeepTwo(Picked, DirItem("lib"), FileAt("lib/dynalib.so"));
    TestPatternsMatch("lib");
    OutsideDev("lib/dynalib.so");
  }

  lemma PickedFromUsr()
    ensures Keep(Picked, UsrItems) == []
  {
    OutsideDev("usr");
    OutsideDev("usr/bin");
    OutsideDev("usr/bin/cp");
    OutsideDev("usr/bin/mv");
    KeepNone(Picked, UsrItems);
  }

  /** The filter test's patterns keep `dev/random` and `lib` and nothing else of the tree below the root. */
  lemma PickedFromBelow()
    ensures Keep(Picked, Below) == [FileAt("dev/random"), DirItem("lib")]
  {
    KeepOfFour(Picked, DevItems, EtcItems, LibItems, UsrItems);
    PickedFromDev();
    PickedFromEtc();
    PickedFromLib();
    PickedFromUsr();
  }

  /** The walk the filter test starts: skip-root and the test's two patterns. */
  lemma FilterScenario(options: seq<WalkerOption>)
    requires BuildOptions(options) == Options(true, -1, TestPatterns, {})
    ensures Walk(FileSystem(Fixture), TmpDir, options) == Ok([FileAt("dev/random"), DirItem("lib")])
  {
    var o := BuildOptions(options);
    var ungated := o.(fnmatchPatterns := []);
    TmpResolves(Fixture);
    WalkOfResolvedRoot(FileSystem(Fixture), TmpDir, options, Located(["tmp"], Fixture));
    PatternFilterLaw(Fixture, "tmp", o);
    FixtureWalk(ungated);
    var below := [] + BelowWithin(-1);
    assert WalkRoot(Fixture, "tmp", ungated) == below;
    assert below == Below;
    PickedFromBelow();
  }

  lemma FilterOptions()
    ensures BuildOptions([WithSkipRoot, WithFnmatchPatterns(TestPatterns)]) == Options(true, -1, TestPatterns, {})
  {
  }

  lemma FilterOutcome()
    ensures forall item | item in [FileAt("dev/random"), DirItem("lib")] ::
      item.error.None? && LinkAgrees(CheckLink("usr/bin/mv", "/usr/bin/cp"), item)
    ensures RelPaths([FileAt("dev/random"), DirItem("lib")]) == ["dev/random", "lib"]
  {
  }

  /**
   * Inclusion patterns are matched against the whole relative path: the
   * pattern for the entries of `dev` picks `dev/random` but not `dev`, `lib`
   * picks the directory but not its file, and the directories the patterns do
   * not name are still entered.
   */
  method FilterTest(options: seq<WalkerOption>) returns (relPaths: seq<string>, passed: bool)
    requires BuildOptions(options) == Options(true, -1, TestPatterns, {})
    ensures relPaths == ["dev/random", "lib"]
    ensures passed
  {
    FilterScenario(options);
    FilterOutcome();
    CleanStreamRunsToTheEnd([FileAt("dev/random"), DirItem("lib")]);
    relPaths, passed := RunWalkTest(FileSystem(Fixture), TmpDir, options, CheckLink("usr/bin/mv", "/usr/bin/cp"));
  }

  /** The test as written: skip-root and the two patterns. */
  method IterationFilter() returns (relPaths: seq<string>, passed: bool)
    ensures relPaths == ["dev/random", "lib"]
    ensures passed
  {
    var options := [WithSkipRoot, WithFnmatchPatterns(TestPatterns)];
    FilterOptions();
    relPaths, passed := FilterTest(options);
  }

  // TestIterationMaxRecurseDepth

  /** Every path of the fixture, root first, in walk order. */
  const AllPaths := ["."] + ["dev", "dev/random", "etc", "etc/certs", "etc/certs/ca.crt", "etc/hostname",
    "lib", "lib/dynalib.so", "usr", "usr/bin", "usr/bin/cp", "usr/bin/mv"]

  /**
   * The paths a walk with maximum recursion depth `maxDepth` reports: all of
   * them without a limit or with one of 3 or more, two levels with 2, and one
   * level with 1 or 0.
   */
  function PathsWithin(maxDepth: int): (paths: seq<string>)
    ensures |paths| > 0 && paths[0] == "."
    ensures maxDepth < 0 || maxDepth >= 3 ==> paths == AllPaths
  {
    if maxDepth < 0 || maxDepth >= 3 then AllPaths
    else if maxDepth == 2 then ["."] + ["dev", "dev/random", "etc", "etc/certs", "etc/hostname", "lib", "lib/dynalib.so", "usr", "usr/bin"]
    else ["."] + ["dev", "etc", "lib", "usr"]
  }

  lemma DepthScenario(options: seq<WalkerOption>, maxDepth: int)
    requires BuildOptions(options) == Options(false, maxDepth, [], {})
    ensures Walk(FileSystem(Fixture), TmpDir, options) == Ok([DirItem(".")] + BelowWithin(maxDepth))
    ensures forall item | item in [DirItem(".")] + BelowWithin(maxDepth) :: item.error.None?
  {
    UngatedRun(options, Options(false, maxDepth, [], {}));
  }

  lemma BelowToDepthTwoPaths()
    ensures RelPaths(BelowToDepthTwo) == ["dev", "dev/random", "etc", "etc/certs", "etc/hostname", "lib", "lib/dynalib.so", "usr", "usr/bin"]
  {
  }

  lemma BelowToDepthOnePaths()
    ensures RelPaths(BelowToDepthOne) == ["dev", "etc", "lib", "usr"]
  {
  }

  lemma AllPathsOfFixture()
    ensures RelPaths([DirItem(".")] + Below) == AllPaths
  {
    RelPathsOfRootAndBelow(Below);
    BelowPaths();
  }

  lemma PathsToDepthTwo()
    ensures RelPaths([DirItem(".")] + BelowToDepthTwo) == PathsWithin(2)
  {
    RelPathsOfRootAndBelow(BelowToDepthTwo);
    BelowToDepthTwoPaths();
  }

  lemma PathsToDepthOne()
    ensures RelPaths([DirItem(".")] + BelowToDepthOne) == PathsWithin(1)
  {
    RelPathsOfRootAndBelow(BelowToDepthOne);
    BelowToDepthOnePaths();
  }

  lemma DepthOutcome(maxDepth: int)
    ensures RelPaths([DirItem(".")] + BelowWithin(maxDepth)) == PathsWithin(maxDepth)
  {
    if maxDepth < 0 || maxDepth >= 3 {
      AllPathsOfFixture();
    } else if maxDepth == 2 {
      PathsToDepthTwo();
    } else {
      PathsToDepthOne();
      assert PathsWithin(maxDepth) == PathsWithin(1);
    }
  }

  lemma RelPathsOfRootAndBelow(below: seq<FileItem>)
    ensures RelPaths([DirItem(".")] + below) == ["."] + RelPaths(below)
  {
    assert ([DirItem(".")] + below)[1..] == below;
  }

  /** One row of the depth test: the walk with root and the given maximum recursion depth. */
  method IterationAtDepth(maxDepth: int) returns (result: seq<string>, passed: bool)
    ensures result == PathsWithin(maxDepth)
    ensures passed
  {
    var options := [WithMaxRecurseDepth(maxDepth)];
    assert BuildOptions(options) == Options(false, maxDepth, [], {});
    DepthScenario(options, maxDepth);
    CleanStreamRunsToTheEnd([DirItem(".")] + BelowWithin(maxDepth));
    DepthOutcome(maxDepth);
    result, passed := RunWalkTest(FileSystem(Fixture), TmpDir, options, NoLinkCheck);
  }

  /** A row of the depth test's table: a maximum recursion depth and the paths expected with it. */
  datatype DepthCase = DepthCase(maxDepth: int, result: seq<string>)

  const DepthCases := [
    DepthCase(-1, AllPaths),
    DepthCase(0, [".", "dev", "etc", "lib", "usr"]),
    DepthCase(1, [".", "dev", "etc", "lib", "usr"]),
    DepthCase(2, [".", "dev", "dev/random", "etc", "etc/certs", "etc/hostname", "lib", "lib/dynalib.so", "usr", "usr/bin"]),
    DepthCase(3, AllPaths),
    DepthCase(4, AllPaths)]

  lemma DepthCasesAgree(i: nat)
    requires i < |DepthCases|
    ensures PathsWithin(DepthCases[i].maxDepth) == DepthCases[i].result
  {
  }

  /** The depth test runs every row of its table, and every row passes. */
  method IterationMaxRecurseDepth() returns (passed: bool)
    ensures passed
  {
    passed := true;
    var i := 0;
    while i < |DepthCases|
      invariant 0 <= i <= |DepthCases|
      invariant passed
    {
      var test := DepthCases[i];
      var result, ok := IterationAtDepth(test.maxDepth);
      DepthCasesAgree(i);
      passed := passed && ok && result == test.result;
      i := i + 1;
    }
  }

  // TestIterationFile

  lemma FileOutcome()
    ensures forall item | item in [FileAt("cp")] :: item.error.None?
    ensures RelPaths([FileAt("cp")]) == ["cp"]
  {
  }

  lemma FileScenario(options: seq<WalkerOption>)
    requires BuildOptions(options) == DefaultOptions
    ensures Walk(FileSystem(Fixture), "/tmp/usr/bin/cp", options) == Ok([FileAt("cp")])
  {
    CpResolves();
    WalkOfResolvedRoot(FileSystem(Fixture), "/tmp/usr/bin/cp", options, Located(CpPath, RegularFile));
    assert WalkRoot(RegularFile, "cp", DefaultOptions) == [FileAt("cp")];
  }

  /** A root that is a regular file yields that file alone, named by its own name. */
  method FileTest(options: seq<WalkerOption>) returns (relPaths: seq<string>, passed: bool)
    requires BuildOptions(options) == DefaultOptions
    ensures relPaths == ["cp"]
    ensures passed
  {
    FileScenario(options);
    FileOutcome();
    CleanStreamRunsToTheEnd([FileAt("cp")]);
    relPaths, passed := RunWalkTest(FileSystem(Fixture), "/tmp/usr/bin/cp", options, NoLinkCheck);
  }

  /** The test as written: no option. */
  method IterationFile() returns (relPaths: seq<string>, passed: bool)
    ensures relPaths == ["cp"]
    ensures passed
  {
    var options: seq<WalkerOption> := [];
    assert BuildOptions(options) == DefaultOptions;
    relPaths, passed := FileTest(options);
  }

  // TestIterationSymlink

  /** The items of the directory a link root leads to, root first. */
  const LinkedItems := [DirItem("."), FileAt("original.txt")]

  lemma SymlinkOutcome()
    ensures forall item | item in LinkedItems :: item.error.None?
    ensures RelPaths(LinkedItems) == [".", "original.txt"]
  {
  }

  lemma SymlinkScenario(options: seq<WalkerOption>)
    requires BuildOptions(options) == DefaultOptions
    ensures Walk(FileSystem(LinkedFixture), "/tmp/new", options) == Ok(LinkedItems)
  {
    NewResolvesToOriginal();
    WalkOfResolvedRoot(FileSystem(LinkedFixture), "/tmp/new", options, Located(["tmp", "original"], Original));
    NewSegments();
    OriginalWalk(DefaultOptions);
  }

  /** A root that is a relative link to a directory is walked as that directory, as `.`. */
  method SymlinkTest(options: seq<WalkerOption>) returns (relPaths: seq<string>, passed: bool)
    requires BuildOptions(options) == DefaultOptions
    ensures relPaths == [".", "original.txt"]
    ensures passed
  {
    SymlinkScenario(options);
    SymlinkOutcome();
    CleanStreamRunsToTheEnd(LinkedItems);
    relPaths, passed := RunWalkTest(FileSystem(LinkedFixture), "/tmp/new", options, NoLinkCheck);
  }

  /** The test as written: no option. */
  method IterationSymlink() returns (relPaths: seq<string>, passed: bool)
    ensures relPaths == [".", "original.txt"]
    ensures passed
  {
    var options: seq<WalkerOption> := [];
    assert BuildOptions(options) == DefaultOptions;
    relPaths, passed := SymlinkTest(options);
  }

  // TestIterationNotFound

  /** A root that does not exist fails the walk before any item, whatever the options. */
  lemma NotFoundScenario(options: seq<WalkerOption>)
    ensures Walk(FileSystem(Fixture), "/tmp/doesntlivehere", options) == Err(RootNotFound)
  {
    DoesntLiveHereNotFound();
  }

  /** The test as written: a root that does not exist makes the walk fail to start. */
  method IterationNotFound() returns (failed: bool)
    ensures failed
  {
    var walked := Walk(FileSystem(Fixture), "/tmp/doesntlivehere", []);
    NotFoundScenario([]);
    failed := walked.Err?;
  }

  // TestIterationTypes

  const DirsOnly := TypeGate({DirectoryFileType})

  lemma DirectoriesOfDevAndLib()
    ensures Keep(DirsOnly, DevItems) == [DirItem("dev")]
    ensures Keep(DirsOnly, LibItems) == [DirItem("lib")]
  {
    KeepTwo(DirsOnly, DirItem("dev"), FileAt("dev/random"));
    KeepTwo(DirsOnly, DirItem("lib"), FileAt("lib/dynalib.so"));
  }

  lemma DirectoriesOfEtc()
    ensures Keep(DirsOnly, EtcItems) == [DirItem("etc")] + ([DirItem("etc/certs")] + [])
  {
    KeepTwo(DirsOnly, DirItem("etc/certs"), FileAt("etc/certs/ca.crt"));
    KeepAppend(DirsOnly, CertsItems, [FileAt("etc/hostname")]);
    KeepAppend(DirsOnly, [DirItem("etc")], CertsItems + [FileAt("etc/hostname")]);
  }

  lemma DirectoriesOfUsr()
    ensures Keep(DirsOnly, UsrItems) == [DirItem("usr")] + ([DirItem("usr/bin")] + ([] + []))
  {
    KeepAppend(DirsOnly, [FileAt("usr/bin/cp")], [LinkAt("usr/bin/mv", "/usr/bin/cp")]);
    KeepAppend(DirsOnly, [DirItem("usr/bin")], [FileAt("usr/bin/cp")] + [LinkAt("usr/bin/mv", "/usr/bin/cp")]);
    KeepAppend(DirsOnly, [DirItem("usr")], BinItems);
  }

  /** The directories of the fixture, root first, in walk order. */
  const DirectoryItems := [DirItem("."), DirItem("dev"), DirItem("etc"), DirItem("etc/certs"), DirItem("lib"), DirItem("usr"), DirItem("usr/bin")]

  lemma DirectoriesOfBelow()
    ensures [DirItem(".")] + Keep(DirsOnly, Below) == DirectoryItems
  {
    KeepOfFour(DirsOnly, DevItems, EtcItems, LibItems, UsrItems);
    DirectoriesOfDevAndLib();
    DirectoriesOfEtc();
    DirectoriesOfUsr();
  }

  /** The walk the type test starts: only directories, root included. */
  lemma TypesScenario(options: seq<WalkerOption>)
    requires BuildOptions(options) == Options(false, -1, [], {DirectoryFileType})
    ensures Walk(FileSystem(Fixture), TmpDir, options) == Ok(DirectoryItems)
  {
    var o := BuildOptions(options);
    var ungated := o.(fileTypes := {});
    TmpResolves(Fixture);
    WalkOfResolvedRoot(FileSystem(Fixture), TmpDir, options, Located(["tmp"], Fixture));
    TypeFilterLaw(Fixture, "tmp", o);
    FixtureWalk(ungated);
    var walked := [DirItem(".")] + BelowWithin(-1);
    assert WalkRoot(Fixture, "tmp", ungated) == walked;
    assert walked == [DirItem(".")] + Below;
    KeepAppend(DirsOnly, [DirItem(".")], Below);
    DirectoriesOfBelow();
  }

  lemma TypesOptions()
    ensures BuildOptions([WithFileTypes({DirectoryFileType})]) == Options(false, -1, [], {DirectoryFileType})
  {
  }

  lemma TypesOutcome()
    ensures forall item | item in DirectoryItems :: item.error.None?
    ensures RelPaths(DirectoryItems) == [".", "dev", "etc", "etc/certs", "lib", "usr", "usr/bin"]
  {
  }

  /** The type filter keeps the directories, root included, and still walks every directory. */
  method TypesTest(options: seq<WalkerOption>) returns (relPaths: seq<string>, passed: bool)
    requires BuildOptions(options) == Options(false, -1, [], {DirectoryFileType})
    ensures relPaths == [".", "dev", "etc", "etc/certs", "lib", "usr", "usr/bin"]
    ensures passed
  {
    TypesScenario(options);
    TypesOutcome();
    CleanStreamRunsToTheEnd(DirectoryItems);
    relPaths, passed := RunWalkTest(FileSystem(Fixture), TmpDir, options, NoLinkCheck);
  }

  /** The test as written: the directory type filter. */
  method IterationTypes() returns (relPaths: seq<string>, passed: bool)
    ensures relPaths == [".", "dev", "etc", "etc/certs", "lib", "usr", "usr/bin"]
    ensures passed
  {
    var options := [WithFileTypes({DirectoryFileType})];
    TypesOptions();
    relPaths, passed := TypesTest(options);
  }
}
