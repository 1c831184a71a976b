# Walker: a verified model of the archiver's filesystem walker

The archiver package enumerates a filesystem subtree before packing it. Its
`Walker` takes a root path and a set of functional options. It first
resolves the root: a missing root is an immediate error. It then streams one
item per visited node. Each item carries:

- a path relative to the root (`.` for a directory root, the name of the
  file the root path resolves to for a file root);
- the node's type;
- the raw target of a symbolic link met below the root;
- a per-entry error.

The walk is depth-first and pre-order, with siblings in ascending name
order. Four options shape the stream:

- skip-root;
- a maximum recursion depth, where -1 is unlimited and 0 acts as 1;
- an allow-list of fnmatch patterns, each matched against the whole
  relative path;
- a set of file types.

The pattern and type filters only remove items. Only the depth limit decides
which directories are entered.

The behaviour modelled here is the one fixed by the walker's test suite,
`pkg/archiver/walker_test.go`. The model has these modules:

- `Results`: the `Option` and `Result` datatypes.
- `FileTree`: an in-memory filesystem. A node is a regular file, a directory
  listing, a symbolic link (with its raw target text), a special file, or a
  node whose metadata cannot be read. It also states what a well-formed tree
  is.
- `Glob`: the fnmatch subset the walker's patterns use. This is literals and
  `*`, where `*` never matches `/`.
- `Listing`: the order of names, and the insertion sort applied to every
  directory listing. Names compare character by character. For names held as
  code points this agrees with Go's byte order on their UTF-8 encoding.
- `RootResolver`: splitting a path into segments, its base name, and root
  resolution. Resolution follows links anywhere on the root path, up to 40 of
  them, and reports "not found", "unreadable", "too many links" or "not a
  directory".
- `Walker`: the options and how they combine, the depth tracker, the item of
  a node, and the walk itself. The walk is a set of pure recursive functions.
  The stream is the finite sequence of items it carries.
- `WalkerLaws`: properties of the walk over all trees and all options.
  - Each filter is a gate applied to the unfiltered walk, so it keeps order
    and never stops recursion.
  - The depth limit removes exactly the items that lie too deep.
  - A limit of 0 equals a limit of 1.
  - Skip-root removes exactly `.`.
  - Every filtered walk is a subsequence of the plain walk.
  - Errors are never filtered out.
  - A file root yields one item, named after the file it resolves to, so a
    link to a file is named after the file.
  - A link root walks as its target.
  - A symbolic link below the root is reported once, with its target, and
    never followed.
  - The order in which a directory is listed is irrelevant.
- `WalkerOrder`: the order of the walk. Each item's path, read as a sequence
  of names, comes strictly after the previous item's path in lexicographic
  order. So no path is reported twice, a directory comes before everything
  below it, and the entries of one directory come in ascending name order.
- `WalkerFixture`: the test suite's temporary tree, as an in-memory
  filesystem mounted at `/tmp`, with its resolution and walk facts.
- `WalkerSuite`: the test loops as imperative methods. Each test drains the
  item stream in a `while` loop that appends relative paths and stops at the
  first error, and each test method is proved to end with exactly the paths
  the test expects. The depth test loops over its six-row table.

Modelling decisions:

- The option list is folded left to right onto the defaults. For each
  setting, the last option of its kind wins.
- The pattern and type gates also apply to a non-directory root. Skip-root
  and the depth limit do not apply to it.
- An item carrying an error passes the pattern and type gates. A node whose
  metadata cannot be read is reported and never entered.
- A relative root path is resolved from the filesystem root.
- A root path spelled as a directory, ending in `/` or `/.`, must resolve to a
  directory. Otherwise the walk fails to start with "not a directory", as a
  POSIX lookup of such a path does.
- The base name of a path without segments (`/`) is `.`.
- The empty root path is not found, as a POSIX lookup of `""` is.
- A root that is not a directory is named by the last name of the path it
  was found at. Through a link to a file, that is the file's own name, not
  the link's.

## Model

| member | source | states |
|---|---|---|
| Glob.LiteralMatchesOnlyItself | pkg/archiver/walker_test.go:48 | a pattern without `*`, such as `lib`, matches exactly the path spelled like it, so it never picks `lib/dynalib.so` |
| Glob.StarMatchesOneSegment | pkg/archiver/walker_test.go:48 | a lone `*` matches exactly the names that contain no `/` |
| Glob.Match | pkg/archiver/walker_test.go:48 | any match keeps the number of `/` separators, so `*` never crosses into a deeper level |
| Glob.DirectoryStar | pkg/archiver/walker_test.go:62-66 | `dir` + `/*` matches a path exactly when the path is `dir/` followed by a single segment, so it matches neither `dir` itself nor anything deeper |
| Glob.DirectoryStarChild | pkg/archiver/walker_test.go:62-64 | `dir` + `/*` matches the entry `dir/name` exactly when `name` is one segment (`dev/random`) |
| Glob.AnyMatch | pkg/archiver/walker_test.go:48 | a list of patterns matches a path exactly when one of them matches it |
| FileTree.Child | pkg/archiver/walker_test.go:170-173 | a listing has a child of a given name exactly when some entry carries that name, and the child found is that entry's node |
| Listing.InsertByName | pkg/archiver/walker_test.go:38-44 | inserting into a sorted listing gives a sorted listing with exactly one more entry |
| Listing.SortByName | pkg/archiver/walker_test.go:38-44 | a listing is sorted into a permutation of itself in ascending character order of names |
| Listing.SiblingsAscendWhateverTheListingOrder | pkg/archiver/walker_test.go:38-44 | with distinct names, siblings come out strictly ascending, and two listings of the same entries sort identically |
| Listing.SortingAnAscendingListingKeepsIt | pkg/archiver/walker_test.go:38-44 | a listing whose names already ascend step by step is left unchanged by the sort |
| RootResolver.Segments | pkg/archiver/walker_test.go:120 | splitting a path yields only non-empty segments, none of them `.`, none containing `/` |
| RootResolver.SegmentsOfJoin | pkg/archiver/walker_test.go:120 | splitting a path joined from valid names gives the names back |
| RootResolver.SegmentsOfAbsolute | pkg/archiver/walker_test.go:120 | an absolute path written from valid names splits back into those names |
| RootResolver.BaseName | pkg/archiver/walker_test.go:119-131 | the base name of a root path is non-empty and has no `/` |
| RootResolver.BaseNameOfJoin | pkg/archiver/walker_test.go:119-131 | the base name of a path written from valid names, absolute or relative, is its last name |
| RootResolver.BaseNameOfChild | pkg/archiver/walker_test.go:120 | the base name of `dir/name` is `name`, whatever `dir` is |
| RootResolver.SegmentsOfConcat | pkg/archiver/walker_test.go:120 | joining two paths with `/` concatenates their segments |
| RootResolver.NodeAt | pkg/archiver/walker_test.go:170-173 | a node found below a root means that root is a directory holding an entry with the first name |
| RootResolver.ResolveFrom | pkg/archiver/walker_test.go:134-173 | a resolution that succeeds ends at neither a link nor an unreadable node, and never reports "not a directory" |
| RootResolver.ResolvedPathLeadsToNode | pkg/archiver/walker_test.go:119-168 | the path a resolution reports, links and `..` already followed, leads through directories alone to the node it reports |
| RootResolver.NodeAtStep | pkg/archiver/walker_test.go:120 | one more name after a directory's path leads to that directory's entry of that name |
| RootResolver.NamesOnPathAreValid | pkg/archiver/walker_test.go:119-131 | in a well-formed tree, every name on a path that leads somewhere is a valid entry name, so the last one has no `/` |
| RootResolver.ResolveDown | pkg/archiver/walker_test.go:120 | a name that is a directory is stepped into, with the rest of the path resolved there |
| RootResolver.ResolveRelativeLink | pkg/archiver/walker_test.go:144-146 | a relative link on the path is replaced by its target's segments, read from the link's own directory, with one link fewer allowed |
| RootResolver.ResolveAbsoluteLink | pkg/archiver/walker_test.go:134-157 | an absolute link on the path is replaced by its target's segments, read from the filesystem root, with one link fewer allowed |
| RootResolver.ResolveThroughDirectories | pkg/archiver/walker_test.go:120 | a run of names that are directories, with no link and no `..`, is stepped through as a plain lookup |
| RootResolver.MoreHopsChangeNothing | pkg/archiver/walker_test.go:134-168 | a resolution that succeeds within an allowance of links gives the same result with a larger allowance |
| RootResolver.LinkResolvesAsItsTarget | pkg/archiver/walker_test.go:144-157 | a root path ending at a link resolves as the link's target, relative to the link's directory or to the filesystem root; when it resolves, the target's own path resolves to the same node at the same place, unless that path is empty or spelled as a directory and the node is not one |
| RootResolver.ResolveRoot | pkg/archiver/walker_test.go:134-173 | the empty path is not found; a root that resolves is neither a link nor unreadable, since links on the root path are followed; a path spelled as a directory resolves only to a directory, and "not a directory" is reported only for such a path |
| RootResolver.ResolveIsLookup | pkg/archiver/walker_test.go:119-131 | on a path without `..` or links, resolution is plain lookup: nothing found is an error, a readable node found is the root, and a root found is found at that very path |
| RootResolver.ResolveKeepsValidity | pkg/archiver/walker_test.go:134-168 | the root resolved in a well-formed filesystem, through links or not, from a directory of that filesystem, is a well-formed tree |
| Walker.BuildOptions | pkg/archiver/walker_test.go:24 | skip-root is on exactly when asked for, and a setting no option mentions keeps its default (unlimited depth, no patterns, no type filter) |
| Walker.LastOptionOfItsKindWins | pkg/archiver/walker_test.go:48 | the depth, patterns and types in force are those of the last option of that kind |
| Walker.ItemFor | pkg/archiver/walker_test.go:33-35 | the item sits at the given path; a symlink gets the symlink type and its target as written, any other node an empty link text; the regular, directory and other types are given exactly to regular files, directories and special files; an item has no type, and has an error, exactly when the node is unreadable |
| Walker.PatternsAdmit | pkg/archiver/walker_test.go:48 | no patterns admit every path; otherwise a path is admitted exactly when some pattern matches it |
| Walker.TypesAdmit | pkg/archiver/walker_test.go:176 | an empty type set admits everything; an item without a type passes only an empty set; an item whose type is in the set passes |
| Walker.Admitted | pkg/archiver/walker_test.go:47-67 | an item with an error always passes the gates, and every item passes when there are no patterns and no types |
| Walker.Visit | pkg/archiver/walker_test.go:47-67 | visiting a node emits nothing or just the node's item; an unreadable node's item is always emitted, and so is every item when there are no filters |
| Walker.WalkNode | pkg/archiver/walker_test.go:29-44 | the walk of a node starts with what visiting the node emits, and a readable subtree yields no item with an error |
| Walker.WalkChildren | pkg/archiver/walker_test.go:29-31 | the items below a readable directory carry no error |
| Walker.WalkEntries | pkg/archiver/walker_test.go:29-31 | the subtrees of readable entries yield no item with an error |
| Walker.WalkRoot | pkg/archiver/walker_test.go:23-45 | a directory root's walk starts with the root's item `.` unless skipped; any other root yields only its own visit, under the name it is given; a readable root yields no error |
| Walker.MayDescend | pkg/archiver/walker_test.go:69-117 | a directory at depth d is entered exactly when the maximum is negative, d is 0, or d is below the maximum |
| Walker.Walk | pkg/archiver/walker_test.go:170-173 | the walk fails exactly when its root does not resolve, and then with the resolver's error |
| WalkerLaws.Keep | pkg/archiver/walker_test.go:47-67 | keeping the admitted items gives an order-preserving subsequence |
| WalkerLaws.KeepMembers | pkg/archiver/walker_test.go:47-67 | an item is kept exactly when it is present and admitted |
| WalkerLaws.PatternFilterLaw | pkg/archiver/walker_test.go:47-67 | the walk with patterns is the walk without them with the non-matching items removed, so unmatched directories are still entered |
| WalkerLaws.TypeFilterLaw | pkg/archiver/walker_test.go:175-190 | the walk with a type filter is the walk without it with the other types removed, so filtered-out directories are still entered |
| WalkerLaws.DepthLaw | pkg/archiver/walker_test.go:69-117 | the walk with a depth limit is the unlimited walk with exactly the items deeper than the limit removed (0 counting as 1) |
| WalkerLaws.EmittedDepthIsBounded | pkg/archiver/walker_test.go:69-117 | with a limit of m ≥ 0, every item lies at most max(m, 1) levels deep |
| WalkerLaws.DepthZeroActsAsOne | pkg/archiver/walker_test.go:79-86 | a maximum depth of 0 gives the same walk as 1, on every tree |
| WalkerLaws.SkipRootLaw | pkg/archiver/walker_test.go:23-45 | skip-root on a directory root removes exactly the item `.` from the walk that includes it |
| WalkerLaws.FiltersOnlyRemove | pkg/archiver/walker_test.go:47-67 | under any options, the walk fails exactly when the default walk does; otherwise it is a subsequence of the default walk |
| WalkerLaws.ErrorsAreNeverFilteredOut | pkg/archiver/walker_test.go:29-31 | an item with an error in the unfiltered walk is still in the walk with patterns and types |
| WalkerLaws.NonDirectoryRootYieldsOneItem | pkg/archiver/walker_test.go:119-132 | a non-directory root yields at most one item, whatever skip-root and the depth say, and without filters exactly that item; it is named by the last name of the path the node was found at, which leads to that node, and on a path with no link and no `..` that is the root path's base name |
| WalkerLaws.LinkRootIsNamedByItsTarget | pkg/archiver/walker_test.go:119-168 | a root path, not spelled as a directory, ending at a link to a regular or special file, whose target is reached through directories, yields one item named after the target file, not the link; without filters exactly that file's item |
| WalkerLaws.RootLinkWalksItsTarget | pkg/archiver/walker_test.go:134-168 | a root path ending at a link, relative or absolute, that resolves is walked exactly as the path of the link's target, item names included, unless that path is empty or spelled as a directory and the link leads to a non-directory |
| WalkerLaws.LinkIsNotFollowed | pkg/archiver/walker_test.go:33-35 | the walk of a symbolic link is its own item with the symlink type and its target, or nothing when a filter drops it |
| WalkerLaws.LinkEntryAmongEntries | pkg/archiver/walker_test.go:33-35 | among a directory's subtrees, the link's item appears exactly when the link is among the entries and the filters admit it, and nothing else lies at or below the link's path |
| WalkerLaws.SymlinkEntryYieldsOneItem | pkg/archiver/walker_test.go:33-44 | a symbolic link inside an entered directory yields its item, at its own path and carrying its target, exactly when the filters admit it; no other item has that path and nothing is reported below it |
| WalkerLaws.ItemsWellFormed | pkg/archiver/walker_test.go:29-36 | in a well-formed tree, every item has a link text exactly when it is a symlink, and a type missing exactly when it has an error; a readable tree yields no errors |
| WalkerLaws.ListingOrderIsIrrelevant | pkg/archiver/walker_test.go:38-44 | two listings of the same entries with distinct names give the same walk |
| WalkerOrder.PathOf | pkg/archiver/walker_test.go:38-44 | the relative path of the node reached through some names splits back into those names |
| WalkerOrder.ChildPathOf | pkg/archiver/walker_test.go:38-44 | a child's relative path is its parent's path extended by the child's name |
| WalkerOrder.SegmentsBeforeIrreflexive | pkg/archiver/walker_test.go:38-44 | no path comes before itself |
| WalkerOrder.AncestorBefore | pkg/archiver/walker_test.go:38-44 | a path comes before every path below it |
| WalkerOrder.DescendantNotBefore | pkg/archiver/walker_test.go:38-44 | no path comes before a path above it |
| WalkerOrder.BeforeSameParent | pkg/archiver/walker_test.go:38-44 | of two paths in the same directory, the first has the strictly smaller name |
| WalkerOrder.OrderNode | pkg/archiver/walker_test.go:38-44 | the walk of a node is in walk order and stays at or below the node's path |
| WalkerOrder.OrderChildren | pkg/archiver/walker_test.go:38-44 | the walk below a directory is in walk order and lies strictly below the directory |
| WalkerOrder.OrderEntries | pkg/archiver/walker_test.go:38-44 | the subtrees of strictly ascending entries are in walk order, and each item's next name is at least the first entry's name |
| WalkerOrder.WalkOrderConsequences | pkg/archiver/walker_test.go:38-44 | items in walk order have distinct paths, come after the items above them, and list the entries of one directory in ascending name order |
| WalkerOrder.WalkIsPreOrder | pkg/archiver/walker_test.go:38-44 | the walk of a well-formed tree is in walk order: no relative path repeats, every directory comes before everything below it, and siblings come in ascending name order |
| WalkerFixture.FixtureIsValid | pkg/archiver/walker_test.go:38-44 | the fixture tree and the filesystem holding it at `/tmp` are well formed |
| WalkerFixture.FixtureIsReadable | pkg/archiver/walker_test.go:29-31 | no node of the fixture has unreadable metadata |
| WalkerFixture.TmpResolves | pkg/archiver/walker_test.go:24 | `/tmp` resolves to the fixture directory, found at `tmp`, with base name `tmp` |
| WalkerFixture.CpResolves | pkg/archiver/walker_test.go:120 | `/tmp/usr/bin/cp` resolves to a regular file found at that very path, with base name `cp` |
| WalkerFixture.CpAsDirectoryFails | pkg/archiver/walker_test.go:120 | `/tmp/usr/bin/cp/.` names the same file but does not resolve: the root is not a directory |
| WalkerFixture.NewResolvesToOriginal | pkg/archiver/walker_test.go:135-157 | `/tmp/new`, a relative link to `original`, resolves to the directory `original`, found at `/tmp/original` |
| WalkerFixture.DoesntLiveHereNotFound | pkg/archiver/walker_test.go:171 | `/tmp/doesntlivehere` does not resolve: the root is not found |
| WalkerFixture.OriginalWalk | pkg/archiver/walker_test.go:157-167 | without filters, the directory `original` walks as `.` followed by `original.txt` |
| WalkerFixture.EtcWalk | pkg/archiver/walker_test.go:87-90 | `etc` walks to `etc/certs/ca.crt` when depth 2 may be entered, and stops at `etc/certs` otherwise |
| WalkerFixture.UsrWalk | pkg/archiver/walker_test.go:87-90 | `usr` walks to `usr/bin/cp` and the link `usr/bin/mv` when depth 2 may be entered, and stops at `usr/bin` otherwise |
| WalkerFixture.FixtureWalk | pkg/archiver/walker_test.go:69-117 | with no patterns and no type filter, the fixture walks root first (unless skipped), then the tree in pre-order by name, cut at the depth limit |
| WalkerSuite.RelPaths | pkg/archiver/walker_test.go:31 | the collected paths are the items' relative paths, one for one and in order |
| WalkerSuite.FirstError | pkg/archiver/walker_test.go:30 | the position of the first item with an error: no item before it has one, and the item there has one |
| WalkerSuite.Drain | pkg/archiver/walker_test.go:29-36 | the loop stops exactly when some item has an error; it collects the paths of the items before the first error; the link check holds exactly when every checked item before the first error has the expected link |
| WalkerSuite.RunWalkTest | pkg/archiver/walker_test.go:24-36 | a walk that fails to start fails the test with no paths; otherwise the paths up to the first error are collected, and the test passes exactly when no item has an error and every checked link agrees |
| WalkerSuite.CleanStreamRunsToTheEnd | pkg/archiver/walker_test.go:29-31 | a stream without errors is drained to its end |
| WalkerSuite.UngatedRun | pkg/archiver/walker_test.go:104 | without patterns and types, walking `/tmp` gives the root (unless skipped) and the tree down to the depth limit, with no item carrying an error |
| WalkerSuite.DirScenario | pkg/archiver/walker_test.go:24 | with skip-root, walking `/tmp` gives the whole tree below the root, error-free |
| WalkerSuite.BelowPaths | pkg/archiver/walker_test.go:38-44 | the relative paths of the tree below the root are the twelve expected ones, in order |
| WalkerSuite.MvLinkAgrees | pkg/archiver/walker_test.go:33-35 | the item `usr/bin/mv` carries the raw link `/usr/bin/cp` |
| WalkerSuite.DirTest | pkg/archiver/walker_test.go:23-45 | under any options that build to skip-root alone, the test collects the twelve expected paths and passes |
| WalkerSuite.IterationDir | pkg/archiver/walker_test.go:23-45 | with the test's option the test collects the expected paths, the link check holds, and the test passes |
| WalkerSuite.DevNotPicked | pkg/archiver/walker_test.go:62-66 | the directory `dev` is not picked by `dev/*` or `lib` |
| WalkerSuite.DevRandomPicked | pkg/archiver/walker_test.go:62-64 | `dev/random` is picked by `dev/*` |
| WalkerSuite.PickedFromBelow | pkg/archiver/walker_test.go:62-66 | the patterns keep exactly `dev/random` and `lib` of the tree below the root |
| WalkerSuite.FilterScenario | pkg/archiver/walker_test.go:48 | with skip-root and the two patterns, walking `/tmp` gives exactly `dev/random` then `lib` |
| WalkerSuite.FilterTest | pkg/archiver/walker_test.go:47-67 | under any options that build to skip-root with the two patterns, the test collects `dev/random` and `lib` and passes |
| WalkerSuite.IterationFilter | pkg/archiver/walker_test.go:47-67 | with the test's options the test collects `dev/random` and `lib` and passes |
| WalkerSuite.DepthScenario | pkg/archiver/walker_test.go:104 | with only a depth limit, walking `/tmp` gives the root and the tree cut at that limit, error-free |
| WalkerSuite.DepthOutcome | pkg/archiver/walker_test.go:74-98 | the paths of that walk are all 13 without a limit or with a limit of 3 or more, 10 with a limit of 2, and 5 with a limit of 1 or 0 |
| WalkerSuite.IterationAtDepth | pkg/archiver/walker_test.go:101-115 | one row of the depth test collects exactly the paths for its depth and passes |
| WalkerSuite.DepthCasesAgree | pkg/archiver/walker_test.go:70-99 | every row of the table expects exactly the paths the walk gives for its depth |
| WalkerSuite.IterationMaxRecurseDepth | pkg/archiver/walker_test.go:69-117 | the loop over the six rows passes every row |
| WalkerSuite.FileScenario | pkg/archiver/walker_test.go:120 | walking the regular file `/tmp/usr/bin/cp` gives the single item `cp` |
| WalkerSuite.FileTest | pkg/archiver/walker_test.go:119-132 | under any options that build to the defaults, the test collects `cp` and passes |
| WalkerSuite.IterationFile | pkg/archiver/walker_test.go:119-132 | with no options the test collects `cp` and passes |
| WalkerSuite.SymlinkScenario | pkg/archiver/walker_test.go:134-157 | walking the link `/tmp/new` gives `.` then `original.txt` |
| WalkerSuite.SymlinkTest | pkg/archiver/walker_test.go:157-167 | under any options that build to the defaults, the test collects `.` and `original.txt` and passes |
| WalkerSuite.IterationSymlink | pkg/archiver/walker_test.go:134-168 | with no options the test collects `.` and `original.txt` and passes |
| WalkerSuite.NotFoundScenario | pkg/archiver/walker_test.go:171 | under any options, walking `/tmp/doesntlivehere` fails with "root not found" |
| WalkerSuite.IterationNotFound | pkg/archiver/walker_test.go:170-173 | the walk fails to start |
| WalkerSuite.DirectoriesOfBelow | pkg/archiver/walker_test.go:186-189 | the directory filter keeps `dev`, `etc`, `etc/certs`, `lib`, `usr`, `usr/bin` of the tree below the root, in that order |
| WalkerSuite.TypesScenario | pkg/archiver/walker_test.go:176 | with the directory type filter, walking `/tmp` gives the root and the six directories below it |
| WalkerSuite.TypesTest | pkg/archiver/walker_test.go:175-190 | under any options that build to the directory filter alone, the test collects the seven directory paths and passes |
| WalkerSuite.IterationTypes | pkg/archiver/walker_test.go:175-190 | with the test's option the test collects the seven directory paths and passes |

## Left out

- The walker's own source file is not part of this model. The walk is modelled from the behaviour its tests fix. Where the tests say nothing, the choices listed above apply.
- The shared suite fixture (`CommonSuite`) is not part of this model. Its tree is reconstructed from the paths and the link the tests expect: `dev/random`, `etc/certs/ca.crt`, `etc/hostname`, `lib/dynalib.so`, `usr/bin/cp`, and `usr/bin/mv` linking to `/usr/bin/cp`.
- The goroutine and the channel are left out. The stream is modelled as the finite sequence of items it would carry, so backpressure and interleaving with the consumer are not modelled.
- Context cancellation is left out. It can only truncate the stream.
- Real filesystem I/O is left out. Listing, metadata reads and link reads are replaced by the in-memory tree, and a read failure is a node marked unreadable. Such a node becomes an item with an error; the stream is not ended by it.
- File metadata other than the type is left out: size, mode bits and times. The item's full path is left out too. For a directory root it is the root path joined with the relative path. For a file root it is the path the root resolves to, which differs from the root path as written when a link is followed.
- Full fnmatch syntax is left out: `?`, bracket classes and escapes. The tests use only literals and `*`.
- The test framework is left out: `suite.Run`, parallel subtests, and the creation and removal of the link and directory in the symlink test. The symlink test's tree is given directly as the fixture plus `original/original.txt` and the link `new`.
- A failing directory listing is not distinguished from a failing metadata read. Both are an unreadable node.
- WalkerSuite.IterationNotFound: states only that the walk fails to start, as the test does. `WalkerSuite.NotFoundScenario` states which error it is.
