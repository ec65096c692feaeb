/** `analyze_disk_usage`: validate the root, compile the exclusion
    patterns, walk the tree folding every item into the accounting state,
    then total and rank the buckets. */
module Analysis {
  import opened Wrappers
  import opened Paths
  import opened Exclusion
  import opened Walk
  import opened Accounting
  import opened Ranking

  /** `usize::MAX` on a 64-bit target: the depth bound when none is given. */
  const UsizeMax: nat := 0xFFFF_FFFF_FFFF_FFFF

  /** `AnalysisConfig`. */
  datatype AnalysisConfig = AnalysisConfig(
    maxDepth: Option<nat>,
    excludePatterns: seq<string>,
    followLinks: bool,
    numThreads: Option<nat>)

  /** `AnalysisConfig::default()`. */
  const DefaultConfig := AnalysisConfig(None, [], false, None)

  /** The ways `analyze_disk_usage` fails. */
  datatype AnalysisError =
    | PathDoesNotExist(path: Path)
    | NotADirectory(path: Path)
    /** `build_global` fails, as it does once a global pool exists */
    | ThreadPoolFailed
    | InvalidGlobPattern(pattern: string)

  /** `AnalysisResult`. */
  datatype AnalysisResult = AnalysisResult(
    rootPath: Path,
    totalSize: nat,
    totalFiles: nat,
    totalDirs: nat,
    topDirectories: seq<DirectoryEntry>)

  /** `config.max_depth.unwrap_or(usize::MAX)`. */
  function MaxDepthOf(config: AnalysisConfig): nat {
    config.maxDepth.GetOr(UsizeMax)
  }

  /** The `filter_entry` predicate: `is_excluded` with the compiled
      patterns. */
  function ExclusionFilter(exclusions: seq<Pattern>, matches: (Pattern, string) -> bool): Path -> bool {
    p => IsExcluded(p, exclusions, matches)
  }

  /** The accounting state after the whole walk below `root`. */
  function Scan(root: Path, tree: Node, maxDepth: nat, exclusions: seq<Pattern>,
                matches: (Pattern, string) -> bool): Totals
  {
    Fold(root, WalkRoot(root, tree, maxDepth, ExclusionFilter(exclusions, matches)))
  }

  /** `Path::exists` fails for a missing root and for one whose metadata
      cannot be read: a broken entry, or a file without metadata. */
  predicate RootExists(fs: Option<Node>) {
    fs.Some? && !fs.value.Broken? && !(fs.value.File? && fs.value.meta.None?)
  }

  /** `Path::is_dir`. */
  predicate RootIsDir(tree: Node) {
    tree.Dir? || tree.UnreadableDir?
  }

  /** `analyze_disk_usage`. The file system below `path` is `fs` (`None` when
      nothing is there); `poolBuilt` says whether a global thread pool
      already exists, which makes configuring one fail; `compiles` and
      `matches` stand for the glob library. */
  method AnalyzeDiskUsage(path: Path, fs: Option<Node>, config: AnalysisConfig, topN: nat, poolBuilt: bool,
                          compiles: string -> bool, matches: (Pattern, string) -> bool)
    returns (r: Result<AnalysisResult, AnalysisError>)
    // the call succeeds exactly when the four checks pass; failures met
    // during the walk are only counted
    ensures r.Ok? <==> RootExists(fs) && RootIsDir(fs.value) && !(config.numThreads.Some? && poolBuilt) &&
                       BuildExclusionMatcher(config.excludePatterns, compiles).Ok?
    ensures !RootExists(fs) ==> r == Err(PathDoesNotExist(path))
    ensures RootExists(fs) && !RootIsDir(fs.value) ==> r == Err(NotADirectory(path))
    ensures RootExists(fs) && RootIsDir(fs.value) && config.numThreads.Some? && poolBuilt ==>
              r == Err(ThreadPoolFailed)
    ensures RootExists(fs) && RootIsDir(fs.value) && !(config.numThreads.Some? && poolBuilt) &&
            BuildExclusionMatcher(config.excludePatterns, compiles).Err? ==>
              r == Err(InvalidGlobPattern(BuildExclusionMatcher(config.excludePatterns, compiles).error))
    ensures r.Ok? ==>
              && RootExists(fs) && RootIsDir(fs.value)
              && BuildExclusionMatcher(config.excludePatterns, compiles).Ok?
              && var t := Scan(path, fs.value, MaxDepthOf(config),
                               BuildExclusionMatcher(config.excludePatterns, compiles).value, matches);
                 && r.value.rootPath == path
                 && r.value.totalFiles == t.totalFiles
                 && r.value.totalDirs == t.totalDirs
                 && r.value.totalSize == Sum(t.dirSizes, Bytes)
                 && r.value.totalFiles == Sum(t.dirSizes, Files)
                 && r.value.totalDirs == Sum(t.dirSizes, Dirs)
                 && IsTopN(r.value.topDirectories, t.dirSizes, topN)
  {
    if !RootExists(fs) {
      return Err(PathDoesNotExist(path));
    }
    var tree := fs.value;
    if !RootIsDir(tree) {
      return Err(NotADirectory(path));
    }
    if config.numThreads.Some? && poolBuilt {
      return Err(ThreadPoolFailed);
    }
    var built := BuildExclusionMatcher(config.excludePatterns, compiles);
    if built.Err? {
      return Err(InvalidGlobPattern(built.error));
    }
    var exclusions := built.value;

    var acc := new Accumulator(path);
    var items := WalkRoot(path, tree, MaxDepthOf(config), ExclusionFilter(exclusions, matches));
    for i := 0 to |items|
      invariant acc.root == path
      invariant acc.State() == Fold(path, items[..i])
    {
      assert items[..i + 1][..i] == items[..i];
      acc.Consume(items[i]);
    }
    assert items[..|items|] == items;
    FoldConsistent(path, items);

    var totalSize, top := Summarize(acc.dirSizes, topN);
    r := Ok(AnalysisResult(path, totalSize, acc.totalFiles, acc.totalDirs, top));
  }

  // ---------------------------------------------------------------------
  // What a scan of a directory root promises

  /** Every entry of the walk from a directory root lies under the root, and
      only the root itself, a directory, sits at the root's level. */
  lemma RootWalkShape(root: Path, tree: Node, maxDepth: nat, excluded: Path -> bool)
    requires RootIsDir(tree)
    ensures var items := WalkRoot(root, tree, maxDepth, excluded);
      forall i :: 0 <= i < |items| && items[i].Visited? ==>
        IsPrefix(root, items[i].entry.path) &&
        (|items[i].entry.path| == |root| ==> items[i].entry.kind == Directory)
  {
    var items := WalkRoot(root, tree, maxDepth, excluded);
    if !excluded(root) && tree.Dir? && 0 < maxDepth {
      var below := WalkChildren(tree.children, root, 1, maxDepth, excluded);
      assert items == [Visited(Entry(root, Directory, None))] + below;
      WalkChildrenPlaced(tree.children, root, 1, maxDepth, excluded);
      forall i | 1 <= i < |items| && items[i].Visited?
        ensures IsPrefix(root, items[i].entry.path) && |items[i].entry.path| > |root|
      {
        assert items[i] in below;
        var q := ItemPath(items[i]);
        assert q[..|root|] == (root + [q[|root|]])[..|root|];
      }
    }
  }

  /** Every bucket of a scan of a directory root is an immediate child of
      the root. */
  lemma ScanBucketsAreRootChildren(root: Path, tree: Node, maxDepth: nat, exclusions: seq<Pattern>,
                                   matches: (Pattern, string) -> bool)
    requires RootIsDir(tree)
    ensures forall k :: k in Scan(root, tree, maxDepth, exclusions, matches).dirSizes ==>
              IsPrefix(root, k) && |k| == |root| + 1
  {
    var excluded := ExclusionFilter(exclusions, matches);
    RootWalkShape(root, tree, maxDepth, excluded);
    FoldBucketsAreRootChildren(root, WalkRoot(root, tree, maxDepth, excluded));
  }

  /** A root whose own name matches a pattern is filtered out with all it
      holds: the scan finds nothing. */
  lemma ExcludedRootFindsNothing(root: Path, tree: Node, maxDepth: nat, exclusions: seq<Pattern>,
                                 matches: (Pattern, string) -> bool, i: nat)
    requires RootIsDir(tree)
    requires i < |exclusions| && matches(exclusions[i], FileName(root))
    ensures Scan(root, tree, maxDepth, exclusions, matches) == Initial
  {
    assert IsExcluded(root, exclusions, matches);
  }

  /** With `max_depth` 0 only the root is yielded, so nothing is counted. */
  lemma DepthZeroFindsNothing(root: Path, tree: Node, exclusions: seq<Pattern>, matches: (Pattern, string) -> bool)
    requires RootIsDir(tree)
    ensures Scan(root, tree, 0, exclusions, matches).dirSizes == map[]
    ensures Scan(root, tree, 0, exclusions, matches).totalFiles == 0
  {
    var items := WalkRoot(root, tree, 0, ExclusionFilter(exclusions, matches));
    var rootItem := Visited(Entry(root, Directory, None));
    assert items == [] || items == [rootItem];
    RootAloneCountsNothing(root);
  }

  /** The root directory on its own is not counted. */
  lemma RootAloneCountsNothing(root: Path)
    ensures Fold(root, []) == Initial
    ensures Fold(root, [Visited(Entry(root, Directory, None))]) == Initial
  {
    FoldSnoc(root, [], Visited(Entry(root, Directory, None)));
    assert [] + [Visited(Entry(root, Directory, None))] == [Visited(Entry(root, Directory, None))];
  }

  // ---------------------------------------------------------------------
  // Worked examples

  /** The loop consumes items one at a time, in order. */
  lemma FoldSnoc(root: Path, items: seq<WalkItem>, item: WalkItem)
    ensures Fold(root, items + [item]) == AfterItem(Fold(root, items), root, item)
  {
    assert (items + [item])[..|items|] == items;
  }

  /** The scan of an empty root charges nothing. */
  lemma EmptyDirectoryScan(root: Path, name: string)
    ensures Scan(root, Dir(name, []), UsizeMax, [], LiteralMatch).dirSizes == map[]
    ensures Scan(root, Dir(name, []), UsizeMax, [], LiteralMatch).totalFiles == 0
  {
    var excluded := ExclusionFilter([], LiteralMatch);
    assert !excluded(root);
    assert WalkChildren([], root, 1, UsizeMax, excluded) == [];
    assert WalkRoot(root, Dir(name, []), UsizeMax, excluded) == [] + [Visited(Entry(root, Directory, None))];
    FoldSnoc(root, [], Visited(Entry(root, Directory, None)));
  }

  /** `test_analyze_empty_directory`: an empty root gives zero bytes, zero
      files and no buckets. */
  lemma EmptyDirectoryExample(root: Path, name: string, topN: nat, top: seq<DirectoryEntry>)
    requires IsTopN(top, Scan(root, Dir(name, []), UsizeMax, [], LiteralMatch).dirSizes, topN)
    ensures var t := Scan(root, Dir(name, []), UsizeMax, [], LiteralMatch);
      Sum(t.dirSizes, Bytes) == 0 && t.totalFiles == 0 && |top| == 0
  {
    EmptyDirectoryScan(root, name);
    assert Counts(map[], Bytes) == map[];
  }

  /** The tree of `test_exclusion_patterns`: `node_modules/test.js` and
      `src/main.rs` below the root `tmp`. */
  const MainRs := File("main.rs", Some(Metadata(InodeKey(1, 3), 8)))
  const SrcDir := Dir("src", [MainRs])
  const NodeModules := Dir("node_modules", [File("test.js", Some(Metadata(InodeKey(1, 2), 8)))])
  const ExampleTree := Dir("tmp", [NodeModules, SrcDir])

  /** A literal pattern matches exactly its own text. */
  function LiteralMatch(p: Pattern, name: string): bool {
    p.source == name
  }

  /** The walk of the example tree with `node_modules` excluded skips that
      directory and everything in it. */
  lemma ExclusionExampleWalk()
    ensures WalkRoot(["tmp"], ExampleTree, UsizeMax, ExclusionFilter([Pattern("node_modules")], LiteralMatch)) ==
              [Visited(Entry(["tmp"], Directory, None)),
               Visited(Entry(["tmp", "src"], Directory, None)),
               Visited(Entry(["tmp", "src", "main.rs"], RegularFile, MainRs.meta))]
  {
    var excluded := ExclusionFilter([Pattern("node_modules")], LiteralMatch);
    assert !excluded(["tmp"]) && excluded(["tmp", "node_modules"]);
    assert !excluded(["tmp", "src"]) && !excluded(["tmp", "src", "main.rs"]);
    assert WalkNode(NodeModules, ["tmp", "node_modules"], 1, UsizeMax, excluded) == [];
    assert WalkChildren([], ["tmp", "src"], 2, UsizeMax, excluded) == [];
    assert [MainRs][1..] == [];
    assert ["tmp", "src"] + [MainRs.name] == ["tmp", "src", "main.rs"];
    assert WalkNode(MainRs, ["tmp", "src", "main.rs"], 2, UsizeMax, excluded) ==
           [Visited(Entry(["tmp", "src", "main.rs"], RegularFile, MainRs.meta))];
    assert WalkChildren([MainRs], ["tmp", "src"], 2, UsizeMax, excluded) ==
           [Visited(Entry(["tmp", "src", "main.rs"], RegularFile, MainRs.meta))];
    var srcItems := [Visited(Entry(["tmp", "src"], Directory, None)),
                     Visited(Entry(["tmp", "src", "main.rs"], RegularFile, MainRs.meta))];
    assert WalkNode(SrcDir, ["tmp", "src"], 1, UsizeMax, excluded) == srcItems;
    assert [SrcDir][1..] == [];
    assert ["tmp"] + [SrcDir.name] == ["tmp", "src"];
    assert WalkChildren([SrcDir], ["tmp"], 1, UsizeMax, excluded) == srcItems;
    assert [NodeModules, SrcDir][1..] == [SrcDir];
    assert ["tmp"] + [NodeModules.name] == ["tmp", "node_modules"];
    assert WalkChildren([NodeModules, SrcDir], ["tmp"], 1, UsizeMax, excluded) == srcItems;
  }

  /** The scan of the example tree with `node_modules` excluded charges
      `main.rs` and the directory `src` to the bucket `src`, and nothing
      else. */
  lemma ExclusionExampleScan()
    ensures var t := Scan(["tmp"], ExampleTree, UsizeMax, [Pattern("node_modules")], LiteralMatch);
      t.totalFiles == 1 && t.dirSizes == map[["tmp", "src"] := DirectoryStats(8 * BlockSize, 1, 1)]
  {
    var root: Path := ["tmp"];
    var meta := MainRs.meta.value;
    var rootItem := Visited(Entry(root, Directory, None));
    var srcItem := Visited(Entry(root + ["src"], Directory, None));
    var mainItem := Visited(Entry(root + ["src", "main.rs"], RegularFile, Some(meta)));
    assert root + ["src"] == ["tmp", "src"] && root + ["src", "main.rs"] == ["tmp", "src", "main.rs"];
    ExclusionExampleWalk();
    assert WalkRoot(root, ExampleTree, UsizeMax, ExclusionFilter([Pattern("node_modules")], LiteralMatch)) ==
           [rootItem, srcItem, mainItem];
    FoldOfThree(root, rootItem, srcItem, mainItem);
    RootAloneCountsNothing(root);
    FoldSnoc(root, [], rootItem);
    assert [] + [rootItem] == [rootItem];
    FirstSubdirectoryStep(root, "src");
    FileInFirstSubdirectoryStep(root, "src", "main.rs", meta);
  }

  /** Folding three items is three steps from the empty state. */
  lemma FoldOfThree(root: Path, i0: WalkItem, i1: WalkItem, i2: WalkItem)
    ensures Fold(root, [i0, i1, i2]) == AfterItem(AfterItem(AfterItem(Initial, root, i0), root, i1), root, i2)
  {
    FoldSnoc(root, [], i0);
    assert [] + [i0] == [i0];
    FoldSnoc(root, [i0], i1);
    assert [i0] + [i1] == [i0, i1];
    FoldSnoc(root, [i0, i1], i2);
    assert [i0, i1] + [i2] == [i0, i1, i2];
  }

  /** A directory straight below the root opens its bucket with one
      directory in it. */
  lemma FirstSubdirectoryStep(root: Path, name: string)
    ensures AfterItem(Initial, root, Visited(Entry(root + [name], Directory, None))) ==
              Totals(map[root + [name] := DirectoryStats(0, 0, 1)], 0, 1, {}, 0)
  {
    assert IsPrefix(root, root + [name]);
  }

  /** A file inside that directory is charged to the same bucket. */
  lemma FileInFirstSubdirectoryStep(root: Path, name: string, file: string, meta: Metadata)
    ensures AfterItem(Totals(map[root + [name] := DirectoryStats(0, 0, 1)], 0, 1, {}, 0), root,
                      Visited(Entry(root + [name, file], RegularFile, Some(meta)))) ==
              Totals(map[root + [name] := DirectoryStats(DiskUsage(meta), 1, 1)], 1, 1, {meta.key}, 0)
  {
    var p := root + [name, file];
    assert IsPrefix(root, p);
    assert p[..|root| + 1] == root + [name];
  }

  /** A file straight below the root opens its bucket with one file in it. */
  lemma FirstFileStep(root: Path, name: string, meta: Metadata)
    ensures AfterItem(Initial, root, Visited(Entry(root + [name], RegularFile, Some(meta)))) ==
              Totals(map[root + [name] := DirectoryStats(DiskUsage(meta), 1, 0)], 1, 0, {meta.key}, 0)
  {
    assert IsPrefix(root, root + [name]);
  }

  /** `test_exclusion_patterns`: with the pattern `node_modules` the scan
      reports one file, and the only bucket is `src`. */
  lemma ExclusionExample(top: seq<DirectoryEntry>)
    requires IsTopN(top, Scan(["tmp"], ExampleTree, UsizeMax, [Pattern("node_modules")], LiteralMatch).dirSizes, 10)
    ensures Scan(["tmp"], ExampleTree, UsizeMax, [Pattern("node_modules")], LiteralMatch).totalFiles == 1
    ensures |top| == 1 && top[0].path == ["tmp", "src"]
  {
    ExclusionExampleScan();
    var m := map[["tmp", "src"] := DirectoryStats(8 * BlockSize, 1, 1)];
    assert |m| == 1 by {
      assert m.Keys == {["tmp", "src"]};
    }
    assert top[0].path in m;
  }

  /** Two hard links to one file are charged once: the scan counts one file
      and its blocks once. */
  lemma HardLinkExample(root: Path)
    ensures
      var meta := Metadata(InodeKey(7, 42), 2);
      var tree := Dir("d", [File("a", Some(meta)), File("b", Some(meta))]);
      var t := Scan(root, tree, UsizeMax, [], LiteralMatch);
      t.totalFiles == 1 && t.dirSizes == map[root + ["a"] := DirectoryStats(1024, 1, 0)]
  {
    var meta := Metadata(InodeKey(7, 42), 2);
    var a := File("a", Some(meta));
    var b := File("b", Some(meta));
    var excluded := ExclusionFilter([], LiteralMatch);
    var rootItem := Visited(Entry(root, Directory, None));
    var aItem := Visited(Entry(root + ["a"], RegularFile, Some(meta)));
    var bItem := Visited(Entry(root + ["b"], RegularFile, Some(meta)));
    assert [a, b][1..] == [b] && [b][1..] == [];
    assert WalkChildren([b], root, 1, UsizeMax, excluded) == [bItem];
    assert WalkChildren([a, b], root, 1, UsizeMax, excluded) == [aItem, bItem];
    assert WalkRoot(root, Dir("d", [a, b]), UsizeMax, excluded) == [rootItem, aItem, bItem];
    FoldOfThree(root, rootItem, aItem, bItem);
    RootAloneCountsNothing(root);
    FoldSnoc(root, [], rootItem);
    assert [] + [rootItem] == [rootItem];
    FirstFileStep(root, "a", meta);
    var t := Totals(map[root + ["a"] := DirectoryStats(DiskUsage(meta), 1, 0)], 1, 0, {meta.key}, 0);
    HardLinkChargedOnce(t, root, bItem.entry);
  }
}
