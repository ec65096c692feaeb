/** The size accounting of `analyze_disk_usage` and `process_entry`.

    Every entry the walker yields is folded into four pieces of state: the
    per-bucket statistics (a bucket is the immediate child of the root that
    the entry lies under), the file and directory totals, and the set of
    inode keys already charged, which makes a hard-linked file count once.
    Failures only increase an error counter. */
module Accounting {
  import opened Wrappers
  import opened Paths
  import opened Walk

  /** `blocks()` counts 512-byte blocks. */
  const BlockSize: nat := 512

  /** `get_disk_usage` on Unix: the bytes allocated on disk. */
  function DiskUsage(meta: Metadata): nat {
    meta.blocks * BlockSize
  }

  /** `DirectoryStats`: what one bucket has accumulated. */
  datatype DirectoryStats = DirectoryStats(size: nat, fileCount: nat, dirCount: nat)

  /** The three counters of a bucket, for summing over all buckets. */
  datatype Counter = Bytes | Files | Dirs

  function Field(s: DirectoryStats, c: Counter): nat {
    match c
    case Bytes => s.size
    case Files => s.fileCount
    case Dirs => s.dirCount
  }

  /** `HashMap::entry(k).or_default()`: the statistics of a bucket, all zero
      for a bucket not yet present. */
  function StatsAt(m: map<Path, DirectoryStats>, k: Path): DirectoryStats {
    if k in m then m[k] else DirectoryStats(0, 0, 0)
  }

  /** The state of the accounting loop: `dir_sizes`, `total_files`,
      `total_dirs`, `seen_inodes` and `error_count`. */
  datatype Totals = Totals(
    dirSizes: map<Path, DirectoryStats>,
    totalFiles: nat,
    totalDirs: nat,
    seenInodes: set<InodeKey>,
    errorCount: nat)

  const Initial := Totals(map[], 0, 0, {}, 0)

  /** `process_entry` returns an error exactly when the metadata of a
      regular file cannot be read. */
  predicate EntryFails(e: Entry) {
    e.kind == RegularFile && e.meta.None?
  }

  /** The state after `process_entry` succeeds on `e`. */
  function AfterEntry(t: Totals, root: Path, e: Entry): Totals
    requires !EntryFails(e)
  {
    match e.kind
    case RegularFile =>
      var meta := e.meta.value;
      if meta.key in t.seenInodes then t
      else
        var b := FindImmediateSubdir(e.path, root);
        var s := StatsAt(t.dirSizes, b);
        t.(dirSizes := t.dirSizes[b := s.(size := s.size + DiskUsage(meta), fileCount := s.fileCount + 1)],
           totalFiles := t.totalFiles + 1,
           seenInodes := t.seenInodes + {meta.key})
    case Directory =>
      if e.path == root then t
      else
        var b := FindImmediateSubdir(e.path, root);
        var s := StatsAt(t.dirSizes, b);
        t.(dirSizes := t.dirSizes[b := s.(dirCount := s.dirCount + 1)],
           totalDirs := t.totalDirs + 1)
    case OtherKind => t
  }

  /** One iteration of the accounting loop: an entry is processed, and an
      entry that fails or a walk error only counts as an error. */
  function AfterItem(t: Totals, root: Path, item: WalkItem): Totals {
    match item
    case Visited(e) => if EntryFails(e) then t.(errorCount := t.errorCount + 1) else AfterEntry(t, root, e)
    case WalkError(_) => t.(errorCount := t.errorCount + 1)
  }

  /** The state after the loop has consumed `items`, from the empty state. */
  function Fold(root: Path, items: seq<WalkItem>): Totals
    decreases |items|
  {
    if |items| == 0 then Initial
    else AfterItem(Fold(root, items[..|items| - 1]), root, items[|items| - 1])
  }

  // ---------------------------------------------------------------------
  // Sums

  ghost function PickKey<K>(m: map<K, nat>): (k: K)
    requires |m| > 0
    ensures k in m
  {
    var k :| k in m; k
  }

  /** The sum of the values of a map. */
  ghost function SumValues<K>(m: map<K, nat>): nat
    decreases |m|
  {
    if |m| == 0 then 0
    else
      var k := PickKey(m);
      assert (m - {k}).Keys == m.Keys - {k};
      m[k] + SumValues(m - {k})
  }

  lemma {:induction false} SumValuesRemove<K>(m: map<K, nat>, k: K)
    requires k in m
    ensures SumValues(m) == m[k] + SumValues(m - {k})
    decreases |m|
  {
    var j := PickKey(m);
    if j != k {
      assert (m - {j}).Keys == m.Keys - {j};
      assert (m - {k}).Keys == m.Keys - {k};
      assert m - {j} - {k} == m - {k} - {j};
      SumValuesRemove(m - {j}, k);
      SumValuesRemove(m - {k}, j);
    }
  }

  /** Changing one value changes the sum by the difference. */
  lemma SumValuesUpdate<K>(m: map<K, nat>, k: K, v: nat)
    ensures SumValues(m[k := v]) + (if k in m then m[k] else 0) == SumValues(m) + v
  {
    SumValuesRemove(m[k := v], k);
    assert m[k := v] - {k} == m - {k};
    if k in m {
      SumValuesRemove(m, k);
    } else {
      assert m - {k} == m;
    }
  }

  /** One counter of every bucket. */
  function Counts(m: map<Path, DirectoryStats>, c: Counter): map<Path, nat> {
    map k | k in m :: Field(m[k], c)
  }

  /** The sum of one counter over all buckets. */
  ghost function Sum(m: map<Path, DirectoryStats>, c: Counter): nat {
    SumValues(Counts(m, c))
  }

  lemma SumUpdate(m: map<Path, DirectoryStats>, c: Counter, k: Path, v: DirectoryStats)
    ensures Sum(m[k := v], c) + Field(StatsAt(m, k), c) == Sum(m, c) + Field(v, c)
  {
    var after, updated := Counts(m[k := v], c), Counts(m, c)[k := Field(v, c)];
    assert after.Keys == updated.Keys;
    assert forall j :: j in after ==> after[j] == updated[j];
    assert after == updated;
    SumValuesUpdate(Counts(m, c), k, Field(v, c));
  }

  /** The sum of the disk usage of a set of inodes. */
  ghost function UsageSum(keys: set<InodeKey>, usage: map<InodeKey, nat>): nat {
    SumValues(map k | k in keys && k in usage :: usage[k])
  }

  lemma UsageSumAdd(keys: set<InodeKey>, usage: map<InodeKey, nat>, k: InodeKey)
    requires k in usage && k !in keys
    ensures UsageSum(keys + {k}, usage) == UsageSum(keys, usage) + usage[k]
  {
    var before := map j | j in keys && j in usage :: usage[j];
    assert (map j | j in keys + {k} && j in usage :: usage[j]) == before[k := usage[k]];
    SumValuesUpdate(before, k, usage[k]);
  }

  // ---------------------------------------------------------------------
  // Invariants and properties of one step

  /** The totals are the sums of the buckets' counters, and each charged
      file has a distinct inode key. */
  ghost predicate Consistent(t: Totals) {
    && t.totalFiles == Sum(t.dirSizes, Files)
    && t.totalDirs == Sum(t.dirSizes, Dirs)
    && |t.seenInodes| == t.totalFiles
  }

  /** Replacing one bucket by `v` keeps the totals equal to the sums when
      the totals move by `v`'s change. */
  lemma UpdateKeepsConsistent(t: Totals, b: Path, v: DirectoryStats, t': Totals)
    requires Consistent(t)
    requires t'.dirSizes == t.dirSizes[b := v]
    requires t'.totalFiles + StatsAt(t.dirSizes, b).fileCount == t.totalFiles + v.fileCount
    requires t'.totalDirs + StatsAt(t.dirSizes, b).dirCount == t.totalDirs + v.dirCount
    requires |t'.seenInodes| == t'.totalFiles
    ensures Consistent(t')
  {
    SumUpdate(t.dirSizes, Files, b, v);
    SumUpdate(t.dirSizes, Dirs, b, v);
  }

  lemma AfterEntryKeepsConsistent(t: Totals, root: Path, e: Entry)
    requires Consistent(t) && !EntryFails(e)
    ensures Consistent(AfterEntry(t, root, e))
  {
    var b := FindImmediateSubdir(e.path, root);
    var s := StatsAt(t.dirSizes, b);
    if e.kind == RegularFile && e.meta.value.key !in t.seenInodes {
      UpdateKeepsConsistent(t, b, s.(size := s.size + DiskUsage(e.meta.value), fileCount := s.fileCount + 1),
                            AfterEntry(t, root, e));
    } else if e.kind == Directory && e.path != root {
      UpdateKeepsConsistent(t, b, s.(dirCount := s.dirCount + 1), AfterEntry(t, root, e));
    } else {
      assert AfterEntry(t, root, e) == t;
    }
  }

  lemma AfterItemKeepsConsistent(t: Totals, root: Path, item: WalkItem)
    requires Consistent(t)
    ensures Consistent(AfterItem(t, root, item))
  {
    if item.Visited? && !EntryFails(item.entry) {
      AfterEntryKeepsConsistent(t, root, item.entry);
    }
  }

  /** A file whose inode key was charged before changes nothing. */
  lemma HardLinkChargedOnce(t: Totals, root: Path, e: Entry)
    requires e.kind == RegularFile && e.meta.Some? && e.meta.value.key in t.seenInodes
    ensures AfterEntry(t, root, e) == t
  {
  }

  /** A file seen for the first time adds its disk usage and one file to
      its own bucket and to no other, one to the file total, and its key to
      the seen set. */
  lemma NewFileChargesItsBucket(t: Totals, root: Path, e: Entry, k: Path)
    requires e.kind == RegularFile && e.meta.Some? && e.meta.value.key !in t.seenInodes
    ensures var t' := AfterEntry(t, root, e);
            && t'.totalFiles == t.totalFiles + 1
            && t'.totalDirs == t.totalDirs
            && t'.seenInodes == t.seenInodes + {e.meta.value.key}
            && (k in t'.dirSizes <==> k in t.dirSizes || k == FindImmediateSubdir(e.path, root))
            && (k == FindImmediateSubdir(e.path, root) ==>
                  StatsAt(t'.dirSizes, k) == StatsAt(t.dirSizes, k).(size := StatsAt(t.dirSizes, k).size + DiskUsage(e.meta.value),
                                                                     fileCount := StatsAt(t.dirSizes, k).fileCount + 1))
            && (k != FindImmediateSubdir(e.path, root) ==> StatsAt(t'.dirSizes, k) == StatsAt(t.dirSizes, k))
  {
  }

  /** The root directory itself is never counted; every other directory
      adds one directory to its own bucket and to the total. */
  lemma DirectoryCountedOnceUnlessRoot(t: Totals, root: Path, e: Entry, k: Path)
    requires e.kind == Directory
    ensures var t' := AfterEntry(t, root, e);
            && t'.totalFiles == t.totalFiles
            && t'.seenInodes == t.seenInodes
            && t'.totalDirs == (if e.path == root then t.totalDirs else t.totalDirs + 1)
            && StatsAt(t'.dirSizes, k).size == StatsAt(t.dirSizes, k).size
            && StatsAt(t'.dirSizes, k).fileCount == StatsAt(t.dirSizes, k).fileCount
            && (e.path == root ==> t' == t)
            && StatsAt(t'.dirSizes, k).dirCount ==
                 StatsAt(t.dirSizes, k).dirCount + (if e.path != root && k == FindImmediateSubdir(e.path, root) then 1 else 0)
  {
  }

  // ---------------------------------------------------------------------
  // Properties of the whole loop

  lemma {:induction false} FoldConsistent(root: Path, items: seq<WalkItem>)
    ensures Consistent(Fold(root, items))
    decreases |items|
  {
    if |items| > 0 {
      FoldConsistent(root, items[..|items| - 1]);
      AfterItemKeepsConsistent(Fold(root, items[..|items| - 1]), root, items[|items| - 1]);
    }
  }

  predicate IsErrorItem(item: WalkItem) {
    item.WalkError? || EntryFails(item.entry)
  }

  /** The positions of the items that are errors. */
  function ErrorPositions(items: seq<WalkItem>): set<nat> {
    set i: nat | i < |items| && IsErrorItem(items[i])
  }

  /** Every error, of the walk or of `process_entry`, is counted exactly
      once. */
  lemma {:induction false} FoldCountsErrors(root: Path, items: seq<WalkItem>)
    ensures Fold(root, items).errorCount == |ErrorPositions(items)|
    decreases |items|
  {
    if |items| > 0 {
      var n := |items| - 1;
      var init := items[..n];
      FoldCountsErrors(root, init);
      if IsErrorItem(items[n]) {
        assert ErrorPositions(items) == ErrorPositions(init) + {n};
      } else {
        assert ErrorPositions(items) == ErrorPositions(init);
      }
    }
  }

  /** The entry is a regular file whose metadata can be read. */
  predicate IsReadableFile(item: WalkItem) {
    item.Visited? && item.entry.kind == RegularFile && item.entry.meta.Some?
  }

  /** The inode keys of all readable files among the items. */
  function FileKeys(items: seq<WalkItem>): set<InodeKey> {
    set i | 0 <= i < |items| && IsReadableFile(items[i]) :: items[i].entry.meta.value.key
  }

  /** Each inode has one disk usage, whichever of its links is read. */
  ghost predicate UsageAgrees(items: seq<WalkItem>, usage: map<InodeKey, nat>) {
    forall i :: 0 <= i < |items| && IsReadableFile(items[i]) ==>
      items[i].entry.meta.value.key in usage && usage[items[i].entry.meta.value.key] == DiskUsage(items[i].entry.meta.value)
  }

  /** The inode key a readable file item contributes. */
  function NewKeys(item: WalkItem): set<InodeKey> {
    if IsReadableFile(item) then {item.entry.meta.value.key} else {}
  }

  lemma FileKeysSnoc(items: seq<WalkItem>)
    requires |items| > 0
    ensures FileKeys(items) == FileKeys(items[..|items| - 1]) + NewKeys(items[|items| - 1])
  {
    var n := |items| - 1;
    var init := items[..n];
    forall x | x in FileKeys(items) ensures x in FileKeys(init) + NewKeys(items[n]) {
      var i :| 0 <= i < |items| && IsReadableFile(items[i]) && items[i].entry.meta.value.key == x;
      if i < n { assert init[i] == items[i]; }
    }
    forall x | x in FileKeys(init) ensures x in FileKeys(items) {
      var i :| 0 <= i < |init| && IsReadableFile(init[i]) && init[i].entry.meta.value.key == x;
      assert items[i] == init[i];
    }
  }

  /** Charging a new file keeps the bytes of all buckets equal to the
      usage of the inodes seen. */
  lemma NewFileChargesUsage(t: Totals, root: Path, e: Entry, usage: map<InodeKey, nat>)
    requires Sum(t.dirSizes, Bytes) == UsageSum(t.seenInodes, usage)
    requires e.kind == RegularFile && e.meta.Some? && e.meta.value.key !in t.seenInodes
    requires e.meta.value.key in usage && usage[e.meta.value.key] == DiskUsage(e.meta.value)
    ensures Sum(AfterEntry(t, root, e).dirSizes, Bytes) == UsageSum(AfterEntry(t, root, e).seenInodes, usage)
  {
    var b := FindImmediateSubdir(e.path, root);
    var s := StatsAt(t.dirSizes, b);
    var v := s.(size := s.size + DiskUsage(e.meta.value), fileCount := s.fileCount + 1);
    assert AfterEntry(t, root, e).dirSizes == t.dirSizes[b := v];
    assert AfterEntry(t, root, e).seenInodes == t.seenInodes + {e.meta.value.key};
    SumUpdate(t.dirSizes, Bytes, b, v);
    UsageSumAdd(t.seenInodes, usage, e.meta.value.key);
  }

  /** One step keeps the bytes of all buckets equal to the usage of the
      inodes seen. */
  lemma AfterItemChargesUsage(t: Totals, root: Path, item: WalkItem, usage: map<InodeKey, nat>)
    requires Sum(t.dirSizes, Bytes) == UsageSum(t.seenInodes, usage)
    requires IsReadableFile(item) ==>
               item.entry.meta.value.key in usage && usage[item.entry.meta.value.key] == DiskUsage(item.entry.meta.value)
    ensures AfterItem(t, root, item).seenInodes == t.seenInodes + NewKeys(item)
    ensures Sum(AfterItem(t, root, item).dirSizes, Bytes) == UsageSum(AfterItem(t, root, item).seenInodes, usage)
  {
    if item.Visited? && !EntryFails(item.entry) {
      var e := item.entry;
      if e.kind == RegularFile && e.meta.value.key !in t.seenInodes {
        NewFileChargesUsage(t, root, e, usage);
      } else if e.kind == Directory && e.path != root {
        var b := FindImmediateSubdir(e.path, root);
        var s := StatsAt(t.dirSizes, b);
        assert AfterEntry(t, root, e).dirSizes == t.dirSizes[b := s.(dirCount := s.dirCount + 1)];
        SumUpdate(t.dirSizes, Bytes, b, s.(dirCount := s.dirCount + 1));
      } else {
        assert AfterEntry(t, root, e) == t;
      }
    }
  }

  /** Hard links are charged once: the seen set holds the inode of every
      readable file, and the bytes over all buckets are the sum of the disk
      usage of those inodes, each counted once however many links lead to
      it. */
  lemma {:induction false} FoldChargesEachInodeOnce(root: Path, items: seq<WalkItem>, usage: map<InodeKey, nat>)
    requires UsageAgrees(items, usage)
    ensures Fold(root, items).seenInodes == FileKeys(items)
    ensures Sum(Fold(root, items).dirSizes, Bytes) == UsageSum(FileKeys(items), usage)
    decreases |items|
  {
    if |items| > 0 {
      var n := |items| - 1;
      var init := items[..n];
      assert UsageAgrees(init, usage) by {
        forall i | 0 <= i < |init| && IsReadableFile(init[i])
          ensures init[i].entry.meta.value.key in usage
        {
          assert init[i] == items[i];
        }
      }
      FoldChargesEachInodeOnce(root, init, usage);
      FileKeysSnoc(items);
      AfterItemChargesUsage(Fold(root, init), root, items[n], usage);
    }
  }

  /** Every bucket is an immediate child of the root when every entry lies
      under the root and only directories sit at the root itself. */
  lemma {:induction false} FoldBucketsAreRootChildren(root: Path, items: seq<WalkItem>)
    requires forall i :: 0 <= i < |items| && items[i].Visited? ==>
               IsPrefix(root, items[i].entry.path) &&
               (|items[i].entry.path| == |root| ==> items[i].entry.kind == Directory)
    ensures forall k :: k in Fold(root, items).dirSizes ==> IsPrefix(root, k) && |k| == |root| + 1
    decreases |items|
  {
    if |items| > 0 {
      var n := |items| - 1;
      FoldBucketsAreRootChildren(root, items[..n]);
      var item := items[n];
      if item.Visited? {
        var p := item.entry.path;
        assert |p| == |root| ==> p == root by {
          assert p[..|root|] == root;
        }
      }
    }
  }

  // ---------------------------------------------------------------------
  // The accounting state as it is updated in place

  /** The mutable locals of `analyze_disk_usage` that `process_entry`
      updates through `&mut` references. */
  class Accumulator {
    const root: Path
    var dirSizes: map<Path, DirectoryStats>
    var totalFiles: nat
    var totalDirs: nat
    var seenInodes: set<InodeKey>
    var errorCount: nat

    function State(): Totals
      reads this
    {
      Totals(dirSizes, totalFiles, totalDirs, seenInodes, errorCount)
    }

    constructor (root: Path)
      ensures this.root == root && State() == Initial
    {
      this.root := root;
      dirSizes := map[];
      totalFiles, totalDirs := 0, 0;
      seenInodes := {};
      errorCount := 0;
    }

    /** `process_entry`: `ok` is false exactly when the file's metadata
        cannot be read, and then nothing changes. */
    method ProcessEntry(e: Entry) returns (ok: bool)
      modifies this
      ensures ok <==> !EntryFails(e)
      ensures State() == if ok then AfterEntry(old(State()), root, e) else old(State())
    {
      if e.kind == RegularFile {
        if e.meta.None? {
          return false;
        }
        var meta := e.meta.value;
        // `HashSet::insert` reports whether the key was new
        if meta.key in seenInodes {
          return true;
        }
        seenInodes := seenInodes + {meta.key};
        var size := DiskUsage(meta);
        totalFiles := totalFiles + 1;
        var subdir := FindImmediateSubdir(e.path, root);
        var stats := StatsAt(dirSizes, subdir);
        dirSizes := dirSizes[subdir := stats.(size := stats.size + size, fileCount := stats.fileCount + 1)];
      } else if e.kind == Directory && e.path != root {
        totalDirs := totalDirs + 1;
        var subdir := FindImmediateSubdir(e.path, root);
        var stats := StatsAt(dirSizes, subdir);
        dirSizes := dirSizes[subdir := stats.(dirCount := stats.dirCount + 1)];
      }
      ok := true;
    }

    /** One iteration of the loop over the walk: a failing entry or a walk
        error only increments the error count. */
    method Consume(item: WalkItem)
      modifies this
      ensures State() == AfterItem(old(State()), root, item)
    {
      match item
      case Visited(e) =>
        var ok := ProcessEntry(e);
        if !ok {
          errorCount := errorCount + 1;
        }
      case WalkError(_) =>
        errorCount := errorCount + 1;
    }
  }
}
