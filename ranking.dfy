/** The end of `analyze_disk_usage`: the grand total is the sum of the
    bucket sizes, and the buckets, turned into `DirectoryEntry` values in
    the map's iteration order, are sorted by size, largest first, and cut
    to the requested number. */
module Ranking {
  import opened Paths
  import opened Accounting

  /** `DirectoryEntry`: one bucket as it is reported. */
  datatype DirectoryEntry = DirectoryEntry(path: Path, size: nat, fileCount: nat, dirCount: nat)

  /** The closure that turns a map entry into a `DirectoryEntry`. */
  function ToEntry(p: Path, s: DirectoryStats): DirectoryEntry {
    DirectoryEntry(p, s.size, s.fileCount, s.dirCount)
  }

  predicate SortedBySize(ds: seq<DirectoryEntry>) {
    forall i, j :: 0 <= i < j < |ds| ==> ds[i].size >= ds[j].size
  }

  /** No path is reported twice. */
  predicate DistinctPaths(ds: seq<DirectoryEntry>) {
    forall i, j :: 0 <= i < j < |ds| ==> ds[i].path != ds[j].path
  }

  /** `ds` reports buckets of `m` exactly as they are in `m`. */
  predicate FromBuckets(ds: seq<DirectoryEntry>, m: map<Path, DirectoryStats>) {
    forall i :: 0 <= i < |ds| ==> ds[i].path in m && ds[i] == ToEntry(ds[i].path, m[ds[i].path])
  }

  /** `top` is a valid answer to "the `n` largest buckets of `m`": as many as
      asked for or as there are, largest first, each a bucket of `m` reported
      once, and no bucket left out is larger than one taken. */
  predicate IsTopN(top: seq<DirectoryEntry>, m: map<Path, DirectoryStats>, n: nat) {
    && |top| == (if n < |m| then n else |m|)
    && SortedBySize(top)
    && FromBuckets(top, m)
    && DistinctPaths(top)
    && forall k :: k in m && (forall i :: 0 <= i < |top| ==> top[i].path != k) ==>
         forall i :: 0 <= i < |top| ==> m[k].size <= top[i].size
  }

  // ---------------------------------------------------------------------
  // Sorting in place

  /** The state of the inner loop of the insertion sort: the entry that
      moves down sits at `j`; the part before it and the part from it up to
      `i` are sorted, and everything before it is at least everything after
      it. */
  ghost predicate Inserting(s: seq<DirectoryEntry>, j: nat, i: nat) {
    && j <= i < |s|
    && SortedBySize(s[..j])
    && SortedBySize(s[j..i + 1])
    && forall k, l :: 0 <= k < j < l <= i ==> s[k].size >= s[l].size
  }

  /** Swapping the moving entry with a smaller one before it moves it down
      one place and keeps the inner loop's state. */
  lemma SwapDown(s: seq<DirectoryEntry>, j: nat, i: nat)
    requires Inserting(s, j, i) && 0 < j && s[j - 1].size < s[j].size
    ensures Inserting(s[j - 1 := s[j]][j := s[j - 1]], j - 1, i)
  {
    var t := s[j - 1 := s[j]][j := s[j - 1]];
    assert t[..j - 1] == s[..j - 1];
    assert SortedBySize(t[..j - 1]) by {
      forall k, l | 0 <= k < l < j - 1 ensures t[k].size >= t[l].size {
        assert s[..j][k] == s[k] && s[..j][l] == s[l];
      }
    }
    forall k, l | j - 1 <= k < l <= i ensures t[k].size >= t[l].size {
      if k == j - 1 && l > j {
        assert s[j..i + 1][0] == s[j] && s[j..i + 1][l - j] == s[l];
      } else if k == j && l > j {
        assert s[..j][j - 1] == s[j - 1];
      } else if k > j {
        assert s[j..i + 1][k - j] == s[k] && s[j..i + 1][l - j] == s[l];
      }
    }
    var u := t[j - 1..i + 1];
    forall k, l | 0 <= k < l < |u| ensures u[k].size >= u[l].size {
      assert u[k] == t[k + j - 1] && u[l] == t[l + j - 1];
    }
    forall k, l | 0 <= k < j - 1 < l <= i ensures t[k].size >= t[l].size {
      if l == j {
        assert s[..j][k] == s[k] && s[..j][j - 1] == s[j - 1];
      }
    }
  }

  /** The inner loop starts with the new entry at `i`, after a sorted
      prefix. */
  lemma StartInserting(s: seq<DirectoryEntry>, i: nat)
    requires i < |s| && SortedBySize(s[..i])
    ensures Inserting(s, i, i)
  {
    assert s[i..i + 1] == [s[i]];
  }

  /** Swapping two entries keeps the same entries. */
  lemma SwapKeepsEntries(s: seq<DirectoryEntry>, j: nat)
    requires 0 < j < |s|
    ensures multiset(s[j - 1 := s[j]][j := s[j - 1]]) == multiset(s)
  {
    var a, b := s[j - 1], s[j];
    var half := s[j - 1 := b];
    assert multiset(half) == multiset(s) - multiset{a} + multiset{b};
    assert half[j] == b;
    assert multiset(half[j := a]) == multiset(half) - multiset{b} + multiset{a};
  }

  /** When the moving entry is not larger than the one before it, or has
      reached the front, the first `i + 1` entries are sorted. */
  lemma InsertionDone(s: seq<DirectoryEntry>, j: nat, i: nat)
    requires Inserting(s, j, i) && (j == 0 || s[j - 1].size >= s[j].size)
    ensures SortedBySize(s[..i + 1])
  {
    forall k, l | 0 <= k < l <= i ensures s[k].size >= s[l].size {
      if l < j {
        assert s[..j][k] == s[k] && s[..j][l] == s[l];
      } else if j <= k {
        assert s[j..i + 1][k - j] == s[k] && s[j..i + 1][l - j] == s[l];
      } else if l == j {
        assert s[..j][k] == s[k] && s[..j][j - 1] == s[j - 1];
      }
    }
    assert forall k :: 0 <= k <= i ==> s[..i + 1][k] == s[k];
  }

  /** One pass of the insertion sort: the entry at `i` moves down past
      the smaller entries before it. */
  method InsertAt(a: array<DirectoryEntry>, i: nat)
    requires i < a.Length && SortedBySize(a[..i])
    modifies a
    ensures SortedBySize(a[..i + 1])
    ensures multiset(a[..]) == multiset(old(a[..]))
  {
    var j: nat := i;
    StartInserting(a[..], i);
    while j > 0 && a[j - 1].size < a[j].size
      invariant Inserting(a[..], j, i)
      invariant multiset(a[..]) == multiset(old(a[..]))
    {
      SwapDown(a[..], j, i);
      SwapKeepsEntries(a[..], j);
      a[j - 1], a[j] := a[j], a[j - 1];
      j := j - 1;
    }
    InsertionDone(a[..], j, i);
  }

  /** `sort_by(|a, b| b.size.cmp(&a.size))`, in place, as an insertion
      sort. */
  method SortBySize(a: array<DirectoryEntry>)
    modifies a
    ensures SortedBySize(a[..])
    ensures multiset(a[..]) == multiset(old(a[..]))
  {
    if a.Length == 0 {
      return;
    }
    var i := 1;
    while i < a.Length
      invariant 1 <= i <= a.Length
      invariant SortedBySize(a[..i])
      invariant multiset(a[..]) == multiset(old(a[..]))
    {
      InsertAt(a, i);
      i := i + 1;
    }
    assert a[..a.Length] == a[..];
  }

  // ---------------------------------------------------------------------
  // Multiplicities

  lemma {:induction false} RepeatedElementCountsTwice(s: seq<DirectoryEntry>, a: nat, b: nat)
    requires a < b < |s| && s[a] == s[b]
    ensures multiset(s)[s[a]] >= 2
  {
    assert s == s[..a] + [s[a]] + s[a + 1..b] + [s[b]] + s[b + 1..];
  }

  lemma {:induction false} DistinctPathsCountOnce(s: seq<DirectoryEntry>, x: DirectoryEntry)
    requires DistinctPaths(s)
    ensures multiset(s)[x] <= 1
    decreases |s|
  {
    if |s| > 0 {
      var init := s[..|s| - 1];
      assert s == init + [s[|s| - 1]];
      DistinctPathsCountOnce(init, x);
      if s[|s| - 1] == x {
        forall i | 0 <= i < |init| ensures init[i] != x {
          assert init[i].path == s[i].path != s[|s| - 1].path;
        }
        assert multiset(init)[x] == 0;
      }
    }
  }

  /** Reordering the reported buckets of a map keeps every path once. */
  lemma PermutationKeepsPathsDistinct(s: seq<DirectoryEntry>, t: seq<DirectoryEntry>, m: map<Path, DirectoryStats>)
    requires multiset(s) == multiset(t)
    requires FromBuckets(t, m) && DistinctPaths(s)
    ensures DistinctPaths(t)
  {
    forall a, b | 0 <= a < b < |t|
      ensures t[a].path != t[b].path
    {
      if t[a].path == t[b].path {
        RepeatedElementCountsTwice(t, a, b);
        DistinctPathsCountOnce(s, t[a]);
      }
    }
  }

  // ---------------------------------------------------------------------
  // The loops over the map

  /** The paths an entry list reports. */
  function PathSet(ds: seq<DirectoryEntry>): set<Path> {
    set i | 0 <= i < |ds| :: ds[i].path
  }

  /** Appending a bucket not yet reported keeps a list of reported buckets
      faithful and free of repeats. */
  lemma AppendBucket(ds: seq<DirectoryEntry>, k: Path, m: map<Path, DirectoryStats>)
    requires FromBuckets(ds, m) && DistinctPaths(ds)
    requires k in m && k !in PathSet(ds)
    ensures FromBuckets(ds + [ToEntry(k, m[k])], m) && DistinctPaths(ds + [ToEntry(k, m[k])])
    ensures PathSet(ds + [ToEntry(k, m[k])]) == PathSet(ds) + {k}
  {
    var ds' := ds + [ToEntry(k, m[k])];
    assert forall i :: 0 <= i < |ds| ==> ds'[i] == ds[i];
    assert ds'[|ds|].path == k;
    forall i, j | 0 <= i < j < |ds'| ensures ds'[i].path != ds'[j].path {
      if j == |ds| {
        assert ds[i].path in PathSet(ds);
      }
    }
  }

  /** One step of collecting: the bucket `k` moves from the buckets left
      to the reported list. */
  lemma CollectStep(m: map<Path, DirectoryStats>, ds: seq<DirectoryEntry>, rest: map<Path, DirectoryStats>, k: Path)
    requires rest == m - PathSet(ds) && PathSet(ds) <= m.Keys && |ds| + |rest| == |m|
    requires FromBuckets(ds, m) && DistinctPaths(ds) && k in rest
    ensures var ds' := ds + [ToEntry(k, rest[k])];
      && rest - {k} == m - PathSet(ds') && PathSet(ds') <= m.Keys && |ds'| + |rest - {k}| == |m|
      && FromBuckets(ds', m) && DistinctPaths(ds')
  {
    assert rest[k] == m[k];
    AppendBucket(ds, k, m);
    assert (rest - {k}).Keys == rest.Keys - {k};
    assert |rest - {k}| == |rest| - 1;
    assert rest - {k} == m - (PathSet(ds) + {k});
  }

  /** Once no bucket is left, every bucket has been reported. */
  lemma CollectDone(m: map<Path, DirectoryStats>, ds: seq<DirectoryEntry>)
    requires PathSet(ds) <= m.Keys && |m - PathSet(ds)| == 0
    ensures PathSet(ds) == m.Keys
  {
    forall k | k in m ensures k in PathSet(ds) {
      assert k in PathSet(ds) || k in m - PathSet(ds);
    }
  }

  /** `dir_sizes.into_par_iter().map(..).collect()`: every bucket once, in
      an order the map chooses. */
  method CollectEntries(m: map<Path, DirectoryStats>) returns (ds: seq<DirectoryEntry>)
    ensures |ds| == |m| && PathSet(ds) == m.Keys
    ensures FromBuckets(ds, m) && DistinctPaths(ds)
  {
    var rest := m;
    ds := [];
    while |rest| > 0
      invariant rest == m - PathSet(ds) && PathSet(ds) <= m.Keys
      invariant |ds| + |rest| == |m|
      invariant FromBuckets(ds, m) && DistinctPaths(ds)
      decreases |rest|
    {
      var k :| k in rest;
      CollectStep(m, ds, rest, k);
      ds := ds + [ToEntry(k, rest[k])];
      rest := rest - {k};
    }
    CollectDone(m, ds);
  }

  /** `dir_sizes.values().map(|s| s.size).sum()`. */
  method TotalSize(m: map<Path, DirectoryStats>) returns (total: nat)
    ensures total == Sum(m, Bytes)
  {
    var rest := m;
    total := 0;
    while |rest| > 0
      invariant total + Sum(rest, Bytes) == Sum(m, Bytes)
      decreases |rest|
    {
      var k :| k in rest;
      SumValuesRemove(Counts(rest, Bytes), k);
      assert Counts(rest, Bytes) - {k} == Counts(rest - {k}, Bytes);
      total := total + rest[k].size;
      assert (rest - {k}).Keys == rest.Keys - {k};
      rest := rest - {k};
    }
  }

  /** A reordering of the buckets of a map reports each of them once and
      as it is in the map. */
  lemma PermutationOfBuckets(all: seq<DirectoryEntry>, sorted: seq<DirectoryEntry>, m: map<Path, DirectoryStats>)
    requires FromBuckets(all, m) && DistinctPaths(all)
    requires multiset(sorted) == multiset(all)
    ensures |sorted| == |all| && PathSet(sorted) == PathSet(all)
    ensures FromBuckets(sorted, m) && DistinctPaths(sorted)
  {
    assert |sorted| == |all| by {
      assert |multiset(sorted)| == |multiset(all)|;
    }
    forall i | 0 <= i < |sorted|
      ensures sorted[i].path in m && sorted[i] == ToEntry(sorted[i].path, m[sorted[i].path])
    {
      assert sorted[i] in multiset(all);
    }
    forall k | k in PathSet(all) ensures k in PathSet(sorted) {
      var i :| 0 <= i < |all| && all[i].path == k;
      assert all[i] in multiset(sorted);
    }
    forall k | k in PathSet(sorted) ensures k in PathSet(all) {
      var i :| 0 <= i < |sorted| && sorted[i].path == k;
      assert sorted[i] in multiset(all);
    }
    PermutationKeepsPathsDistinct(all, sorted, m);
  }

  /** A prefix of a sorted list of distinct reported buckets is one too. */
  lemma PrefixKeepsOrder(sorted: seq<DirectoryEntry>, m: map<Path, DirectoryStats>, cut: nat)
    requires SortedBySize(sorted) && FromBuckets(sorted, m) && DistinctPaths(sorted)
    requires cut <= |sorted|
    ensures SortedBySize(sorted[..cut]) && FromBuckets(sorted[..cut], m) && DistinctPaths(sorted[..cut])
  {
    assert forall i :: 0 <= i < cut ==> sorted[..cut][i] == sorted[i];
  }

  /** No bucket beyond the cut of a sorted list is larger than one before
      it. */
  lemma CutKeepsLargest(sorted: seq<DirectoryEntry>, m: map<Path, DirectoryStats>, cut: nat)
    requires SortedBySize(sorted) && FromBuckets(sorted, m) && PathSet(sorted) == m.Keys
    requires cut <= |sorted|
    ensures var top := sorted[..cut];
      forall k :: k in m && (forall i :: 0 <= i < |top| ==> top[i].path != k) ==>
        forall i :: 0 <= i < |top| ==> m[k].size <= top[i].size
  {
    var top := sorted[..cut];
    forall k | k in m && (forall i :: 0 <= i < |top| ==> top[i].path != k)
      ensures forall i :: 0 <= i < |top| ==> m[k].size <= top[i].size
    {
      var j :| 0 <= j < |sorted| && sorted[j].path == k;
      assert forall i :: 0 <= i < cut ==> sorted[i] == top[i];
      forall i | 0 <= i < |top| ensures m[k].size <= top[i].size {
        assert top[i] == sorted[i];
      }
    }
  }

  /** Cutting a sorted reordering of all buckets after `n` entries answers
      "the `n` largest buckets". */
  lemma SortedPrefixIsTopN(all: seq<DirectoryEntry>, sorted: seq<DirectoryEntry>, m: map<Path, DirectoryStats>, n: nat)
    requires |all| == |m| && PathSet(all) == m.Keys && FromBuckets(all, m) && DistinctPaths(all)
    requires SortedBySize(sorted) && multiset(sorted) == multiset(all)
    ensures IsTopN(sorted[..if n < |sorted| then n else |sorted|], m, n)
  {
    PermutationOfBuckets(all, sorted, m);
    var cut := if n < |sorted| then n else |sorted|;
    PrefixKeepsOrder(sorted, m, cut);
    CutKeepsLargest(sorted, m, cut);
  }

  /** The summary of the buckets: the grand total and the `topN` largest
      buckets. */
  method Summarize(m: map<Path, DirectoryStats>, topN: nat) returns (totalSize: nat, top: seq<DirectoryEntry>)
    ensures totalSize == Sum(m, Bytes)
    ensures IsTopN(top, m, topN)
  {
    totalSize := TotalSize(m);
    var directories := CollectEntries(m);
    var entries := new DirectoryEntry[|directories|](k requires 0 <= k < |directories| => directories[k]);
    assert entries[..] == directories;
    SortBySize(entries);
    var sorted := entries[..];
    SortedPrefixIsTopN(directories, sorted, m, topN);
    // `take(top_n)`
    top := sorted[..if topN < |sorted| then topN else |sorted|];
  }
}
