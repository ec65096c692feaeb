# DuTop accounting core in Dafny

DuTop is a disk-usage analyser. `analyze_disk_usage` works in four steps:

1. It checks that the root exists and is a directory.
2. It compiles the exclusion globs.
3. It walks the tree below the root, pruning excluded entries. Every entry is folded into a map of per-bucket statistics, where a bucket is the immediate child of the root that the entry lies under. The fold also keeps a file total, a directory total, a set of `(dev, ino)` keys that makes a hard-linked file count once, and an error counter.
4. It sums the bucket sizes, sorts the buckets by size (largest first) and keeps the first `top_n`.

The presentation helpers turn sizes into unit-scaled text, pick a bar colour from integer thresholds, draw the bar and the table borders, and shorten long names.

Module by module:

- `Paths`: paths as component sequences, `strip_prefix` and `find_immediate_subdir`.
- `Exclusion`: `build_exclusion_matcher` and `is_excluded`. The glob library is a pair of parameters: whether a pattern compiles, and whether a pattern matches a name.
- `Walk`: `WalkDir` with `filter_entry` over an abstract tree. The walk is pre-order and the root is filtered like any entry. Error items bypass the filter. A listing, and any listing error, appears only while the depth is below `max_depth`.
- `Accounting`:
  - The pure step `AfterEntry` / `AfterItem` and the whole-loop fold `Fold`.
  - The class `Accumulator`, whose fields are the locals that `process_entry` updates through `&mut`.
  - The invariants of the fold: totals equal the bucket sums, each inode is charged once, each error is counted once, and every bucket is a child of the root.
- `Ranking`:
  - The grand total, and the collection of the buckets in map order.
  - The in-place sort of an `array` by size, largest first.
  - The cut to `top_n`, with the property that the result is a valid "top n".
- `Analysis`: `analyze_disk_usage` itself, with its error order and the loop over the walk driving an `Accumulator`, plus the unit tests' scenarios.
- `Format`: `format_size`, with its unit-selection loop proved against "the largest unit not above the size", plus `format_size_auto`, `format_percentage` and `UnitSystem::default`.
- `Output`: `select_color`, the bar, `print_table_border`, `Colors::disabled`, and the truncation of display names.

## Model

| member | source | states |
|---|---|---|
| Paths.StripPrefix | src/lib.rs:280 | the relative part exists exactly when the root is a component prefix of the path, and the root joined with it gives the path back |
| Paths.FindImmediateSubdir | src/lib.rs:278-294 | a path under the root goes to its ancestor one level below the root; the root goes to the root; a path outside the root is returned unchanged |
| Paths.SameBucketIff | src/lib.rs:278-294 | two paths strictly below the root share a bucket exactly when their first component below the root is the same |
| Paths.BucketIsIdempotent | src/lib.rs:278-294 | the bucket of a bucket is itself |
| Paths.FindImmediateSubdirExample | src/lib.rs:372-379 | `/home/user/projects/rust/src/main.rs` under `/home/user` is charged to `/home/user/projects` |
| Paths.FileName | src/lib.rs:310-311 | no contract of its own: the last component, or the empty name; used by `Exclusion.IsExcluded` and `Analysis.ExcludedRootFindsNothing` |
| Exclusion.BuildExclusionMatcher | src/lib.rs:297-302 | succeeds exactly when every pattern compiles, keeping them in order; otherwise the error names the first pattern that does not compile |
| Exclusion.AnyMatches | src/lib.rs:313 | true exactly when some compiled pattern matches the name |
| Exclusion.IsExcluded | src/lib.rs:305-314 | an empty pattern list excludes nothing; otherwise a path is excluded exactly when some pattern matches its final component (the empty name for a path without one) |
| Walk.WalkRoot | src/lib.rs:111-115 | no contract of its own: the items `WalkDir::new(path).max_depth(..)` with `filter_entry` yields, the root included; stated by `Walk.WalkNodePlaced` and `Analysis.RootWalkShape` |
| Walk.WalkNode | src/lib.rs:111-115 | no contract of its own: the pre-order items of one entry and its subtree; stated by `Walk.WalkNodePlaced` |
| Walk.WalkChildren | src/lib.rs:111-115 | no contract of its own: the items of one directory listing; stated by `Walk.WalkChildrenPlaced` |
| Walk.WalkNodePlaced | src/lib.rs:111-115 | every item the walk yields for a subtree lies under it, no deeper than `max_depth`, with no excluded ancestor below the subtree's top, and a yielded entry is not excluded itself |
| Walk.WalkChildrenPlaced | src/lib.rs:111-115 | every item yielded for a directory's listing lies strictly below the directory, under the child it came from, with the same placement guarantees |
| Accounting.DiskUsage | src/lib.rs:255-259 | no contract of its own: `blocks * 512`; its use is stated by `Accounting.NewFileChargesItsBucket` and `Accounting.FoldChargesEachInodeOnce` |
| Accounting.AfterEntry | src/lib.rs:182-225 | no contract of its own: the state after a successful `process_entry`; its cases are stated by `Accounting.HardLinkChargedOnce`, `Accounting.NewFileChargesItsBucket` and `Accounting.DirectoryCountedOnceUnlessRoot`, and its invariant by `Accounting.AfterEntryKeepsConsistent` |
| Accounting.AfterItem | src/lib.rs:116-130 | no contract of its own: one iteration of the loop over the walk; stated by `Accounting.AfterItemKeepsConsistent`, `Accounting.AfterItemChargesUsage` and `Accounting.Accumulator.Consume` |
| Accounting.Fold | src/lib.rs:104-132 | no contract of its own: the state after the whole loop; stated by `Accounting.FoldConsistent`, `Accounting.FoldCountsErrors`, `Accounting.FoldChargesEachInodeOnce` and `Accounting.FoldBucketsAreRootChildren` |
| Accounting.HardLinkChargedOnce | src/lib.rs:199-203 | a regular file whose `(dev, ino)` key was already seen leaves every bucket, both totals and the seen set unchanged |
| Accounting.NewFileChargesItsBucket | src/lib.rs:206-214 | a newly seen file adds its disk usage and one file to its own bucket (created if absent) and to no other bucket; it adds one to `total_files` and its key to the seen set, and leaves `total_dirs` alone |
| Accounting.DirectoryCountedOnceUnlessRoot | src/lib.rs:215-222 | the root directory leaves the whole state unchanged; any other directory adds one to its own bucket's `dir_count` and to `total_dirs`, and changes no bucket's bytes or file count, the file total or the seen set |
| Accounting.AfterEntryKeepsConsistent | src/lib.rs:182-225 | one successful `process_entry` keeps the invariant: `total_files` and `total_dirs` equal the sums of the buckets' counts, and the seen set has one key per counted file |
| Accounting.AfterItemKeepsConsistent | src/lib.rs:115-131 | one iteration of the loop, including failures, keeps that invariant |
| Accounting.FoldConsistent | src/lib.rs:104-132 | after any walk the invariant holds |
| Accounting.FoldCountsErrors | src/lib.rs:117-130 | `error_count` is exactly the number of walk errors plus files whose metadata cannot be read; each failure is counted once and processing continues |
| Accounting.AfterItemChargesUsage | src/lib.rs:193-214 | one iteration adds the key of a readable file to the seen set and keeps the bytes of all buckets equal to the usage of the inodes seen |
| Accounting.FoldChargesEachInodeOnce | src/lib.rs:196-214 | after any walk, the seen set is the set of inode keys of readable files, and the bytes of all buckets are the usage of those inodes, each counted once however many links lead to it |
| Accounting.FoldBucketsAreRootChildren | src/lib.rs:209-221 | when entries lie under the root and only the root sits at its level, every bucket is an immediate child of the root |
| Accounting.Accumulator.constructor | src/lib.rs:104-108 | the accounting starts with no buckets, zero totals, no seen keys and no errors |
| Accounting.Accumulator.ProcessEntry | src/lib.rs:182-225 | fails exactly when a regular file's metadata cannot be read, and then changes nothing; otherwise the new state is `AfterEntry` of the old |
| Accounting.Accumulator.Consume | src/lib.rs:116-131 | the new state is `AfterItem` of the old: a failure increments `error_count` only |
| Ranking.InsertAt | src/lib.rs:152 | one insertion pass extends the sorted prefix by one entry and keeps the same entries |
| Ranking.SortBySize | src/lib.rs:152 | the array ends sorted by size, largest first, and holds the same entries as before |
| Ranking.CollectEntries | src/lib.rs:142-150 | every bucket becomes exactly one `DirectoryEntry` with its own statistics, and nothing else |
| Ranking.TotalSize | src/lib.rs:139 | the total is the sum of the bucket sizes |
| Ranking.PermutationKeepsPathsDistinct | src/lib.rs:142-152 | reordering entries that come from distinct buckets keeps every path once |
| Ranking.PermutationOfBuckets | src/lib.rs:142-152 | a reordering of the collected buckets has the same length and paths, each reported once and as it is in the map |
| Ranking.CutKeepsLargest | src/lib.rs:155 | no bucket left out by the cut is larger than one taken |
| Ranking.SortedPrefixIsTopN | src/lib.rs:152-155 | the first `top_n` of the sorted entries are a valid top list: length `min(top_n, buckets)`, non-increasing sizes, distinct buckets reported as they are, none left out larger than one taken |
| Ranking.Summarize | src/lib.rs:138-155 | the total is the sum of the bucket sizes, and the list is a valid top `top_n` of the buckets |
| Analysis.MaxDepthOf | src/lib.rs:113 | no contract of its own: `max_depth.unwrap_or(usize::MAX)`; used by `Analysis.AnalyzeDiskUsage` |
| Analysis.RootExists | src/lib.rs:82-84 | no contract of its own: `Path::exists`, false for a missing root, a broken entry and a file whose metadata cannot be read; stated by `Analysis.AnalyzeDiskUsage` |
| Analysis.RootIsDir | src/lib.rs:86-88 | no contract of its own: `Path::is_dir`; stated by `Analysis.AnalyzeDiskUsage` |
| Analysis.Scan | src/lib.rs:104-132 | no contract of its own: the fold of the pruned walk from the root; stated by `Analysis.AnalyzeDiskUsage`, `Analysis.ScanBucketsAreRootChildren`, `Analysis.ExcludedRootFindsNothing` and `Analysis.DepthZeroFindsNothing` |
| Analysis.RootAloneCountsNothing | src/lib.rs:215 | the root directory on its own leaves the empty state unchanged |
| Analysis.AnalyzeDiskUsage | src/lib.rs:76-171 | the call succeeds exactly when the root exists, is a directory, the thread pool can be configured and every pattern compiles; failures met during the walk never make it fail. A missing root (or one whose metadata cannot be read), then a non-directory root, then a thread pool that cannot be configured, then a malformed pattern each give their error, in that order, before any entry is processed. Otherwise the result reports the root, the totals after folding the pruned walk, a total size equal to the sum of bucket sizes, totals equal to the sums of the bucket counts, and a valid top `top_n` |
| Analysis.RootWalkShape | src/lib.rs:111-115 | every entry of the walk from a directory root lies under the root, and only the root itself, a directory, sits at the root's level |
| Analysis.ScanBucketsAreRootChildren | src/lib.rs:209-221 | every bucket of a scan of a directory root is an immediate child of the root |
| Analysis.ExcludedRootFindsNothing | src/lib.rs:115 | when the root's own name matches a pattern, the root is filtered out with everything below it, and nothing is counted |
| Analysis.DepthZeroFindsNothing | src/lib.rs:111-113 | with `max_depth` 0 only the root is walked, so there are no buckets and no files |
| Analysis.EmptyDirectoryScan | src/lib.rs:322-332 | an empty root charges nothing |
| Analysis.EmptyDirectoryExample | src/lib.rs:322-332 | an empty root gives total size 0, zero files and an empty top list |
| Analysis.ExclusionExampleWalk | src/lib.rs:347-370 | with `node_modules` excluded, the walk yields the root, `src` and `src/main.rs` only |
| Analysis.ExclusionExampleScan | src/lib.rs:347-370 | that walk charges one file and the directory `src` to the single bucket `src` |
| Analysis.ExclusionExample | src/lib.rs:347-370 | with `node_modules` excluded, one file is counted and the top list is exactly the bucket `src` |
| Analysis.HardLinkExample | src/lib.rs:196-203 | two links to one inode of 2 blocks give one file and 1024 bytes, in the bucket of the first link |
| Format.HighestUnitFrom | src/format.rs:41-44 | the chosen index is at most the last unit; its power of the base does not exceed the size; and every larger index's power does |
| Format.HighestUnitIsUnique | src/format.rs:41-44 | the unit the loop stops at is the only one that fits the size and is either the last unit or the one below a unit that does not fit |
| Format.DecimalString | src/format.rs:48 | the integer is written as decimal digits with no leading zero |
| Format.DecimalStringRoundTrip | src/format.rs:48 | reading the written digits back gives the integer |
| Format.UnitIndex | src/format.rs:41-44 | no contract of its own: `HighestUnitFrom` up to the last unit; stated by `Format.HighestUnitFrom` and `Format.HighestUnitIsUnique` |
| Format.SizeTextOf | src/format.rs:27-52 | no contract of its own: the reference definition `Format.FormatSize` is proved against; stated by `Format.ZeroIsZeroBytes`, `Format.BelowBaseIsPlainBytes`, `Format.ScaledQuotientInRange` and the examples |
| Format.FormatSize | src/format.rs:27-52 | the loop's result is the text of the largest unit whose power of the base does not exceed the size: "0 B" for zero, the plain integer in bytes below one unit, and otherwise the quotient by that power, with the precision and unit name |
| Format.FormatSizeAuto | src/format.rs:56-58 | `format_size_auto(b)` is `format_size(b, Binary, 1)`, binary being the default unit system |
| Format.ZeroIsZeroBytes | src/format.rs:33-35 | zero bytes is "0 B" in both unit systems |
| Format.BelowBaseIsPlainBytes | src/format.rs:41-48 | a positive size is printed as its decimal integer and " B" exactly when it is below the base, and those digits read back as the size |
| Format.ScaledQuotientInRange | src/format.rs:41-51 | a scaled size shows the quotient by a power of the base that does not exceed it, below the base unless the unit is the last one, and with a unit other than B |
| Format.BinaryBytesExample | src/format.rs:77 | 500 bytes is "500 B" |
| Format.BinaryKibiExamples | src/format.rs:78-79 | 1024 and 1536 bytes are scaled by 1024 into K |
| Format.BinaryMebiGibiExamples | src/format.rs:80-81 | 1048576 bytes is in M and 1073741824 bytes in G |
| Format.SiExamples | src/format.rs:86-89 | 1000 and 1500 bytes are in KB, 10^6 in MB, 10^9 in GB |
| Format.FormatPercentage | src/format.rs:61-68 | the literal "0%" exactly when the total is zero; otherwise the ratio of the part to the total |
| Output.ColorsFor | src/output.rs:42-68 | with colours off all four codes are empty; with colours on the three bar colours differ |
| Output.ClassOf | src/output.rs:163-174 | red exactly when `bar_width <= 2*bar_length + 1`; green exactly when `100*(bar_length+1) <= 33*bar_width`; yellow in between |
| Output.SelectColor | src/output.rs:163-174 | no contract of its own: the code of `Output.ClassOf`'s class; stated by `Output.ClassOf`, `Output.ClassThresholds`, `Output.SelectColorExamples` and `Output.DisabledColorIsEmpty` |
| Output.ClassThresholds | src/output.rs:163-174 | red exactly when `bar_length >= bar_width*50/100`; yellow exactly when `bar_width*33/100 <= bar_length < bar_width*50/100`; green otherwise |
| Output.ClassIsMonotone | src/output.rs:163-174 | a longer bar is never in a lower colour class |
| Output.SelectColorExamples | src/output.rs:257-269 | on a 30-cell bar, 5, 12 and 20 cells are green, yellow and red |
| Output.DisabledColorIsEmpty | src/output.rs:52-59 | with colours off every bar colour and the reset code are empty |
| Output.BarLength | src/output.rs:115-120 | the filled length never exceeds the bar; it is 0 when `max_size` is 0, and otherwise the truncated ratio clamped to the width |
| Output.Bar | src/output.rs:126-128 | the bar is exactly `bar_width` cells: filled cells before `bar_length`, empty cells from it |
| Output.BarFillsItsColumn | src/output.rs:115-128 | filled plus empty cells always total `bar_width` |
| Output.Border | src/output.rs:177-193 | the border is the four widths plus 13 characters long, with the top or bottom corners at the ends, junctions after each column's width plus two dashes, and dashes everywhere else |
| Output.BordersAlign | src/output.rs:177-193 | top and bottom borders have the same length and dashes in the same places |
| Output.TruncateAsWritten | src/output.rs:142-146 | as written, a name that fits is unchanged; a longer one is cut without panicking exactly when `name_width >= 3` and byte `name_width - 3` is a character boundary, and is then `name_width` bytes long |
| Output.TruncationPanicsInsideCharacter | src/output.rs:142-143 | sixteen "é" (32 bytes) at the default width 30: byte 27 is inside a character, so the slice panics |
| Output.LastBoundary | src/output.rs:143 | the last character boundary at or before an index |
| Output.DisplayName | src/output.rs:142-146 | the corrected name is at most `name_width` bytes. A name that fits is unchanged. A longer one is its longest prefix of at most `name_width - 3` bytes that ends on a character boundary, followed by "..." |
| Output.DisplayNameAgreesWhenNoPanic | src/output.rs:142-146 | wherever the source does not panic, the corrected name is what it prints, and a shortened name is exactly `name_width` bytes |

## Left out

- The file system: `WalkDir`, `std::fs` metadata and `Path::exists`/`is_dir` are replaced by an abstract tree (`Walk.Node`). The tree is what the walker sees under its link-following policy, so `follow_links` has no effect of its own in the model.
- Platform variants of the inode key and the disk usage (the Windows and fallback versions of `get_inode_key` and `get_disk_usage`): the model uses the Unix versions, `(dev, ino)` and `blocks * 512`, with both carried by the abstract entry.
- Paths.FileName: components are Unicode strings, so a file name that is not valid UTF-8, which `is_excluded` matches as the empty name (`to_str` fails, then `unwrap_or("")`), is not modelled.
- Glob syntax and matching: compile-validity and matching are parameters. The worked example assumes that a literal pattern matches exactly its own text.
- Rayon:
  - The global thread pool is modelled only as the error that `build_global` returns once a pool exists; the pool's size has no other effect.
  - `into_par_iter` is modelled as a sequential collection.
- Ranking.SortBySize: the sort is proved to sort and to keep the same entries, not to be stable; the order of equal-size buckets also depends on the map's iteration order, which the source does not fix.
- Logging, `println!` output, ANSI output on a terminal, JSON output (`print_results`, `print_directory_row`, `print_json`), and the command-line program in `src/main.rs`.
- Floating point:
  - Formatting a scaled size with `{:.prec$}` is not rendered. `Format.SizeText` keeps the exact quotient, the precision and the unit.
  - A non-zero `format_percentage` keeps the part and the total.
  - The bar's float ratio enters `Output.BarLength` as a parameter.
  - The JSON percentages are left out.
- Format.FormatSize: the loop divides exactly, whereas the source divides a float. For base 1024 every threshold is a power of two below 2^53, so the chosen unit is the same. For base 1000, rounding of repeated float division next to a power of 1000 is not modelled.
- Integer widths: sizes and counters are unbounded. The `u64`/`usize` overflow of the sums and of `bar_width * 33` is not modelled; `usize::MAX` appears only as the default depth bound.
- Analysis.AnalyzeDiskUsage: the grand total and the counters are stated as sums over the buckets, not as `u64` values that could wrap.

Where the repository's design notes and the code disagree, the model follows the code:
- there is no tie-break by path among equal sizes;
- the walk is sequential;
- `max_depth` cuts the walk itself, so entries below the limit are not counted at all;
- an unreadable root directory is a counted error, not a fatal one.

## Findings

| source | as written | input that shows it | evidently intended | confidence | as-written member | corrected member |
|---|---|---|---|---|---|---|
| src/output.rs:142-143 | the name is cut with `&name[..name_width - 3]`, a byte index into a UTF-8 string | a directory named "é" sixteen times (32 bytes) with the default `name_width` 30: byte 27 is the second byte of an "é", so slicing panics and the program aborts | cut at the last character boundary at or before `name_width - 3`, then append "...", never longer than `name_width` bytes | not executed | Output.TruncateAsWritten | Output.DisplayName |
