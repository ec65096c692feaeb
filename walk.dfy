/** The directory walk that feeds the accounting loop.

    `WalkDir` with `filter_entry` is modelled over an abstract directory
    tree: the items it yields are the tree flattened in pre-order, where an
    excluded entry is dropped together with everything below it, a
    directory's listing is only read while its depth is below `max_depth`,
    and a failure is yielded as an error item in the place where it
    happens. */
module Walk {
  import opened Wrappers
  import opened Paths

  /** `(dev, ino)`: two entries with the same key are hard links to the same
      file. */
  datatype InodeKey = InodeKey(dev: nat, ino: nat)

  /** What `DirEntry::metadata` gives the accounting: the inode key and the
      number of 512-byte blocks allocated. */
  datatype Metadata = Metadata(key: InodeKey, blocks: nat)

  /** `FileType::is_file`, `FileType::is_dir`, or neither (a symbolic link
      that is not followed, a socket, a device, a FIFO). */
  datatype Kind = RegularFile | Directory | OtherKind

  /** One `DirEntry` the walker yields. `meta` is `None` when reading the
      metadata fails. */
  datatype Entry = Entry(path: Path, kind: Kind, meta: Option<Metadata>)

  /** One item of the walk: an entry, or a `walkdir::Error` at a path. */
  datatype WalkItem = Visited(entry: Entry) | WalkError(at: Path)

  /** The file system below the root, as the walker sees it under its
      link-following policy. */
  datatype Node =
    | File(name: string, meta: Option<Metadata>)
    | Dir(name: string, children: seq<Node>)
    /** a directory whose listing cannot be read */
    | UnreadableDir(name: string)
    /** a symbolic link that is not followed, or another special file */
    | Special(name: string)
    /** an entry the walker reports as an error (it vanished, a followed
        link is broken or leads to a loop) */
    | Broken(name: string)

  function ItemPath(item: WalkItem): Path {
    match item
    case Visited(e) => e.path
    case WalkError(q) => q
  }

  /** The items yielded for node `n` found at `path`, `depth` levels below
      the root. Error items are not filtered; everything else whose path is
      excluded is dropped together with its subtree. */
  function WalkNode(n: Node, path: Path, depth: nat, maxDepth: nat, excluded: Path -> bool): seq<WalkItem>
    decreases n, 1
  {
    if n.Broken? then [WalkError(path)]
    else if excluded(path) then []
    else
      match n
      case File(_, meta) => [Visited(Entry(path, RegularFile, meta))]
      case Special(_) => [Visited(Entry(path, OtherKind, None))]
      case UnreadableDir(_) =>
        [Visited(Entry(path, Directory, None))] + (if depth < maxDepth then [WalkError(path)] else [])
      case Dir(_, children) =>
        [Visited(Entry(path, Directory, None))] +
        (if depth < maxDepth then WalkChildren(children, path, depth + 1, maxDepth, excluded) else [])
  }

  /** The items yielded for a directory listing, entry by entry. */
  function WalkChildren(cs: seq<Node>, parent: Path, depth: nat, maxDepth: nat, excluded: Path -> bool): seq<WalkItem>
    decreases cs, 0
  {
    if |cs| == 0 then []
    else
      WalkNode(cs[0], parent + [cs[0].name], depth, maxDepth, excluded) +
      WalkChildren(cs[1..], parent, depth, maxDepth, excluded)
  }

  /** The whole walk: the root itself is yielded at depth 0 and is subject
      to the exclusion filter like every other entry. */
  function WalkRoot(root: Path, tree: Node, maxDepth: nat, excluded: Path -> bool): seq<WalkItem> {
    WalkNode(tree, root, 0, maxDepth, excluded)
  }

  /** An item yielded for the subtree at `top`, `depth` levels below the
      root: it lies under `top`, no deeper than `maxDepth`, none of its
      ancestors below `top` is excluded, and an entry is not excluded
      itself. */
  ghost predicate PlacedUnder(item: WalkItem, top: Path, depth: nat, maxDepth: nat, excluded: Path -> bool) {
    var q := ItemPath(item);
    && IsPrefix(top, q)
    && depth + (|q| - |top|) <= maxDepth
    && (forall k :: |top| <= k < |q| ==> !excluded(q[..k]))
    && (item.Visited? ==> !excluded(q))
  }

  lemma {:induction false} WalkNodePlaced(n: Node, path: Path, depth: nat, maxDepth: nat, excluded: Path -> bool)
    requires depth <= maxDepth
    ensures forall item :: item in WalkNode(n, path, depth, maxDepth, excluded) ==>
              PlacedUnder(item, path, depth, maxDepth, excluded)
    decreases n, 1
  {
    var items := WalkNode(n, path, depth, maxDepth, excluded);
    if !n.Broken? && !excluded(path) && n.Dir? && depth < maxDepth {
      var below := WalkChildren(n.children, path, depth + 1, maxDepth, excluded);
      WalkChildrenPlaced(n.children, path, depth + 1, maxDepth, excluded);
      assert items == [Visited(Entry(path, Directory, None))] + below;
      forall item | item in below
        ensures PlacedUnder(item, path, depth, maxDepth, excluded)
      {
        var q := ItemPath(item);
        forall k | |path| <= k < |q|
          ensures !excluded(q[..k])
        {
          if k == |path| {
            assert q[..k] == path;
          }
        }
      }
    }
  }

  lemma {:induction false} WalkChildrenPlaced(cs: seq<Node>, parent: Path, depth: nat, maxDepth: nat, excluded: Path -> bool)
    requires 0 < depth <= maxDepth
    ensures forall item :: item in WalkChildren(cs, parent, depth, maxDepth, excluded) ==>
              |ItemPath(item)| > |parent| &&
              PlacedUnder(item, parent + [ItemPath(item)[|parent|]], depth, maxDepth, excluded)
    decreases cs, 0
  {
    if |cs| > 0 {
      var child := parent + [cs[0].name];
      WalkNodePlaced(cs[0], child, depth, maxDepth, excluded);
      WalkChildrenPlaced(cs[1..], parent, depth, maxDepth, excluded);
      forall item | item in WalkNode(cs[0], child, depth, maxDepth, excluded)
        ensures |ItemPath(item)| > |parent| && ItemPath(item)[|parent|] == cs[0].name
      {
        var q := ItemPath(item);
        assert q[..|child|] == child;
        assert q[|parent|] == q[..|child|][|parent|];
      }
    }
  }
}
