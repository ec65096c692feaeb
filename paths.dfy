/** Paths as sequences of components.

    The analysed root has been canonicalised before the analysis starts, and
    every path the walker produces is the root joined with directory-entry
    names, so component-wise prefix tests are what `Path::strip_prefix`
    computes on them. The file-system root `/` is the empty path. */
module Paths {
  import opened Wrappers

  type Path = seq<string>

  /** `root` is an ancestor of `p` or `p` itself. */
  predicate IsPrefix(root: Path, p: Path) {
    |root| <= |p| && p[..|root|] == root
  }

  /** `Path::strip_prefix`: the components of `p` after `root`, when `root`
      is a prefix of `p`. */
  function StripPrefix(p: Path, root: Path): (r: Option<Path>)
    ensures r.Some? <==> IsPrefix(root, p)
    ensures r.Some? ==> root + r.value == p
  {
    if IsPrefix(root, p) then Some(p[|root|..]) else None
  }

  /** `Path::file_name` followed by `unwrap_or("")`: the last component, or
      the empty name for the file-system root. */
  function FileName(p: Path): string {
    if |p| == 0 then "" else p[|p| - 1]
  }

  /** `find_immediate_subdir`: the bucket a path is charged to. */
  function FindImmediateSubdir(p: Path, root: Path): (r: Path)
    // a path under the root goes to its ancestor exactly one level below
    // the root, or to the root when it is the root itself
    ensures IsPrefix(root, p) ==>
      IsPrefix(root, r) && IsPrefix(r, p) && |r| == if |p| == |root| then |root| else |root| + 1
    // a path outside the root is its own bucket
    ensures !IsPrefix(root, p) ==> r == p
  {
    match StripPrefix(p, root)
    case Some(relative) =>
      if |relative| > 0 then root + [relative[0]] else root
    case None => p
  }

  /** The bucket of a path is fixed by the path's first component below the
      root: two paths share a bucket exactly when they agree on it. */
  lemma SameBucketIff(p: Path, q: Path, root: Path)
    requires IsPrefix(root, p) && IsPrefix(root, q)
    requires |p| > |root| && |q| > |root|
    ensures FindImmediateSubdir(p, root) == FindImmediateSubdir(q, root) <==> p[|root|] == q[|root|]
  {
    var bp, bq := FindImmediateSubdir(p, root), FindImmediateSubdir(q, root);
    if bp == bq {
      assert bp[|root|] == p[|root|] && bq[|root|] == q[|root|];
    }
  }

  /** The bucket of a path inside a bucket is that bucket. */
  lemma BucketIsIdempotent(p: Path, root: Path)
    ensures FindImmediateSubdir(FindImmediateSubdir(p, root), root) == FindImmediateSubdir(p, root)
  {
    var b := FindImmediateSubdir(p, root);
    if IsPrefix(root, p) {
      assert b[..|root|] == root;
      if |b| > |root| {
        assert b == root + [b[|root|]];
      }
    }
  }

  /** The worked example of the unit test: a file five levels below
      `/home/user` is charged to `/home/user/projects`. */
  lemma FindImmediateSubdirExample()
    ensures FindImmediateSubdir(["home", "user", "projects", "rust", "src", "main.rs"], ["home", "user"])
         == ["home", "user", "projects"]
  {
    var p: Path := ["home", "user", "projects", "rust", "src", "main.rs"];
    assert p[..2] == ["home", "user"];
  }
}
