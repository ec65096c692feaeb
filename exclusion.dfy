/** Exclusion patterns: `build_exclusion_matcher` and `is_excluded`.

    Glob syntax belongs to the `glob` library, which is not part of this
    model: whether a pattern compiles and whether a compiled pattern matches
    a name are parameters (`compiles`, `matches`). */
module Exclusion {
  import opened Wrappers
  import opened Paths

  /** A compiled glob pattern; it keeps the text it was compiled from. */
  datatype Pattern = Pattern(source: string)

  /** `build_exclusion_matcher`: compile every pattern in order; the first
      pattern that does not compile is the error, and nothing is returned. */
  function BuildExclusionMatcher(patterns: seq<string>, compiles: string -> bool): (r: Result<seq<Pattern>, string>)
    ensures r.Ok? <==> forall i :: 0 <= i < |patterns| ==> compiles(patterns[i])
    ensures r.Ok? ==>
              && |r.value| == |patterns|
              && forall i :: 0 <= i < |patterns| ==> r.value[i] == Pattern(patterns[i])
    // the error names the first pattern that does not compile
    ensures r.Err? ==>
              exists i :: && 0 <= i < |patterns| && r.error == patterns[i] && !compiles(patterns[i])
                          && forall j :: 0 <= j < i ==> compiles(patterns[j])
  {
    if |patterns| == 0 then Ok([])
    else if !compiles(patterns[0]) then Err(patterns[0])
    else
      match BuildExclusionMatcher(patterns[1..], compiles)
      case Ok(rest) => Ok([Pattern(patterns[0])] + rest)
      case Err(p) => Err(p)
  }

  /** `Iterator::any` over the patterns. */
  function AnyMatches(exclusions: seq<Pattern>, name: string, matches: (Pattern, string) -> bool): (r: bool)
    ensures r <==> exists i :: 0 <= i < |exclusions| && matches(exclusions[i], name)
  {
    if |exclusions| == 0 then false
    else matches(exclusions[0], name) || AnyMatches(exclusions[1..], name, matches)
  }

  /** `is_excluded`: an entry is excluded when some pattern matches the last
      component of its path; with no patterns nothing is excluded. */
  function IsExcluded(p: Path, exclusions: seq<Pattern>, matches: (Pattern, string) -> bool): (r: bool)
    ensures |exclusions| == 0 ==> !r
    ensures r <==> exists i :: 0 <= i < |exclusions| && matches(exclusions[i], FileName(p))
  {
    if |exclusions| == 0 then false
    else AnyMatches(exclusions, FileName(p), matches)
  }
}
