/**
 * PathFilter: `should_ignore`, the one rule both output passes use to
 * exclude a path. A path is excluded when any ignore pattern occurs in its
 * text; with no ignore list nothing is excluded.
 */
module PathFilter {
  import opened Wrappers
  import opened Strings
  import opened Paths

  /** The optional list of substring patterns given on the command line. */
  type IgnoreList = Option<seq<string>>

  /** Some pattern of the list occurs in the text of `p`. */
  ghost predicate Ignored(p: Path, ig: IgnoreList) {
    ig.Some? && exists pat :: pat in ig.value && IsSubstring(pat, Text(p))
  }

  /** Tries the patterns in order and stops at the first one found in the path's text. */
  method ShouldIgnore(p: Path, ig: IgnoreList) returns (r: bool)
    ensures ig.None? ==> !r
    ensures r <==> Ignored(p, ig)
  {
    if ig.Some? {
      var text := Text(p);
      var patterns := ig.value;
      var i := 0;
      while i < |patterns|
        invariant 0 <= i <= |patterns|
        invariant forall j :: 0 <= j < i ==> !IsSubstring(patterns[j], text)
      {
        if Contains(text, patterns[i]) {
          return true;
        }
        i := i + 1;
      }
    }
    return false;
  }

  /** Only which patterns are present matters: reordering or repeating them changes nothing. */
  lemma IgnoredIsOrderIndependent(p: Path, ps: seq<string>, qs: seq<string>)
    requires forall pat :: pat in ps <==> pat in qs
    ensures Ignored(p, Some(ps)) <==> Ignored(p, Some(qs))
  {
    if Ignored(p, Some(ps)) {
      var pat :| pat in ps && IsSubstring(pat, Text(p));
      assert pat in qs;
    }
    if Ignored(p, Some(qs)) {
      var pat :| pat in qs && IsSubstring(pat, Text(p));
      assert pat in ps;
    }
  }

  /**
   * Once a path is ignored, so is every path below it: the text of a
   * descendant starts with the text of its ancestor.
   */
  lemma IgnoredExtends(p: Path, q: Path, ig: IgnoreList)
    requires Ignored(p, ig)
    ensures Ignored(p + q, ig)
  {
    var pat :| pat in ig.value && IsSubstring(pat, Text(p));
    TextExtends(p, q);
    SubstringOfPrefix(pat, Text(p), Text(p + q));
  }

  /** An empty pattern occurs in every text, so it excludes every path. */
  lemma EmptyPatternIgnoresAll(p: Path, ps: seq<string>)
    requires "" in ps
    ensures Ignored(p, Some(ps))
  {
    EmptyIsSubstring(Text(p));
  }
}
