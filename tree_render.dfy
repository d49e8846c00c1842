/**
 * TreeRenderer: `print_tree`, which writes the ASCII tree of a directory
 * one line per visible node, depth first, siblings in path order.
 */
module TreeRender {
  import opened Paths
  import opened PathFilter
  import opened FileTree
  import opened Output

  /** The branch marker in front of a node's name. */
  function Branch(isLast: bool): string {
    if isLast then "└── " else "├── "
  }

  /** What a node adds to the prefix of its children's lines. */
  function Indent(isLast: bool): string {
    if isLast then "    " else "│   "
  }

  /** The line written for a node. */
  function NodeLine(path: Path, prefix: string, isLast: bool): string {
    prefix + Branch(isLast) + Display(path)
  }

  /** The entries of a directory that are visited: the non-ignored ones, sorted. */
  ghost function Kids(node: Node, path: Path, ig: IgnoreList): (r: seq<Node>)
    requires node.Dir?
    ensures forall c :: c in r ==> c in node.children
  {
    var s := Survivors(node.children, path, ig);
    var r := SortByName(s);
    assert forall c :: c in r ==> c in multiset(s);
    r
  }

  /** The visited entries are exactly the directory's non-ignored entries. */
  lemma KidsMembers(node: Node, path: Path, ig: IgnoreList)
    requires node.Dir?
    ensures forall c :: c in Kids(node, path, ig) <==> c in node.children && !Ignored(path + [c.name], ig)
  {
    var s := Survivors(node.children, path, ig);
    var r := SortByName(s);
    SurvivorsMembers(node.children, path, ig);
    assert forall c :: c in r <==> c in multiset(r);
    assert forall c :: c in s <==> c in multiset(s);
  }

  /**
   * What `print_tree(path, prefix, isLast)` writes for `node`, and whether
   * it returns `Ok`. An ignored node writes nothing; otherwise the node's
   * line comes first, then (for a directory) its visited entries in order.
   */
  ghost function Render(node: Node, path: Path, prefix: string, isLast: bool, ig: IgnoreList): Written
    decreases node, 1
  {
    if Ignored(path, ig) then Written([], true)
    else
      var line := NodeLine(path, prefix, isLast);
      match node
      case File(_) => Written([line], true)
      case Unlistable(_) => Written([line], false)
      case Dir(_, _) =>
        var kids := Kids(node, path, ig);
        var rest := RenderSiblings(node, kids, |kids|, path, prefix + Indent(isLast), ig);
        Written([line] + rest.lines, rest.ok)
  }

  /**
   * The first `n` iterations of the loop over a directory's sorted entries
   * `kids`: each is rendered with the extended prefix, and only the final
   * entry of `kids` as the last one. The first failure ends the loop.
   */
  ghost function RenderSiblings(parent: Node, kids: seq<Node>, n: nat, path: Path, childPrefix: string, ig: IgnoreList): Written
    requires parent.Dir? && n <= |kids| && forall c :: c in kids ==> c in parent.children
    decreases parent, 0, n
  {
    if n == 0 then Written([], true)
    else
      var done := RenderSiblings(parent, kids, n - 1, path, childPrefix, ig);
      if !done.ok then done
      else
        var kid := kids[n - 1];
        assert kid in parent.children;
        var r := Render(kid, path + [kid.name], childPrefix, n == |kids|, ig);
        Written(done.lines + r.lines, r.ok)
  }

  /** The paths of the nodes `Render` writes a line for when it succeeds, in the order of the lines. */
  ghost function Shown(node: Node, path: Path, ig: IgnoreList): seq<Path>
    decreases node, 1
  {
    if Ignored(path, ig) then []
    else if node.Dir? then
      var kids := Kids(node, path, ig);
      [path] + ShownSiblings(node, kids, |kids|, path, ig)
    else [path]
  }

  ghost function ShownSiblings(parent: Node, kids: seq<Node>, n: nat, path: Path, ig: IgnoreList): seq<Path>
    requires parent.Dir? && n <= |kids| && forall c :: c in kids ==> c in parent.children
    decreases parent, 0, n
  {
    if n == 0 then []
    else
      var kid := kids[n - 1];
      assert kid in parent.children;
      ShownSiblings(parent, kids, n - 1, path, ig) + Shown(kid, path + [kid.name], ig)
  }

  /** Every line starts with `p`. */
  ghost predicate AllStartWith(lines: seq<string>, p: string) {
    forall k :: 0 <= k < |lines| ==> p <= lines[k]
  }

  lemma AllStartWithAppend(a: seq<string>, b: seq<string>, p: string)
    requires AllStartWith(a, p) && AllStartWith(b, p)
    ensures AllStartWith(a + b, p)
  {
    forall k | 0 <= k < |a + b|
      ensures p <= (a + b)[k]
    {
      if k < |a| {
        assert (a + b)[k] == a[k];
      } else {
        assert (a + b)[k] == b[k - |a|];
      }
    }
  }

  lemma AllStartWithShorter(lines: seq<string>, p: string, q: string)
    requires AllStartWith(lines, p + q)
    ensures AllStartWith(lines, p)
  {
    forall k | 0 <= k < |lines|
      ensures p <= lines[k]
    {
      assert lines[k][..|p|] == (p + q)[..|p|] == p;
    }
  }

  ghost predicate EndsWith(s: string, t: string) {
    |t| <= |s| && s[|s| - |t|..] == t
  }

  /** The directory's listing with every ignored entry filtered out, in listing order. */
  method ListEntries(children: seq<Node>, path: Path, ig: IgnoreList) returns (entries: seq<Node>)
    ensures entries == Survivors(children, path, ig)
  {
    entries := [];
    var i := 0;
    while i < |children|
      invariant 0 <= i <= |children|
      invariant entries == Survivors(children[..i], path, ig)
    {
      var c := children[i];
      var drop := ShouldIgnore(path + [c.name], ig);
      if !drop {
        entries := entries + [c];
      }
      assert children[..i + 1][..i] == children[..i];
      i := i + 1;
    }
    assert children[..|children|] == children;
  }

  /** `print_tree` itself, writing to `w`. */
  method PrintTree(w: Writer, node: Node, path: Path, prefix: string, isLast: bool, ig: IgnoreList) returns (ok: bool)
    modifies w
    ensures w.lines == old(w.lines) + Render(node, path, prefix, isLast, ig).lines
    ensures ok == Render(node, path, prefix, isLast, ig).ok
    decreases node, 1
  {
    var skip := ShouldIgnore(path, ig);
    if skip {
      return true;
    }
    RenderVisible(node, path, prefix, isLast, ig);
    w.WriteLine(NodeLine(path, prefix, isLast));
    match node {
      case File(_) =>
        ok := true;
      case Unlistable(_) =>
        ok := false;
      case Dir(_, children) =>
        var entries := ListEntries(children, path, ig);
        entries := SortByName(entries);
        assert entries == Kids(node, path, ig);
        ghost var mid := w.lines;
        ok := PrintEntries(w, node, entries, path, prefix + Indent(isLast), ig);
        AppendAssoc(old(w.lines), [NodeLine(path, prefix, isLast)], RenderSiblings(node, entries, |entries|, path, prefix + Indent(isLast), ig).lines);
    }
  }

  /** The loop of `print_tree` over a directory's sorted entries; the last one is marked last. */
  method PrintEntries(w: Writer, dir: Node, entries: seq<Node>, path: Path, childPrefix: string, ig: IgnoreList) returns (ok: bool)
    requires dir.Dir? && forall c :: c in entries ==> c in dir.children
    modifies w
    ensures w.lines == old(w.lines) + RenderSiblings(dir, entries, |entries|, path, childPrefix, ig).lines
    ensures ok == RenderSiblings(dir, entries, |entries|, path, childPrefix, ig).ok
    decreases dir, 0
  {
    var k := 0;
    while k < |entries|
      invariant 0 <= k <= |entries|
      invariant RenderSiblings(dir, entries, k, path, childPrefix, ig).ok
      invariant w.lines == old(w.lines) + RenderSiblings(dir, entries, k, path, childPrefix, ig).lines
    {
      var e := entries[k];
      SiblingsStep(dir, entries, k, path, childPrefix, ig);
      var childOk := PrintTree(w, e, path + [e.name], childPrefix, k == |entries| - 1, ig);
      AppendAssoc(old(w.lines), RenderSiblings(dir, entries, k, path, childPrefix, ig).lines,
        Render(e, path + [e.name], childPrefix, k == |entries| - 1, ig).lines);
      if !childOk {
        SiblingsStopAtFailure(dir, entries, k + 1, |entries|, path, childPrefix, ig);
        return false;
      }
      k := k + 1;
    }
    return true;
  }

  /** What a node that is not ignored writes, case by case. */
  lemma RenderVisible(node: Node, path: Path, prefix: string, isLast: bool, ig: IgnoreList)
    requires !Ignored(path, ig)
    ensures node.File? ==> Render(node, path, prefix, isLast, ig) == Written([NodeLine(path, prefix, isLast)], true)
    ensures node.Unlistable? ==> Render(node, path, prefix, isLast, ig) == Written([NodeLine(path, prefix, isLast)], false)
    ensures node.Dir? ==>
      var rest := RenderSiblings(node, Kids(node, path, ig), |Kids(node, path, ig)|, path, prefix + Indent(isLast), ig);
      Render(node, path, prefix, isLast, ig) == Written([NodeLine(path, prefix, isLast)] + rest.lines, rest.ok)
  {
  }

  /** One more iteration of the entry loop, after the earlier ones completed; a step for the proofs below. */
  lemma SiblingsStep(parent: Node, kids: seq<Node>, k: nat, path: Path, childPrefix: string, ig: IgnoreList)
    requires parent.Dir? && k < |kids| && forall c :: c in kids ==> c in parent.children
    requires RenderSiblings(parent, kids, k, path, childPrefix, ig).ok
    ensures kids[k] in parent.children
    ensures var r := Render(kids[k], path + [kids[k].name], childPrefix, k == |kids| - 1, ig);
      RenderSiblings(parent, kids, k + 1, path, childPrefix, ig) ==
      Written(RenderSiblings(parent, kids, k, path, childPrefix, ig).lines + r.lines, r.ok)
  {
  }

  /** Once an entry fails, the remaining iterations write nothing more. */
  lemma {:induction false} SiblingsStopAtFailure(parent: Node, kids: seq<Node>, n: nat, m: nat, path: Path, childPrefix: string, ig: IgnoreList)
    requires parent.Dir? && n <= m <= |kids| && forall c :: c in kids ==> c in parent.children
    requires !RenderSiblings(parent, kids, n, path, childPrefix, ig).ok
    ensures RenderSiblings(parent, kids, m, path, childPrefix, ig) == RenderSiblings(parent, kids, n, path, childPrefix, ig)
    decreases m
  {
    if m > n {
      SiblingsStopAtFailure(parent, kids, n, m - 1, path, childPrefix, ig);
    }
  }

  /** An ignored node writes nothing and is not descended into. */
  lemma RenderIgnoredIsSilent(node: Node, path: Path, prefix: string, isLast: bool, ig: IgnoreList)
    requires Ignored(path, ig)
    ensures Render(node, path, prefix, isLast, ig) == Written([], true)
  {
  }

  /** A visible node's first line is its prefix, its branch marker and its display name. */
  lemma RenderFirstLine(node: Node, path: Path, prefix: string, isLast: bool, ig: IgnoreList)
    requires !Ignored(path, ig)
    ensures var r := Render(node, path, prefix, isLast, ig);
      |r.lines| >= 1 && r.lines[0] == prefix + (if isLast then "└── " else "├── ") + Display(path)
  {
  }

  /** A file, or a directory whose entries are all ignored, writes exactly its own line. */
  lemma RenderSingleLine(node: Node, path: Path, prefix: string, isLast: bool, ig: IgnoreList)
    requires !Ignored(path, ig)
    requires node.File? || (node.Dir? && forall c :: c in node.children ==> Ignored(path + [c.name], ig))
    ensures Render(node, path, prefix, isLast, ig) == Written([NodeLine(path, prefix, isLast)], true)
  {
    if node.Dir? {
      SurvivorsAllIgnored(node.children, path, ig);
      var kids := Kids(node, path, ig);
      assert kids == [];
      assert RenderSiblings(node, kids, |kids|, path, prefix + Indent(isLast), ig) == Written([], true);
    }
  }

  /**
   * A directory's entries are visited exactly when they are not ignored,
   * each once, in ascending path order.
   */
  lemma EntriesVisitedInPathOrder(node: Node, path: Path, ig: IgnoreList)
    requires node.Dir?
    ensures var kids := Kids(node, path, ig);
      && (forall c :: c in kids <==> c in node.children && !Ignored(path + [c.name], ig))
      && multiset(kids) == multiset(Survivors(node.children, path, ig))
      && forall i, j :: 0 <= i < j < |kids| ==> PathLe(path + [kids[i].name], path + [kids[j].name])
  {
    KidsMembers(node, path, ig);
    SortedByPath(Survivors(node.children, path, ig), path);
  }

  /**
   * Every line starts with the prefix the node was given, and every line
   * after the node's own starts with that prefix extended by the node's indent.
   */
  lemma {:induction false} RenderPrefixes(node: Node, path: Path, prefix: string, isLast: bool, ig: IgnoreList)
    ensures AllStartWith(Render(node, path, prefix, isLast, ig).lines, prefix)
    ensures |Render(node, path, prefix, isLast, ig).lines| > 0 ==>
      AllStartWith(Render(node, path, prefix, isLast, ig).lines[1..], prefix + Indent(isLast))
    decreases node, 1
  {
    var r := Render(node, path, prefix, isLast, ig);
    if !Ignored(path, ig) {
      var line := NodeLine(path, prefix, isLast);
      var rest: seq<string> := [];
      if node.Dir? {
        var kids := Kids(node, path, ig);
        SiblingsPrefixes(node, kids, |kids|, path, prefix + Indent(isLast), ig);
        rest := RenderSiblings(node, kids, |kids|, path, prefix + Indent(isLast), ig).lines;
      }
      assert r.lines == [line] + rest;
      assert r.lines[1..] == rest;
      AllStartWithShorter(rest, prefix, Indent(isLast));
      AllStartWithAppend([line], rest, prefix);
    }
  }

  lemma {:induction false} SiblingsPrefixes(parent: Node, kids: seq<Node>, n: nat, path: Path, childPrefix: string, ig: IgnoreList)
    requires parent.Dir? && n <= |kids| && forall c :: c in kids ==> c in parent.children
    ensures AllStartWith(RenderSiblings(parent, kids, n, path, childPrefix, ig).lines, childPrefix)
    decreases parent, 0, n
  {
    if n > 0 {
      SiblingsPrefixes(parent, kids, n - 1, path, childPrefix, ig);
      var kid := kids[n - 1];
      assert kid in parent.children;
      RenderPrefixes(kid, path + [kid.name], childPrefix, n == |kids|, ig);
      var done := RenderSiblings(parent, kids, n - 1, path, childPrefix, ig);
      if done.ok {
        var last := Render(kid, path + [kid.name], childPrefix, n == |kids|, ig);
        AllStartWithAppend(done.lines, last.lines, childPrefix);
      }
    }
  }

  /** Line `k` shows the display name of path `k`, and there are as many lines as paths. */
  ghost predicate LinesShowPaths(lines: seq<string>, paths: seq<Path>) {
    |lines| == |paths| && forall k :: 0 <= k < |lines| ==> EndsWith(lines[k], Display(paths[k]))
  }

  lemma LinesShowPathsAppend(a: seq<string>, p: seq<Path>, b: seq<string>, q: seq<Path>)
    requires LinesShowPaths(a, p) && LinesShowPaths(b, q)
    ensures LinesShowPaths(a + b, p + q)
  {
    forall k | 0 <= k < |a + b|
      ensures EndsWith((a + b)[k], Display((p + q)[k]))
    {
      if k < |a| {
        assert (a + b)[k] == a[k] && (p + q)[k] == p[k];
      } else {
        assert (a + b)[k] == b[k - |a|] && (p + q)[k] == q[k - |a|];
      }
    }
  }

  /**
   * When it completes, `print_tree` writes one line per shown path, in the
   * same order, each line ending with that path's display name.
   */
  lemma {:induction false} RenderLinesMatchShown(node: Node, path: Path, prefix: string, isLast: bool, ig: IgnoreList)
    ensures Render(node, path, prefix, isLast, ig).ok ==>
      LinesShowPaths(Render(node, path, prefix, isLast, ig).lines, Shown(node, path, ig))
    decreases node, 1
  {
    if !Ignored(path, ig) {
      var line := NodeLine(path, prefix, isLast);
      assert EndsWith(line, Display(path));
      if node.Dir? {
        var kids := Kids(node, path, ig);
        SiblingsLinesMatchShown(node, kids, |kids|, path, prefix + Indent(isLast), ig);
        var rest := RenderSiblings(node, kids, |kids|, path, prefix + Indent(isLast), ig);
        if rest.ok {
          LinesShowPathsAppend([line], [path], rest.lines, ShownSiblings(node, kids, |kids|, path, ig));
        }
      }
    }
  }

  lemma {:induction false} SiblingsLinesMatchShown(parent: Node, kids: seq<Node>, n: nat, path: Path, childPrefix: string, ig: IgnoreList)
    requires parent.Dir? && n <= |kids| && forall c :: c in kids ==> c in parent.children
    ensures RenderSiblings(parent, kids, n, path, childPrefix, ig).ok ==>
      LinesShowPaths(RenderSiblings(parent, kids, n, path, childPrefix, ig).lines, ShownSiblings(parent, kids, n, path, ig))
    decreases parent, 0, n
  {
    if n > 0 {
      SiblingsLinesMatchShown(parent, kids, n - 1, path, childPrefix, ig);
      var kid := kids[n - 1];
      assert kid in parent.children;
      RenderLinesMatchShown(kid, path + [kid.name], childPrefix, n == |kids|, ig);
      var done := RenderSiblings(parent, kids, n - 1, path, childPrefix, ig);
      var r := Render(kid, path + [kid.name], childPrefix, n == |kids|, ig);
      var front := ShownSiblings(parent, kids, n - 1, path, ig);
      var last := Shown(kid, path + [kid.name], ig);
      if done.ok && r.ok {
        LinesShowPathsAppend(done.lines, front, r.lines, last);
        assert RenderSiblings(parent, kids, n, path, childPrefix, ig) == Written(done.lines + r.lines, true);
        assert ShownSiblings(parent, kids, n, path, ig) == front + last;
      }
    }
  }

  /**
   * `print_tree` returns `Ok` exactly when every directory of the subtree
   * whose listing fails is ignored: a visible one fails at its `read_dir`,
   * and the `?` after each entry carries the error up.
   */
  lemma RenderOkIffListed(node: Node, path: Path, prefix: string, isLast: bool, ig: IgnoreList)
    ensures Render(node, path, prefix, isLast, ig).ok <==> forall q :: UnlistableAt(node, path, q) ==> Ignored(q, ig)
  {
    if forall q :: UnlistableAt(node, path, q) ==> Ignored(q, ig) {
      HiddenFailuresRenderOk(node, path, prefix, isLast, ig);
    } else {
      var q :| UnlistableAt(node, path, q) && !Ignored(q, ig);
      VisibleFailureFails(node, path, prefix, isLast, ig, q);
    }
  }

  /** The tree pass completes when every directory that cannot be listed is ignored. */
  lemma {:induction false} HiddenFailuresRenderOk(node: Node, path: Path, prefix: string, isLast: bool, ig: IgnoreList)
    requires forall q :: UnlistableAt(node, path, q) ==> Ignored(q, ig)
    ensures Render(node, path, prefix, isLast, ig).ok
    decreases node, 1
  {
    if !Ignored(path, ig) && node.Dir? {
      var kids := Kids(node, path, ig);
      SiblingsHiddenFailuresOk(node, kids, |kids|, path, prefix + Indent(isLast), ig);
    }
  }

  lemma {:induction false} SiblingsHiddenFailuresOk(parent: Node, kids: seq<Node>, n: nat, path: Path, childPrefix: string, ig: IgnoreList)
    requires parent.Dir? && n <= |kids| && forall c :: c in kids ==> c in parent.children
    requires forall q :: UnlistableAt(parent, path, q) ==> Ignored(q, ig)
    ensures RenderSiblings(parent, kids, n, path, childPrefix, ig).ok
    decreases parent, 0, n
  {
    if n > 0 {
      SiblingsHiddenFailuresOk(parent, kids, n - 1, path, childPrefix, ig);
      var kid := kids[n - 1];
      assert kid in parent.children;
      forall q | UnlistableAt(kid, path + [kid.name], q)
        ensures Ignored(q, ig)
      {
        assert UnlistableAt(parent, path, q);
      }
      HiddenFailuresRenderOk(kid, path + [kid.name], childPrefix, n == |kids|, ig);
    }
  }

  /** A directory that cannot be listed and is not ignored makes the tree pass fail. */
  lemma {:induction false} VisibleFailureFails(node: Node, path: Path, prefix: string, isLast: bool, ig: IgnoreList, q: Path)
    requires UnlistableAt(node, path, q) && !Ignored(q, ig)
    ensures !Render(node, path, prefix, isLast, ig).ok
    decreases node, 1
  {
    UnlistableAtHasPath(node, path, q);
    if Ignored(path, ig) {
      SubtreeIgnored(node, path, q, ig);
    } else if node.Dir? {
      var c :| c in node.children && UnlistableAt(c, path + [c.name], q);
      UnlistableAtHasPath(c, path + [c.name], q);
      if Ignored(path + [c.name], ig) {
        SubtreeIgnored(c, path + [c.name], q, ig);
      } else {
        var kids := Kids(node, path, ig);
        KidsMembers(node, path, ig);
        assert c in kids;
        var j :| 0 <= j < |kids| && kids[j] == c;
        VisibleFailureFails(c, path + [c.name], prefix + Indent(isLast), j == |kids| - 1, ig, q);
        SiblingFailureStops(node, kids, |kids|, path, prefix + Indent(isLast), ig, j);
      }
    }
  }

  /** A failing entry makes the whole loop over the entries fail. */
  lemma SiblingFailureStops(parent: Node, kids: seq<Node>, n: nat, path: Path, childPrefix: string, ig: IgnoreList, j: nat)
    requires parent.Dir? && n <= |kids| && forall c :: c in kids ==> c in parent.children
    requires j < n && !Render(kids[j], path + [kids[j].name], childPrefix, j == |kids| - 1, ig).ok
    ensures !RenderSiblings(parent, kids, n, path, childPrefix, ig).ok
  {
    if RenderSiblings(parent, kids, j, path, childPrefix, ig).ok {
      assert !RenderSiblings(parent, kids, j + 1, path, childPrefix, ig).ok by {
        SiblingsStep(parent, kids, j, path, childPrefix, ig);
      }
      SiblingsStopAtFailure(parent, kids, j + 1, n, path, childPrefix, ig);
    } else {
      SiblingsStopAtFailure(parent, kids, j, n, path, childPrefix, ig);
    }
  }

  /** One step of `ShownSiblings`, stated on its own for use in the proofs below. */
  lemma ShownSiblingsUnfold(parent: Node, kids: seq<Node>, n: nat, path: Path, ig: IgnoreList)
    requires parent.Dir? && 0 < n <= |kids| && forall c :: c in kids ==> c in parent.children
    ensures kids[n - 1] in parent.children
    ensures ShownSiblings(parent, kids, n, path, ig)
      == ShownSiblings(parent, kids, n - 1, path, ig) + Shown(kids[n - 1], path + [kids[n - 1].name], ig)
  {
  }

  /** What an entry's subtree shows is shown by the loop over the entries. */
  lemma {:induction false} ShownInSiblings(parent: Node, kids: seq<Node>, n: nat, path: Path, ig: IgnoreList, j: nat, q: Path)
    requires parent.Dir? && n <= |kids| && forall c :: c in kids ==> c in parent.children
    requires j < n && q in Shown(kids[j], path + [kids[j].name], ig)
    ensures q in ShownSiblings(parent, kids, n, path, ig)
    decreases n
  {
    var before := ShownSiblings(parent, kids, n - 1, path, ig);
    var last := Shown(kids[n - 1], path + [kids[n - 1].name], ig);
    assert ShownSiblings(parent, kids, n, path, ig) == before + last by {
      ShownSiblingsUnfold(parent, kids, n, path, ig);
    }
    if j < n - 1 {
      assert q in before by {
        ShownInSiblings(parent, kids, n - 1, path, ig, j, q);
      }
    }
  }

  /** Everything the loop over the entries shows comes from one entry's subtree. */
  lemma {:induction false} SiblingOfShown(parent: Node, kids: seq<Node>, n: nat, path: Path, ig: IgnoreList, q: Path) returns (j: nat)
    requires parent.Dir? && n <= |kids| && forall c :: c in kids ==> c in parent.children
    requires q in ShownSiblings(parent, kids, n, path, ig)
    ensures j < n && q in Shown(kids[j], path + [kids[j].name], ig)
    decreases n
  {
    var kid := kids[n - 1];
    if q in Shown(kid, path + [kid.name], ig) {
      j := n - 1;
    } else {
      j := SiblingOfShown(parent, kids, n - 1, path, ig, q);
    }
  }

  /** Everything the tree shows is a path of the tree that is not ignored. */
  lemma {:induction false} ShownIsInTree(node: Node, path: Path, ig: IgnoreList, q: Path)
    requires q in Shown(node, path, ig)
    ensures HasPath(node, path, q) && !Ignored(q, ig)
    decreases node
  {
    if node.Dir? && q != path {
      var kids := Kids(node, path, ig);
      var j := SiblingOfShown(node, kids, |kids|, path, ig, q);
      assert kids[j] in node.children;
      ShownIsInTree(kids[j], path + [kids[j].name], ig, q);
    }
  }

  /** Every path of the tree that is not ignored is shown. */
  lemma {:induction false} UnignoredIsShown(node: Node, path: Path, ig: IgnoreList, q: Path)
    requires HasPath(node, path, q) && !Ignored(q, ig)
    ensures q in Shown(node, path, ig)
    decreases node
  {
    if Ignored(path, ig) {
      SubtreeIgnored(node, path, q, ig);
    } else if q != path {
      var kids := Kids(node, path, ig);
      var c :| c in node.children && HasPath(c, path + [c.name], q);
      if Ignored(path + [c.name], ig) {
        SubtreeIgnored(c, path + [c.name], q, ig);
      }
      KidsMembers(node, path, ig);
      assert c in kids;
      var j :| 0 <= j < |kids| && kids[j] == c;
      UnignoredIsShown(c, path + [c.name], ig, q);
      ShownInSiblings(node, kids, |kids|, path, ig, j, q);
    }
  }

  /**
   * The tree shows a path exactly when it belongs to the tree and is not
   * ignored: pruning at ignored directories loses nothing, because
   * everything below an ignored directory is ignored too.
   */
  lemma ShownIsUnignored(node: Node, path: Path, ig: IgnoreList, q: Path)
    ensures q in Shown(node, path, ig) <==> HasPath(node, path, q) && !Ignored(q, ig)
  {
    if q in Shown(node, path, ig) {
      ShownIsInTree(node, path, ig, q);
    }
    if HasPath(node, path, q) && !Ignored(q, ig) {
      UnignoredIsShown(node, path, ig, q);
    }
  }
}
