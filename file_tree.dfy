/**
 * The filesystem as the tree pass sees it, the directory entries that
 * survive the ignore filter, and the ordering `sort_by_key(|e| e.path())`
 * puts them in.
 */
module FileTree {
  import opened Strings
  import opened Paths
  import opened PathFilter

  /**
   * A filesystem node. `Unlistable` is a directory whose listing
   * (`read_dir`) fails. A node's path is its parent's path extended by its name.
   */
  datatype Node =
    | File(name: string)
    | Dir(name: string, children: seq<Node>)
    | Unlistable(name: string)

  /** `q` is the path of `node` (located at `path`) or of one of its descendants. */
  ghost predicate HasPath(node: Node, path: Path, q: Path)
    decreases node
  {
    q == path || (node.Dir? && exists c :: c in node.children && HasPath(c, path + [c.name], q))
  }

  /** `q` is the path of a regular file at or below `node`. */
  ghost predicate FileAt(node: Node, path: Path, q: Path)
    decreases node
  {
    (node.File? && q == path) || (node.Dir? && exists c :: c in node.children && FileAt(c, path + [c.name], q))
  }

  /** `q` is the path of a directory at or below `node` whose listing fails. */
  ghost predicate UnlistableAt(node: Node, path: Path, q: Path)
    decreases node
  {
    (node.Unlistable? && q == path) || (node.Dir? && exists c :: c in node.children && UnlistableAt(c, path + [c.name], q))
  }

  /** Every path in a subtree extends the subtree's own path. */
  lemma {:induction false} HasPathExtends(node: Node, path: Path, q: Path)
    requires HasPath(node, path, q)
    ensures path <= q
    decreases node
  {
    if q != path {
      var c :| c in node.children && HasPath(c, path + [c.name], q);
      HasPathExtends(c, path + [c.name], q);
    }
  }

  /** Every file of a subtree is one of its paths. */
  lemma {:induction false} FileAtHasPath(node: Node, path: Path, q: Path)
    requires FileAt(node, path, q)
    ensures HasPath(node, path, q)
    decreases node
  {
    if !(node.File? && q == path) {
      var c :| c in node.children && FileAt(c, path + [c.name], q);
      FileAtHasPath(c, path + [c.name], q);
    }
  }

  /** Every directory of a subtree that fails to list is one of its paths. */
  lemma {:induction false} UnlistableAtHasPath(node: Node, path: Path, q: Path)
    requires UnlistableAt(node, path, q)
    ensures HasPath(node, path, q)
    decreases node
  {
    if !(node.Unlistable? && q == path) {
      var c :| c in node.children && UnlistableAt(c, path + [c.name], q);
      UnlistableAtHasPath(c, path + [c.name], q);
    }
  }

  /** When a node is ignored, every path of its subtree is ignored as well. */
  lemma SubtreeIgnored(node: Node, path: Path, q: Path, ig: IgnoreList)
    requires Ignored(path, ig) && HasPath(node, path, q)
    ensures Ignored(q, ig)
  {
    HasPathExtends(node, path, q);
    IgnoredExtends(path, q[|path|..], ig);
    assert path + q[|path|..] == q;
  }

  /** The entries of a directory listing that the ignore filter keeps, in listing order. */
  ghost function Survivors(cs: seq<Node>, parent: Path, ig: IgnoreList): (r: seq<Node>)
    ensures forall c :: c in r ==> c in cs
    decreases |cs|
  {
    if |cs| == 0 then []
    else
      var last := cs[|cs| - 1];
      assert cs == cs[..|cs| - 1] + [last];
      Survivors(cs[..|cs| - 1], parent, ig) + (if Ignored(parent + [last.name], ig) then [] else [last])
  }

  /** The filter keeps exactly the entries whose paths are not ignored. */
  lemma {:induction false} SurvivorsMembers(cs: seq<Node>, parent: Path, ig: IgnoreList)
    ensures forall c :: c in Survivors(cs, parent, ig) <==> c in cs && !Ignored(parent + [c.name], ig)
    decreases |cs|
  {
    if |cs| > 0 {
      SurvivorsMembers(cs[..|cs| - 1], parent, ig);
      assert cs == cs[..|cs| - 1] + [cs[|cs| - 1]];
    }
  }

  /** When every entry is ignored, nothing is kept. */
  lemma {:induction false} SurvivorsAllIgnored(cs: seq<Node>, parent: Path, ig: IgnoreList)
    requires forall c :: c in cs ==> Ignored(parent + [c.name], ig)
    ensures Survivors(cs, parent, ig) == []
    decreases |cs|
  {
    if |cs| > 0 {
      assert cs[|cs| - 1] in cs;
      assert forall c :: c in cs[..|cs| - 1] ==> c in cs;
      SurvivorsAllIgnored(cs[..|cs| - 1], parent, ig);
    }
  }

  predicate NamesSorted(s: seq<Node>) {
    forall i, j :: 0 <= i < j < |s| ==> StrLe(s[i].name, s[j].name)
  }

  /** Places `x` before the first element whose name is not below its own. */
  function InsertByName(x: Node, s: seq<Node>): (r: seq<Node>)
    ensures multiset(r) == multiset(s) + multiset{x}
    decreases |s|
  {
    if |s| == 0 || StrLe(x.name, s[0].name) then [x] + s
    else
      assert s == [s[0]] + s[1..];
      [s[0]] + InsertByName(x, s[1..])
  }

  lemma {:induction false} InsertKeepsSorted(x: Node, s: seq<Node>)
    requires NamesSorted(s)
    ensures NamesSorted(InsertByName(x, s))
    decreases |s|
  {
    var r := InsertByName(x, s);
    if |s| == 0 {
    } else if StrLe(x.name, s[0].name) {
      forall j | 1 <= j < |r|
        ensures StrLe(x.name, r[j].name)
      {
        if j > 1 {
          StrLeTrans(x.name, s[0].name, s[j - 1].name);
        }
      }
    } else {
      StrLeTotal(x.name, s[0].name);
      InsertKeepsSorted(x, s[1..]);
      var t := InsertByName(x, s[1..]);
      forall j | 0 <= j < |t|
        ensures StrLe(s[0].name, t[j].name)
      {
        assert t[j] in multiset(s[1..]) + multiset{x};
        if t[j] != x {
          assert t[j] in s[1..];
          var k :| 0 <= k < |s[1..]| && s[1..][k] == t[j];
          assert s[k + 1] == t[j];
        }
      }
    }
  }

  /** A stable sort of sibling entries by name (insertion sort); a permutation of its input. */
  function SortByName(s: seq<Node>): (r: seq<Node>)
    ensures multiset(r) == multiset(s)
    decreases |s|
  {
    if |s| == 0 then []
    else
      assert s == [s[0]] + s[1..];
      InsertByName(s[0], SortByName(s[1..]))
  }

  /** The sorted entries are in ascending name order. */
  lemma {:induction false} SortByNameSorted(s: seq<Node>)
    ensures NamesSorted(SortByName(s))
    decreases |s|
  {
    if |s| > 0 {
      SortByNameSorted(s[1..]);
      InsertKeepsSorted(s[0], SortByName(s[1..]));
    }
  }

  /** Sorting siblings by name is sorting them by path, as `sort_by_key(|e| e.path())` does. */
  lemma SortedByPath(s: seq<Node>, parent: Path)
    ensures forall i, j :: 0 <= i < j < |SortByName(s)| ==>
      PathLe(parent + [SortByName(s)[i].name], parent + [SortByName(s)[j].name])
  {
    var r := SortByName(s);
    SortByNameSorted(s);
    forall i, j | 0 <= i < j < |r|
      ensures PathLe(parent + [r[i].name], parent + [r[j].name])
    {
      SiblingOrder(parent, r[i].name, r[j].name);
    }
  }
}
