/**
 * One small project, `proj` holding `a.txt` and `sub/b.txt`, run through
 * the whole model with and without `--ignore sub`.
 */
module Scenario {
  import opened Wrappers
  import opened Strings
  import opened Paths
  import opened PathFilter
  import opened IgnoreArg
  import opened FileTree
  import opened Output
  import opened TreeRender
  import opened ContentDump
  import opened Combiner

  /** The input directory as the tree pass sees it, in `read_dir` order. */
  function SampleTree(): Node {
    Dir("proj", [Dir("sub", [File("b.txt")]), File("a.txt")])
  }

  /** The same directory as the recursive walk yields it. */
  function SampleWalk(): seq<Entry> {
    [Entry(["proj"], false, None), Entry(["proj", "sub"], false, None),
     Entry(["proj", "sub", "b.txt"], true, Some("bye")), Entry(["proj", "a.txt"], true, Some("hi"))]
  }

  lemma RootNotIgnored(ig: IgnoreList)
    requires ig == Some(["sub"])
    ensures !Ignored(["proj"], ig)
  {
    IgnoreSubOnSample();
  }

  /** `sub` matches the paths under `proj/sub` and nothing else. */
  lemma IgnoreSubOnSample()
    ensures !Ignored(["proj"], Some(["sub"]))
    ensures !Ignored(["proj", "a.txt"], Some(["sub"]))
    ensures Ignored(["proj", "sub"], Some(["sub"]))
    ensures Ignored(["proj", "sub", "b.txt"], Some(["sub"]))
  {
    AbsentFirstChar("sub", "proj");
    assert Text(["proj", "a.txt"]) == "proj/a.txt";
    AbsentFirstChar("sub", "proj/a.txt");
    assert Text(["proj", "sub"]) == "proj/sub";
    assert "proj/sub"[5..] == "sub";
    assert OccursAt("sub", Text(["proj", "sub"]), 5);
    assert "sub" in ["sub"] && IsSubstring("sub", Text(["proj", "sub"]));
    IgnoredExtends(["proj", "sub"], ["b.txt"], Some(["sub"]));
    assert ["proj", "sub"] + ["b.txt"] == ["proj", "sub", "b.txt"];
  }

  /** A literal step of the scenario lemmas, stated on its own. */
  lemma SampleLines()
    ensures NodeLine(["proj"], "", true) == "└── proj"
    ensures NodeLine(["proj", "a.txt"], "    ", true) == "    └── a.txt"
  {
    assert Display(["proj", "a.txt"]) == "a.txt";
  }

  lemma IgnoringSubKids(tree: Node, ig: IgnoreList)
    requires tree == SampleTree() && ig == Some(["sub"])
    ensures Kids(tree, ["proj"], ig) == [File("a.txt")]
  {
    IgnoreSubOnSample();
    var a := File("a.txt");
    var sub := Dir("sub", [File("b.txt")]);
    assert [sub, a][..1] == [sub] && [sub][..0] == [];
    assert Survivors([sub], ["proj"], ig) == [];
    assert Survivors([sub, a], ["proj"], ig) == [a];
  }

  lemma IgnoringSubEntries(tree: Node, kids: seq<Node>, ig: IgnoreList)
    requires tree == SampleTree() && ig == Some(["sub"]) && kids == [File("a.txt")]
    ensures RenderSiblings(tree, kids, |kids|, ["proj"], "    ", ig) == Written(["    └── a.txt"], true)
  {
    IgnoreSubOnSample();
    SampleLines();
    assert Render(kids[0], ["proj", "a.txt"], "    ", true, ig) == Written(["    └── a.txt"], true);
  }

  /** With `sub` ignored the diagram is the root and `a.txt`. */
  lemma SampleTreeIgnoringSub(tree: Node, ig: IgnoreList)
    requires tree == SampleTree() && ig == Some(["sub"])
    ensures Render(tree, ["proj"], "", true, ig) == Written(["└── proj", "    └── a.txt"], true)
  {
    assert "" + Indent(true) == "    ";
    IgnoringSubKids(tree, ig);
    IgnoringSubEntries(tree, Kids(tree, ["proj"], ig), ig);
    RootNotIgnored(ig);
    RenderVisible(tree, ["proj"], "", true, ig);
    SampleLines();
  }

  /** With `sub` ignored only `a.txt` is dumped. */
  lemma SampleDumpIgnoringSub(walk: seq<Entry>, ig: IgnoreList)
    requires walk == SampleWalk() && ig == Some(["sub"])
    ensures Dump(walk, ["proj"], ig) == Written(["=== a.txt ===\n", "hi\n"], true)
  {
    IgnoreSubOnSample();
    var e0, e1, e2, e3 := walk[0], walk[1], walk[2], walk[3];
    assert e0 == Entry(["proj"], false, None);
    assert e1 == Entry(["proj", "sub"], false, None);
    assert e2 == Entry(["proj", "sub", "b.txt"], true, Some("bye"));
    assert e3 == Entry(["proj", "a.txt"], true, Some("hi"));
    assert walk == [e0, e1, e2, e3];
    assert [e0][..0] == [] && [e0, e1][..1] == [e0] && [e0, e1, e2][..2] == [e0, e1] && walk[..3] == [e0, e1, e2];
    assert Dump([e0], ["proj"], ig) == Written([], true);
    assert Dump([e0, e1], ["proj"], ig) == Written([], true);
    assert Dump([e0, e1, e2], ["proj"], ig) == Written([], true);
    SampleBlocks(walk);
  }

  /** A literal step of the scenario lemmas, stated on its own. */
  lemma IgnoringSubOutput()
    ensures [TreeHeading] + ["└── proj", "    └── a.txt"] + [ContentsHeading] + ["=== a.txt ===\n", "hi\n"]
      == ["Directory Structure:\n", "└── proj", "    └── a.txt", "\nFile Contents:\n", "=== a.txt ===\n", "hi\n"]
  {
  }

  /** Ignoring `sub` removes the directory and its file from both the tree and the contents. */
  lemma IgnoringSubHidesItEverywhere(tree: Node, walk: seq<Entry>, arg: Option<string>)
    requires tree == SampleTree() && walk == SampleWalk() && arg == Some("sub")
    ensures Combined(true, tree, ["proj"], walk, arg).outcome == Success
    ensures Combined(true, tree, ["proj"], walk, arg).output
      == ["Directory Structure:\n", "└── proj", "    └── a.txt", "\nFile Contents:\n", "=== a.txt ===\n", "hi\n"]
  {
    SplitNoComma("sub");
    var ig := ParseIgnore(arg);
    assert ig == Some(["sub"]);
    SampleTreeIgnoringSub(tree, ig);
    SampleDumpIgnoringSub(walk, ig);
    var treeLines: seq<string> := ["└── proj", "    └── a.txt"];
    var dumpLines: seq<string> := ["=== a.txt ===\n", "hi\n"];
    assert Combined(true, tree, ["proj"], walk, arg).output == [TreeHeading] + treeLines + [ContentsHeading] + dumpLines;
    IgnoringSubOutput();
  }

  lemma FullSampleLines()
    ensures NodeLine(["proj", "a.txt"], "    ", false) == "    ├── a.txt"
    ensures NodeLine(["proj", "sub"], "    ", true) == "    └── sub"
    ensures NodeLine(["proj", "sub", "b.txt"], "        ", true) == "        └── b.txt"
  {
    assert Display(["proj", "a.txt"]) == "a.txt";
    assert Display(["proj", "sub"]) == "sub";
    assert Display(["proj", "sub", "b.txt"]) == "b.txt";
  }

  lemma SubKids(sub: Node)
    requires sub == Dir("sub", [File("b.txt")])
    ensures Kids(sub, ["proj", "sub"], None) == [File("b.txt")]
  {
    var b := File("b.txt");
    assert [b][..0] == [];
    assert Survivors([b], ["proj", "sub"], None) == [b];
  }

  lemma SubRendersAlone(sub: Node)
    requires sub == Dir("sub", [File("b.txt")])
    ensures Render(sub, ["proj", "sub"], "    ", true, None) == Written(["    └── sub", "        └── b.txt"], true)
  {
    FullSampleLines();
    SubKids(sub);
    var b := File("b.txt");
    assert ["proj", "sub"] + ["b.txt"] == ["proj", "sub", "b.txt"];
    assert Render(b, ["proj", "sub", "b.txt"], "        ", true, None) == Written(["        └── b.txt"], true);
    assert RenderSiblings(sub, [b], 1, ["proj", "sub"], "        ", None) == Written(["        └── b.txt"], true);
    assert "    " + Indent(true) == "        ";
    RenderVisible(sub, ["proj", "sub"], "    ", true, None);
  }

  lemma SampleSurvivors(a: Node, sub: Node)
    requires a == File("a.txt") && sub == Dir("sub", [File("b.txt")])
    ensures Survivors([sub, a], ["proj"], None) == [sub, a]
  {
    assert [sub, a][..1] == [sub] && [sub][..0] == [];
    assert Survivors([sub], ["proj"], None) == [sub];
  }

  lemma SampleSort(a: Node, sub: Node)
    requires a == File("a.txt") && sub == Dir("sub", [File("b.txt")])
    ensures SortByName([sub, a]) == [a, sub]
  {
    assert [sub, a][1..] == [a];
    assert !StrLe("sub", "a.txt");
  }

  /** The root's entries are visited sorted by name: `a.txt` before `sub`. */
  lemma SampleKids(tree: Node)
    requires tree == SampleTree()
    ensures Kids(tree, ["proj"], None) == [File("a.txt"), Dir("sub", [File("b.txt")])]
  {
    SampleSurvivors(File("a.txt"), Dir("sub", [File("b.txt")]));
    SampleSort(File("a.txt"), Dir("sub", [File("b.txt")]));
  }

  lemma SampleSiblings(tree: Node, kids: seq<Node>)
    requires tree == SampleTree() && kids == [File("a.txt"), Dir("sub", [File("b.txt")])]
    ensures RenderSiblings(tree, kids, 2, ["proj"], "    ", None)
      == Written(["    ├── a.txt", "    └── sub", "        └── b.txt"], true)
  {
    FullSampleLines();
    SubRendersAlone(kids[1]);
    assert Render(kids[0], ["proj", "a.txt"], "    ", false, None) == Written(["    ├── a.txt"], true);
    assert RenderSiblings(tree, kids, 1, ["proj"], "    ", None) == Written(["    ├── a.txt"], true);
  }

  lemma UnfilteredEntries(tree: Node, kids: seq<Node>)
    requires tree == SampleTree() && kids == Kids(tree, ["proj"], None)
    ensures RenderSiblings(tree, kids, |kids|, ["proj"], "    ", None)
      == Written(["    ├── a.txt", "    └── sub", "        └── b.txt"], true)
  {
    SampleKids(tree);
    SampleSiblings(tree, kids);
  }

  /** The full diagram: `├──` for the first entry, `└──` and the deeper indent for the last. */
  lemma SampleTreeUnfiltered(tree: Node)
    requires tree == SampleTree()
    ensures Render(tree, ["proj"], "", true, None)
      == Written(["└── proj", "    ├── a.txt", "    └── sub", "        └── b.txt"], true)
  {
    assert "" + Indent(true) == "    ";
    UnfilteredEntries(tree, Kids(tree, ["proj"], None));
    RenderVisible(tree, ["proj"], "", true, None);
    SampleLines();
    UnfilteredLines();
  }

  /** A literal step of the scenario lemmas, stated on its own. */
  lemma UnfilteredLines()
    ensures ["└── proj"] + ["    ├── a.txt", "    └── sub", "        └── b.txt"]
      == ["└── proj", "    ├── a.txt", "    └── sub", "        └── b.txt"]
  {
  }

  lemma SampleBlocks(walk: seq<Entry>)
    requires walk == SampleWalk()
    ensures Block(walk[2], ["proj"]) == ["=== sub/b.txt ===\n", "bye\n"]
    ensures Block(walk[3], ["proj"]) == ["=== a.txt ===\n", "hi\n"]
  {
    assert Relative(["proj", "sub", "b.txt"], ["proj"]) == ["sub", "b.txt"];
    assert Text(["sub", "b.txt"]) == "sub/b.txt";
    assert Relative(["proj", "a.txt"], ["proj"]) == ["a.txt"];
    assert Text(["a.txt"]) == "a.txt";
    assert Header(["sub", "b.txt"]) == "=== sub/b.txt ===\n" && Body("bye") == "bye\n";
    assert Header(["a.txt"]) == "=== a.txt ===\n" && Body("hi") == "hi\n";
    assert walk[2].path == ["proj", "sub", "b.txt"] && walk[2].contents == Some("bye");
    assert walk[3].path == ["proj", "a.txt"] && walk[3].contents == Some("hi");
  }

  /** Without filtering, the files are dumped in walk order. */
  lemma SampleDumpUnfiltered(walk: seq<Entry>)
    requires walk == SampleWalk()
    ensures Dump(walk, ["proj"], None) == Written(["=== sub/b.txt ===\n", "bye\n", "=== a.txt ===\n", "hi\n"], true)
  {
    SampleBlocks(walk);
    var e0, e1, e2, e3 := walk[0], walk[1], walk[2], walk[3];
    assert walk == [e0, e1, e2, e3];
    assert [e0][..0] == [] && [e0, e1][..1] == [e0] && [e0, e1, e2][..2] == [e0, e1] && walk[..3] == [e0, e1, e2];
    assert Dump([e0], ["proj"], None) == Written([], true);
    assert Dump([e0, e1], ["proj"], None) == Written([], true);
    assert Dump([e0, e1, e2], ["proj"], None) == Written(["=== sub/b.txt ===\n", "bye\n"], true);
  }

  /** A literal step of the scenario lemmas, stated on its own. */
  lemma UnfilteredOutput()
    ensures [TreeHeading] + ["└── proj", "    ├── a.txt", "    └── sub", "        └── b.txt"] + [ContentsHeading]
        + ["=== sub/b.txt ===\n", "bye\n", "=== a.txt ===\n", "hi\n"]
      == ["Directory Structure:\n", "└── proj", "    ├── a.txt", "    └── sub", "        └── b.txt",
          "\nFile Contents:\n", "=== sub/b.txt ===\n", "bye\n", "=== a.txt ===\n", "hi\n"]
  {
  }

  /**
   * Without `--ignore`, the tree lists `a.txt` before `sub` (sorted by name)
   * while the contents follow the walk, `sub/b.txt` first.
   */
  lemma SampleRun(tree: Node, walk: seq<Entry>)
    requires tree == SampleTree() && walk == SampleWalk()
    ensures Combined(true, tree, ["proj"], walk, None).outcome == Success
    ensures Combined(true, tree, ["proj"], walk, None).output
      == ["Directory Structure:\n", "└── proj", "    ├── a.txt", "    └── sub", "        └── b.txt",
          "\nFile Contents:\n", "=== sub/b.txt ===\n", "bye\n", "=== a.txt ===\n", "hi\n"]
  {
    SampleTreeUnfiltered(tree);
    SampleDumpUnfiltered(walk);
    UnfilteredOutput();
  }
}
