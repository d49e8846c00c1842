/**
 * The program's `main`: build the ignore list, check the input, then write
 * the tree diagram and the file contents, in that order, into one output.
 */
module Combiner {
  import opened Wrappers
  import opened Paths
  import opened PathFilter
  import opened IgnoreArg
  import opened FileTree
  import opened Output
  import opened TreeRender
  import opened ContentDump

  /** How a run ends: normally, on a missing input directory (exit status 1), or on an I/O error. */
  datatype Outcome = Success | MissingInput | IoError

  /** How a run ends and what the output file holds; no file is created when the input is missing. */
  datatype Run = Run(outcome: Outcome, output: seq<string>)

  const TreeHeading := "Directory Structure:\n"
  const ContentsHeading := "\nFile Contents:\n"

  /**
   * A run over the input directory `input`, whose contents are `tree` for
   * the tree pass and `walk` for the content pass.
   */
  ghost function Combined(inputExists: bool, tree: Node, input: Path, walk: seq<Entry>, ignoreArg: Option<string>): Run {
    if !inputExists then Run(MissingInput, [])
    else
      var ig := ParseIgnore(ignoreArg);
      var t := Render(tree, input, "", true, ig);
      if !t.ok then Run(IoError, [TreeHeading] + t.lines)
      else
        var d := Dump(walk, input, ig);
        Run(if d.ok then Success else IoError, [TreeHeading] + t.lines + [ContentsHeading] + d.lines)
  }

  /** `main` after argument parsing. */
  method Combine(inputExists: bool, tree: Node, input: Path, walk: seq<Entry>, ignoreArg: Option<string>) returns (run: Run)
    ensures run == Combined(inputExists, tree, input, walk, ignoreArg)
  {
    var ig := ParseIgnore(ignoreArg);
    if !inputExists {
      return Run(MissingInput, []);
    }
    ghost var t := Render(tree, input, "", true, ig);
    ghost var d := Dump(walk, input, ig);
    var w := new Writer();
    w.WriteLine(TreeHeading);
    var treeOk := PrintTree(w, tree, input, "", true, ig);
    assert w.lines == [TreeHeading] + t.lines;
    if !treeOk {
      return Run(IoError, w.lines);
    }
    w.WriteLine(ContentsHeading);
    var dumpOk := DumpContents(w, walk, input, ig);
    assert w.lines == [TreeHeading] + t.lines + [ContentsHeading] + d.lines;
    run := Run(if dumpOk then Success else IoError, w.lines);
  }

  /**
   * A run succeeds exactly when the input exists, every directory whose
   * listing fails is ignored, and every kept file can be read; an I/O
   * error is the outcome in every other case with an existing input.
   */
  lemma CombinedSucceedsIff(inputExists: bool, tree: Node, input: Path, walk: seq<Entry>, ignoreArg: Option<string>)
    ensures var ig := ParseIgnore(ignoreArg);
      Combined(inputExists, tree, input, walk, ignoreArg).outcome == Success <==>
        && inputExists
        && (forall q :: UnlistableAt(tree, input, q) ==> Ignored(q, ig))
        && (forall e :: e in Kept(walk, ig) ==> e.contents.Some?)
    ensures inputExists ==> Combined(inputExists, tree, input, walk, ignoreArg).outcome != MissingInput
  {
    var ig := ParseIgnore(ignoreArg);
    RenderOkIffListed(tree, input, "", true, ig);
    DumpSucceedsIffReadable(walk, input, ig);
  }

  /**
   * `walk` visits exactly the nodes of `tree` below `input` (in any order)
   * and classifies each correctly as a regular file or not.
   */
  ghost predicate WalkCovers(walk: seq<Entry>, tree: Node, input: Path) {
    && (forall e :: e in walk ==> HasPath(tree, input, e.path) && (e.isFile <==> FileAt(tree, input, e.path)))
    && (forall q :: HasPath(tree, input, q) ==> exists e :: e in walk && e.path == q)
  }

  /**
   * The two passes agree: an entry of the walk is dumped exactly when it is
   * a file the tree diagram shows, and every file the diagram shows is dumped.
   */
  lemma TreeAndDumpAgree(tree: Node, input: Path, walk: seq<Entry>, ig: IgnoreList)
    requires WalkCovers(walk, tree, input)
    ensures forall e :: e in walk ==> (e in Kept(walk, ig) <==> e.isFile && e.path in Shown(tree, input, ig))
    ensures forall q :: q in Shown(tree, input, ig) && FileAt(tree, input, q) ==>
      exists e :: e in Kept(walk, ig) && e.path == q
  {
    KeptMembers(walk, ig);
    forall e | e in walk
      ensures e in Kept(walk, ig) <==> e.isFile && e.path in Shown(tree, input, ig)
    {
      ShownIsUnignored(tree, input, ig, e.path);
    }
    forall q | q in Shown(tree, input, ig) && FileAt(tree, input, q)
      ensures exists e :: e in Kept(walk, ig) && e.path == q
    {
      ShownIsUnignored(tree, input, ig, q);
      var e :| e in walk && e.path == q;
      assert e in Kept(walk, ig);
    }
  }
}
