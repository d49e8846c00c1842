/**
 * ContentDumper: the loop of `main` over the recursive walk of the input
 * directory, which writes every non-ignored regular file under a header
 * naming its path relative to the input root.
 */
module ContentDump {
  import opened Wrappers
  import opened Paths
  import opened PathFilter
  import opened Output

  /**
   * One item of the walk: its path, whether it is a regular file, and its
   * contents, or `None` when reading them as text fails.
   */
  datatype Entry = Entry(path: Path, isFile: bool, contents: Option<string>)

  /** The header line written before a file's contents. */
  function Header(rel: Path): string {
    "=== " + Text(rel) + " ===\n"
  }

  /** The line written with a file's contents. */
  function Body(contents: string): string {
    contents + "\n"
  }

  /** What the loop writes for a kept file: its header, then its contents if they can be read. */
  function Block(e: Entry, root: Path): seq<string> {
    var header := Header(Relative(e.path, root));
    match e.contents
    case Some(c) => [header, Body(c)]
    case None => [header]
  }

  ghost function Blocks(es: seq<Entry>, root: Path): seq<string>
    decreases |es|
  {
    if |es| == 0 then [] else Blocks(es[..|es| - 1], root) + Block(es[|es| - 1], root)
  }

  /** The entries the loop writes something for: regular files that are not ignored, in walk order. */
  ghost function Kept(entries: seq<Entry>, ig: IgnoreList): seq<Entry>
    decreases |entries|
  {
    if |entries| == 0 then []
    else
      var e := entries[|entries| - 1];
      Kept(entries[..|entries| - 1], ig) + (if e.isFile && !Ignored(e.path, ig) then [e] else [])
  }

  /** How many entries from the front can be read. */
  ghost function ReadableRun(es: seq<Entry>): (n: nat)
    ensures n <= |es|
    decreases |es|
  {
    if |es| == 0 then 0
    else
      var r := ReadableRun(es[..|es| - 1]);
      if r < |es| - 1 || es[|es| - 1].contents.None? then r else |es|
  }

  /**
   * What the loop writes for `entries`, and whether it ends without an
   * error. Ignored entries and anything that is not a regular file write
   * nothing; a file that cannot be read ends the loop after its header.
   */
  ghost function Dump(entries: seq<Entry>, root: Path, ig: IgnoreList): Written
    decreases |entries|
  {
    if |entries| == 0 then Written([], true)
    else
      var done := Dump(entries[..|entries| - 1], root, ig);
      var e := entries[|entries| - 1];
      if !done.ok || !e.isFile || Ignored(e.path, ig) then done
      else Written(done.lines + Block(e, root), e.contents.Some?)
  }

  /** The loop itself, writing to `w`. */
  method DumpContents(w: Writer, entries: seq<Entry>, root: Path, ig: IgnoreList) returns (ok: bool)
    modifies w
    ensures w.lines == old(w.lines) + Dump(entries, root, ig).lines
    ensures ok == Dump(entries, root, ig).ok
  {
    var i := 0;
    while i < |entries|
      invariant 0 <= i <= |entries|
      invariant Dump(entries[..i], root, ig).ok
      invariant w.lines == old(w.lines) + Dump(entries[..i], root, ig).lines
    {
      var e := entries[i];
      assert entries[..i + 1][..i] == entries[..i];
      ghost var done := Dump(entries[..i], root, ig).lines;
      var skip := ShouldIgnore(e.path, ig);
      if !skip && e.isFile {
        var rel := Relative(e.path, root);
        w.WriteLine(Header(rel));
        if e.contents.None? {
          DumpStopsAtFailure(entries, i + 1, root, ig);
          assert entries[..|entries|] == entries;
          AppendAssoc(old(w.lines), done, [Header(rel)]);
          return false;
        }
        w.WriteLine(Body(e.contents.value));
        AppendAssoc(old(w.lines), done, [Header(rel), Body(e.contents.value)]);
      }
      i := i + 1;
    }
    assert entries[..|entries|] == entries;
    return true;
  }

  /** After a failure the rest of the walk writes nothing. */
  lemma {:induction false} DumpStopsAtFailure(entries: seq<Entry>, n: nat, root: Path, ig: IgnoreList)
    requires n <= |entries| && !Dump(entries[..n], root, ig).ok
    ensures Dump(entries, root, ig) == Dump(entries[..n], root, ig)
    decreases |entries|
  {
    if n < |entries| {
      assert entries[..|entries| - 1][..n] == entries[..n];
      DumpStopsAtFailure(entries[..|entries| - 1], n, root, ig);
    } else {
      assert entries[..n] == entries;
    }
  }

  /** An entry is kept exactly when it is a regular file whose path is not ignored. */
  lemma {:induction false} KeptMembers(entries: seq<Entry>, ig: IgnoreList)
    ensures forall e :: e in Kept(entries, ig) <==> e in entries && e.isFile && !Ignored(e.path, ig)
    decreases |entries|
  {
    if |entries| > 0 {
      KeptMembers(entries[..|entries| - 1], ig);
      assert entries == entries[..|entries| - 1] + [entries[|entries| - 1]];
    }
  }

  /**
   * The blocks of `kept` up to and including the first one that cannot be
   * read, and whether all of them can be read.
   */
  ghost function BlocksUntilUnreadable(kept: seq<Entry>, root: Path): Written {
    var j := ReadableRun(kept);
    Written(Blocks(kept[..if j < |kept| then j + 1 else j], root), j == |kept|)
  }

  lemma BlocksUntilUnreadableStep(k0: seq<Entry>, e: Entry, root: Path)
    ensures var before := BlocksUntilUnreadable(k0, root);
      BlocksUntilUnreadable(k0 + [e], root) ==
        if before.ok then Written(before.lines + Block(e, root), e.contents.Some?) else before
  {
    var kept := k0 + [e];
    var j0 := ReadableRun(k0);
    assert kept[..|kept| - 1] == k0;
    if j0 < |k0| {
      assert ReadableRun(kept) == j0;
      assert kept[..j0 + 1] == k0[..j0 + 1];
    } else {
      assert k0[..j0] == k0;
      assert kept[..|kept|] == kept;
      assert Blocks(kept, root) == Blocks(k0, root) + Block(e, root);
    }
  }

  /**
   * The dump is the blocks of the kept files in walk order. It stops after
   * the header of the first kept file that cannot be read, and it succeeds
   * exactly when every kept file can be read.
   */
  lemma {:induction false} DumpIsBlocks(entries: seq<Entry>, root: Path, ig: IgnoreList)
    ensures Dump(entries, root, ig) == BlocksUntilUnreadable(Kept(entries, ig), root)
    decreases |entries|
  {
    if |entries| > 0 {
      var front := entries[..|entries| - 1];
      var e := entries[|entries| - 1];
      DumpIsBlocks(front, root, ig);
      if e.isFile && !Ignored(e.path, ig) {
        assert Kept(entries, ig) == Kept(front, ig) + [e];
        BlocksUntilUnreadableStep(Kept(front, ig), e, root);
      } else {
        assert Kept(entries, ig) == Kept(front, ig);
      }
    } else {
      assert Kept(entries, ig) == [];
    }
  }

  /** The dump succeeds exactly when every kept file can be read, and then writes all their blocks. */
  lemma DumpSucceedsIffReadable(entries: seq<Entry>, root: Path, ig: IgnoreList)
    ensures Dump(entries, root, ig).ok <==> forall e :: e in Kept(entries, ig) ==> e.contents.Some?
    ensures Dump(entries, root, ig).ok ==> Dump(entries, root, ig).lines == Blocks(Kept(entries, ig), root)
  {
    DumpIsBlocks(entries, root, ig);
    var kept := Kept(entries, ig);
    ReadableRunSpec(kept);
    if ReadableRun(kept) == |kept| {
      assert kept[..|kept|] == kept;
    }
  }

  /** The readable run is the longest prefix of readable entries. */
  lemma {:induction false} ReadableRunSpec(es: seq<Entry>)
    ensures forall i :: 0 <= i < ReadableRun(es) ==> es[i].contents.Some?
    ensures ReadableRun(es) < |es| ==> es[ReadableRun(es)].contents.None?
    decreases |es|
  {
    if |es| > 0 {
      ReadableRunSpec(es[..|es| - 1]);
    }
  }

  /** When the dump succeeds it writes two lines for every kept file. */
  lemma {:induction false} BlocksLength(es: seq<Entry>, root: Path)
    requires forall e :: e in es ==> e.contents.Some?
    ensures |Blocks(es, root)| == 2 * |es|
    decreases |es|
  {
    if |es| > 0 {
      assert es[|es| - 1] in es;
      BlocksLength(es[..|es| - 1], root);
    }
  }

  /** The text one readable file contributes to the output. */
  lemma BlockText(e: Entry, root: Path)
    requires e.contents.Some?
    ensures Flatten(Block(e, root)) ==
      "=== " + Text(Relative(e.path, root)) + " ===\n\n" + e.contents.value + "\n\n"
  {
    var h := Header(Relative(e.path, root));
    var c := e.contents.value;
    var b := Block(e, root);
    assert b == [h, Body(c)];
    assert b[..1] == [h];
    assert [h][..0] == [];
    assert Flatten([h]) == h + "\n";
    assert Flatten(b) == h + "\n" + (c + "\n") + "\n";
  }
}
