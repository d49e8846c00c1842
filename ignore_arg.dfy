/**
 * Construction of the ignore list from the optional `--ignore` argument:
 * the string is split at every `,` into patterns.
 */
module IgnoreArg {
  import opened Wrappers
  import opened Paths
  import opened PathFilter

  /** `str::split(',')`: the pieces between commas, always at least one. */
  function Split(s: string): (r: seq<string>)
    ensures |r| >= 1
    ensures forall piece :: piece in r ==> ',' !in piece
    decreases |s|
  {
    if |s| == 0 then [""]
    else
      var rest := Split(s[1..]);
      if s[0] == ',' then [""] + rest
      else [[s[0]] + rest[0]] + rest[1..]
  }

  /** The pieces joined back with `,`. */
  function Join(pieces: seq<string>): string
    decreases |pieces|
  {
    if |pieces| == 0 then ""
    else if |pieces| == 1 then pieces[0]
    else pieces[0] + "," + Join(pieces[1..])
  }

  /** Joining the pieces gives back the argument. */
  lemma {:induction false} JoinSplit(s: string)
    ensures Join(Split(s)) == s
    decreases |s|
  {
    if |s| > 0 {
      JoinSplit(s[1..]);
      var rest := Split(s[1..]);
      if s[0] != ',' {
        if |rest| > 1 {
          assert ([[s[0]] + rest[0]] + rest[1..])[1..] == rest[1..];
        }
      } else {
        assert ([""] + rest)[1..] == rest;
      }
      assert s == [s[0]] + s[1..];
    }
  }

  /** A comma-free string is a single piece. */
  lemma {:induction false} SplitNoComma(a: string)
    requires ',' !in a
    ensures Split(a) == [a]
    decreases |a|
  {
    if |a| > 0 {
      SplitNoComma(a[1..]);
      assert a == [a[0]] + a[1..];
    }
  }

  /** A comma-free piece followed by a comma splits off as the first piece. */
  lemma {:induction false} SplitAfterPiece(a: string, t: string)
    requires ',' !in a
    ensures Split(a + "," + t) == [a] + Split(t)
    decreases |a|
  {
    if |a| == 0 {
      assert ("" + "," + t)[1..] == t;
    } else {
      assert (a + "," + t)[1..] == a[1..] + "," + t;
      SplitAfterPiece(a[1..], t);
      assert a == [a[0]] + a[1..];
    }
  }

  /** Splitting undoes joining any non-empty list of comma-free pieces. */
  lemma {:induction false} SplitJoin(pieces: seq<string>)
    requires |pieces| >= 1
    requires forall piece :: piece in pieces ==> ',' !in piece
    ensures Split(Join(pieces)) == pieces
    decreases |pieces|
  {
    if |pieces| == 1 {
      SplitNoComma(pieces[0]);
    } else {
      SplitJoin(pieces[1..]);
      SplitAfterPiece(pieces[0], Join(pieces[1..]));
      assert pieces == [pieces[0]] + pieces[1..];
    }
  }

  /** The ignore list: absent when the argument is absent, else its comma-separated pieces. */
  function ParseIgnore(arg: Option<string>): (ig: IgnoreList)
    ensures ig.Some? <==> arg.Some?
    ensures arg.Some? ==> |ig.value| >= 1 && Join(ig.value) == arg.value
  {
    match arg
    case None => None
    case Some(s) => JoinSplit(s); Some(Split(s))
  }

  /** A doubled, leading or trailing comma yields an empty piece. */
  lemma EmptyPieces()
    ensures Split("a,,b") == ["a", "", "b"]
    ensures Split("a,") == ["a", ""]
    ensures Split(",a") == ["", "a"]
    ensures Split("") == [""]
  {
    assert Join(["", "b"]) == ",b";
    assert Join(["a", "", "b"]) == "a,,b";
    SplitJoin(["a", "", "b"]);
    SplitJoin(["a", ""]);
    SplitJoin(["", "a"]);
  }

  /** An argument with an empty piece, such as `a,`, excludes every path, the input root included. */
  lemma EmptyPieceIgnoresEverything(s: string, p: Path)
    requires "" in Split(s)
    ensures Ignored(p, ParseIgnore(Some(s)))
  {
    EmptyPatternIgnoresAll(p, Split(s));
  }
}
