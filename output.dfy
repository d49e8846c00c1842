/** The output file, seen as the sequence of `writeln!` calls made on it. */
module Output {

  /** The result of a pass: what it wrote, and whether it finished without an I/O error. */
  datatype Written = Written(lines: seq<string>, ok: bool)

  /**
   * The open output file. Each element of `lines` is the text of one
   * `writeln!`; the file holds `Flatten(lines)`.
   */
  class Writer {
    var lines: seq<string>

    constructor ()
      ensures lines == []
    {
      lines := [];
    }

    method WriteLine(s: string)
      modifies this
      ensures lines == old(lines) + [s]
    {
      lines := lines + [s];
    }
  }

  lemma AppendAssoc(a: seq<string>, b: seq<string>, c: seq<string>)
    ensures a + b + c == a + (b + c)
  {
  }

  /** The file's text: every written line followed by a newline. */
  function Flatten(lines: seq<string>): string
    decreases |lines|
  {
    if |lines| == 0 then "" else Flatten(lines[..|lines| - 1]) + lines[|lines| - 1] + "\n"
  }

  /** Writing `a` then `b` leaves the text of `a` followed by the text of `b`. */
  lemma {:induction false} FlattenAppend(a: seq<string>, b: seq<string>)
    ensures Flatten(a + b) == Flatten(a) + Flatten(b)
    decreases |b|
  {
    if |b| == 0 {
      assert a + b == a;
    } else {
      assert (a + b)[..|a + b| - 1] == a + b[..|b| - 1];
      FlattenAppend(a, b[..|b| - 1]);
    }
  }
}
