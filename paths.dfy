/**
 * Filesystem paths as sequences of components, as `std::path::Path::components`
 * yields them for a relative or plain path. Their text form joins the
 * components with `/`.
 */
module Paths {
  import opened Wrappers
  import opened Strings

  type Path = seq<string>

  /** The textual form of a path (`to_string_lossy` / `display`). */
  function Text(p: Path): string
    decreases |p|
  {
    if |p| == 0 then "" else if |p| == 1 then p[0] else p[0] + "/" + Text(p[1..])
  }

  /** A component that `read_dir` can report as an entry name. */
  predicate ValidName(n: string) {
    n != "" && n != "." && n != ".." && '/' !in n
  }

  /**
   * `Path::file_name`: the last component, unless it is `..` or there is
   * none. `components` drops every `.` but a leading one, so the `.` case
   * is the path `.` alone.
   */
  function FileName(p: Path): Option<string> {
    if |p| == 0 || p[|p| - 1] == "." || p[|p| - 1] == ".." then None else Some(p[|p| - 1])
  }

  /** What the tree shows for a path: its file name, or the whole text when it has none. */
  function Display(p: Path): string {
    FileName(p).GetOr(Text(p))
  }

  /** `Path::strip_prefix`: succeeds exactly when `root` is a component-wise prefix. */
  function StripPrefix(p: Path, root: Path): Option<Path> {
    if root <= p then Some(p[|root|..]) else None
  }

  /** `p.strip_prefix(root).unwrap_or(p)`. */
  function Relative(p: Path, root: Path): Path {
    StripPrefix(p, root).GetOr(p)
  }

  /** Component-wise lexicographic order, the ordering Rust's `Path` implements. */
  predicate PathLe(p: Path, q: Path)
    decreases |p|
  {
    |p| == 0 || (|q| > 0 && (StrLt(p[0], q[0]) || (p[0] == q[0] && PathLe(p[1..], q[1..]))))
  }

  /** Appending a component extends the text by a separator and the component. */
  lemma {:induction false} TextOfChild(p: Path, n: string)
    requires |p| > 0
    ensures Text(p + [n]) == Text(p) + "/" + n
    decreases |p|
  {
    if |p| > 1 {
      assert (p + [n])[1..] == p[1..] + [n];
      TextOfChild(p[1..], n);
    }
  }

  /** The text of a path is a prefix of the text of every path extending it. */
  lemma {:induction false} TextExtends(p: Path, q: Path)
    ensures Text(p) <= Text(p + q)
    decreases |p|
  {
    if |p| == 1 {
      if |q| > 0 {
        assert (p + q)[1..] == q;
      } else {
        assert p + q == p;
      }
    } else if |p| > 1 {
      assert (p + q)[1..] == p[1..] + q;
      TextExtends(p[1..], q);
    }
  }

  /** A child entry is shown by its own name. */
  lemma DisplayOfChild(p: Path, n: string)
    requires ValidName(n)
    ensures Display(p + [n]) == n
  {
  }

  /** `strip_prefix` removes the root when it is a prefix and leaves the path whole otherwise. */
  lemma RelativeSpec(p: Path, root: Path)
    ensures root <= p ==> root + Relative(p, root) == p && |Relative(p, root)| == |p| - |root|
    ensures !(root <= p) ==> Relative(p, root) == p
  {
    if root <= p {
      assert root + p[|root|..] == p;
    }
  }

  /** Siblings share their parent, so their paths compare as their names do. */
  lemma {:induction false} SiblingOrder(parent: Path, a: string, b: string)
    ensures PathLe(parent + [a], parent + [b]) <==> StrLe(a, b)
    decreases |parent|
  {
    if |parent| > 0 {
      assert (parent + [a])[1..] == parent[1..] + [a];
      assert (parent + [b])[1..] == parent[1..] + [b];
      SiblingOrder(parent[1..], a, b);
    } else {
      var pa: Path := [a];
      assert pa[1..] == [];
      StrLeRefl(a);
    }
  }
}
