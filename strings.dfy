/**
 * Text primitives the program relies on: substring search (`str::contains`)
 * and the lexicographic order on names that `Path`'s ordering reduces to.
 */
module Strings {

  /** `pat` occurs in `s` starting at offset `k`. */
  ghost predicate OccursAt(pat: string, s: string, k: int) {
    0 <= k <= |s| && pat <= s[k..]
  }

  /** `pat` occurs somewhere in `s`: the meaning of `s.contains(pat)`. */
  ghost predicate IsSubstring(pat: string, s: string) {
    exists k :: OccursAt(pat, s, k)
  }

  /** An occurrence is either at the front or somewhere in the tail. */
  lemma SubstringStep(pat: string, s: string)
    requires |s| > 0
    ensures IsSubstring(pat, s) <==> pat <= s || IsSubstring(pat, s[1..])
  {
    assert s[0..] == s;
    if pat <= s {
      assert OccursAt(pat, s, 0);
    }
    if IsSubstring(pat, s) && !(pat <= s) {
      var k :| OccursAt(pat, s, k);
      assert k != 0;
      assert s[1..][k - 1..] == s[k..];
      assert OccursAt(pat, s[1..], k - 1);
    }
    if IsSubstring(pat, s[1..]) {
      var k :| OccursAt(pat, s[1..], k);
      assert s[1..][k..] == s[k + 1..];
      assert OccursAt(pat, s, k + 1);
    }
  }

  /** Substring search, scanning `s` from the left. */
  function Contains(s: string, pat: string): (r: bool)
    ensures r <==> IsSubstring(pat, s)
    decreases |s|
  {
    if pat <= s then
      assert OccursAt(pat, s, 0);
      true
    else if |s| == 0 then
      assert forall k :: OccursAt(pat, s, k) ==> k == 0;
      false
    else
      SubstringStep(pat, s);
      Contains(s[1..], pat)
  }

  /** The empty pattern occurs in every text. */
  lemma EmptyIsSubstring(s: string)
    ensures IsSubstring("", s)
  {
    assert OccursAt("", s, 0);
  }

  /** An occurrence in a prefix of `t` is an occurrence in `t`. */
  lemma SubstringOfPrefix(pat: string, s: string, t: string)
    requires IsSubstring(pat, s) && s <= t
    ensures IsSubstring(pat, t)
  {
    var k :| OccursAt(pat, s, k);
    assert s[k..] <= t[k..];
    assert OccursAt(pat, t, k);
  }

  /** A text without the pattern's first character does not contain the pattern. */
  lemma AbsentFirstChar(pat: string, s: string)
    requires |pat| > 0 && pat[0] !in s
    ensures !IsSubstring(pat, s)
  {
    forall k | 0 <= k < |s|
      ensures !OccursAt(pat, s, k)
    {
      assert s[k..][0] == s[k];
    }
  }

  /** Lexicographic order on code points (which is UTF-8 byte order). */
  predicate StrLe(a: string, b: string)
    decreases |a|
  {
    |a| == 0 || (|b| > 0 && (a[0] < b[0] || (a[0] == b[0] && StrLe(a[1..], b[1..]))))
  }

  predicate StrLt(a: string, b: string) {
    StrLe(a, b) && a != b
  }

  lemma {:induction false} StrLeRefl(a: string)
    ensures StrLe(a, a)
    decreases |a|
  {
    if |a| > 0 {
      StrLeRefl(a[1..]);
    }
  }

  lemma {:induction false} StrLeTotal(a: string, b: string)
    ensures StrLe(a, b) || StrLe(b, a)
    decreases |a|
  {
    if |a| > 0 && |b| > 0 && a[0] == b[0] {
      StrLeTotal(a[1..], b[1..]);
    }
  }

  lemma {:induction false} StrLeTrans(a: string, b: string, c: string)
    requires StrLe(a, b) && StrLe(b, c)
    ensures StrLe(a, c)
    decreases |a|
  {
    if |a| > 0 && a[0] == b[0] && b[0] == c[0] {
      StrLeTrans(a[1..], b[1..], c[1..]);
    }
  }

  lemma {:induction false} StrLeAntisym(a: string, b: string)
    requires StrLe(a, b) && StrLe(b, a)
    ensures a == b
    decreases |a|
  {
    if |a| > 0 {
      StrLeAntisym(a[1..], b[1..]);
      assert a == [a[0]] + a[1..] && b == [b[0]] + b[1..];
    }
  }
}
