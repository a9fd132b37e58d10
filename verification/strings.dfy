/**
  The fragment of Python's string operations the auditor relies on:
  substring search (`p in s`), `s.split(sep)` and the first element
  of such a split. Strings are sequences of characters.
 */
module Strings {
  import opened Wrappers

  /** True when `p` occurs in `s` starting at position `j`. */
  predicate OccursAt(s: string, p: string, j: int) {
    0 <= j && j + |p| <= |s| && s[j..j + |p|] == p
  }

  /** Python's `p in s` for a non-empty `p`. */
  predicate Contains(s: string, p: string)
    requires |p| > 0
    decreases |s|
  {
    |p| <= |s| && (s[..|p|] == p || Contains(s[1..], p))
  }

  /** Position of the first occurrence of the non-empty pattern `p` in `s`. */
  function IndexOf(s: string, p: string): (r: Option<nat>)
    requires |p| > 0
    ensures r.Some? <==> Contains(s, p)
    ensures r.Some? ==> OccursAt(s, p, r.value)
    ensures r.Some? ==> forall j | 0 <= j < r.value :: !OccursAt(s, p, j)
    ensures r.None? ==> forall j :: !OccursAt(s, p, j)
    decreases |s|
  {
    if |s| < |p| then None
    else if s[..|p|] == p then Some(0)
    else
      match IndexOf(s[1..], p)
      case Some(i) =>
        assert forall j | 1 <= j <= i :: OccursAt(s, p, j) == OccursAt(s[1..], p, j - 1);
        Some(i + 1)
      case None =>
        assert forall j | 1 <= j :: OccursAt(s, p, j) == OccursAt(s[1..], p, j - 1);
        None
  }

  /** Python's `s.split(sep)` for a non-empty separator. */
  function Split(s: string, sep: string): (parts: seq<string>)
    requires |sep| > 0
    ensures |parts| >= 1
    ensures forall k | 0 <= k < |parts| :: !Contains(parts[k], sep)
    ensures |parts| > 1 <==> Contains(s, sep)
    decreases |s|
  {
    match IndexOf(s, sep)
    case None => [s]
    case Some(i) =>
      NoOccurrenceInPrefix(s, sep, i);
      [s[..i]] + Split(s[i + |sep|..], sep)
  }

  /** `sep.join(parts)` */
  function Join(parts: seq<string>, sep: string): string
    requires |parts| >= 1
  {
    if |parts| == 1 then parts[0] else parts[0] + sep + Join(parts[1..], sep)
  }

  /** The text before the first occurrence of `sep`, or all of `s` when there is none. */
  function Before(s: string, sep: string): (r: string)
    requires |sep| > 0
    ensures !Contains(r, sep)
    ensures |r| <= |s| && r == s[..|r|]
  {
    match IndexOf(s, sep)
    case None => s
    case Some(i) => NoOccurrenceInPrefix(s, sep, i); s[..i]
  }

  /** The text after the first occurrence of `sep`. */
  function After(s: string, sep: string): (r: string)
    requires |sep| > 0 && Contains(s, sep)
    ensures s == Before(s, sep) + sep + r
  {
    var i := IndexOf(s, sep).value;
    assert s == s[..i] + s[i..i + |sep|] + s[i + |sep|..];
    s[i + |sep|..]
  }

  /** `p` occurs in the first `i` characters of `s` exactly where it occurs in `s` and ends by position `i`. */
  lemma OccursInPrefix(s: string, p: string, i: nat, j: int)
    requires i <= |s|
    ensures OccursAt(s[..i], p, j) <==> OccursAt(s, p, j) && j + |p| <= i
  {
    if 0 <= j && j + |p| <= i {
      assert s[..i][j..j + |p|] == s[j..j + |p|];
    }
  }

  /** A prefix of `s` that stops before the first occurrence of `p` does not contain `p`. */
  lemma NoOccurrenceInPrefix(s: string, p: string, i: nat)
    requires |p| > 0 && i <= |s|
    requires forall j | 0 <= j < i :: !OccursAt(s, p, j)
    ensures !Contains(s[..i], p)
  {
    forall j | 0 <= j
      ensures !OccursAt(s[..i], p, j)
    {
      OccursInPrefix(s, p, i, j);
    }
    assert IndexOf(s[..i], p).None?;
  }

  /** Splitting and joining again gives back the original string. */
  lemma {:induction false} JoinSplit(s: string, sep: string)
    requires |sep| > 0
    ensures Join(Split(s, sep), sep) == s
    decreases |s|
  {
    match IndexOf(s, sep)
    case None =>
    case Some(i) =>
      var rest := s[i + |sep|..];
      JoinSplit(rest, sep);
      assert Split(s, sep) == [s[..i]] + Split(rest, sep);
      assert s == s[..i] + s[i..i + |sep|] + rest;
  }

  /** The first part of a split is the text before the first separator. */
  lemma SplitHead(s: string, sep: string)
    requires |sep| > 0
    ensures Split(s, sep)[0] == Before(s, sep)
  {
  }

  /** The second part of a split is the text between the first and the second separator. */
  lemma SplitSecond(s: string, sep: string)
    requires |sep| > 0 && Contains(s, sep)
    ensures Split(s, sep)[1] == Before(After(s, sep), sep)
  {
    var i := IndexOf(s, sep).value;
    SplitHead(s[i + |sep|..], sep);
  }

  /**
    Cutting at the first occurrence of a one-character `sep` is unaffected
    by first cutting at a pattern that starts with that character: the
    pattern's first occurrence cannot come before the character's.
   */
  lemma {:induction false} BeforeBeforeLonger(s: string, sep: string, longer: string)
    requires |sep| == 1 && |longer| >= 1 && longer[0] == sep[0]
    ensures Before(Before(s, longer), sep) == Before(s, sep)
  {
    var t := Before(s, longer);
    match IndexOf(s, longer)
    case None =>
    case Some(k) =>
      assert t == s[..k];
      assert s[k..k + 1] == sep;
      assert OccursAt(s, sep, k);
      var j := IndexOf(s, sep).value;
      assert j <= k;
      if j < k {
        assert t[j..j + |sep|] == s[j..j + |sep|];
        assert OccursAt(t, sep, j);
        var m := IndexOf(t, sep).value;
        assert m <= j;
        assert t[m..m + |sep|] == s[m..m + |sep|];
        assert OccursAt(s, sep, m);
        assert m == j;
        assert t[..j] == s[..j];
      }
  }
}
