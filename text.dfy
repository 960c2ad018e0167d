/** The optional value used where the program has a nullable reference. */
module Wrappers {
  datatype Option<+T> = None | Some(value: T)
}

/**
 * The parts of .NET's ordinal string handling that the registry scan relies on:
 * `String.Contains`, and element 0 or 1 of `String.Split` with a one-separator
 * argument. A .NET string is a sequence of UTF-16 code units; here it is a
 * `seq<char>`, whose elements are Unicode scalar values. Nothing is lost for this
 * model: every separator and marker is ASCII, and `File.ReadLines` yields well-formed
 * text, whose code units and scalar values split at the same places.
 */
module Text {
  import opened Wrappers

  /** `pat` occurs in `s` starting at index `i`. */
  predicate OccursAt(s: string, pat: string, i: nat) {
    i + |pat| <= |s| && s[i..i + |pat|] == pat
  }

  lemma OccursAtTail(s: string, pat: string, j: nat)
    requires |s| > 0
    ensures OccursAt(s, pat, j + 1) <==> OccursAt(s[1..], pat, j)
  {
    if j + 1 + |pat| <= |s| {
      assert s[1..][j..j + |pat|] == s[j + 1..j + 1 + |pat|];
    }
  }

  /** Index of the first occurrence of `pat` in `s`, if there is one. */
  function IndexOf(s: string, pat: string): (r: Option<nat>)
    ensures r.Some? ==> OccursAt(s, pat, r.value)
    ensures r.Some? ==> forall j: nat :: j < r.value ==> !OccursAt(s, pat, j)
    ensures r.None? ==> forall j: nat :: !OccursAt(s, pat, j)
    decreases |s|
  {
    if pat <= s then
      assert s[..|pat|] == pat;
      Some(0)
    else if |s| == 0 then
      None
    else
      assert !OccursAt(s, pat, 0);
      match IndexOf(s[1..], pat)
      case None =>
        assert forall j: nat :: !OccursAt(s, pat, j) by {
          forall j: nat ensures !OccursAt(s, pat, j) {
            if j > 0 { OccursAtTail(s, pat, j - 1); }
          }
        }
        None
      case Some(k) =>
        OccursAtTail(s, pat, k);
        assert forall j: nat :: j < k + 1 ==> !OccursAt(s, pat, j) by {
          forall j: nat | j < k + 1 ensures !OccursAt(s, pat, j) {
            if j > 0 { OccursAtTail(s, pat, j - 1); }
          }
        }
        Some(k + 1)
  }

  /** The first occurrence of `pat` is at `p` exactly when `pat` occurs there and nowhere before. */
  lemma IndexOfIs(s: string, pat: string, p: nat)
    requires OccursAt(s, pat, p)
    requires forall j: nat :: j < p ==> !OccursAt(s, pat, j)
    ensures IndexOf(s, pat) == Some(p)
  {
  }

  /** `s.Contains(pat)`. */
  function Contains(s: string, pat: string): (r: bool)
    ensures r <==> exists i: nat :: OccursAt(s, pat, i)
  {
    IndexOf(s, pat).Some?
  }

  /**
   * Element 0 of `s.Split(sep)`: the text before the first occurrence of `sep`,
   * or all of `s` when `sep` does not occur.
   */
  function Before(s: string, sep: string): (r: string)
    ensures r <= s
    ensures forall j: nat :: j < |r| ==> !OccursAt(s, sep, j)
    ensures |r| < |s| ==> OccursAt(s, sep, |r|)
  {
    match IndexOf(s, sep)
    case None => s
    case Some(i) => s[..i]
  }

  /** The text after the first occurrence of `sep`, which must occur. */
  function After(s: string, sep: string): (r: string)
    requires Contains(s, sep)
    ensures Before(s, sep) + sep + r == s
  {
    var i := IndexOf(s, sep).value;
    assert Before(s, sep) == s[..i];
    assert s[i..i + |sep|] == sep;
    assert s[..i] + sep + s[i + |sep|..] == s;
    s[i + |sep|..]
  }

  /**
   * Element 1 of `s.Split(sep)`: the text after the first occurrence of `sep` up to
   * the next occurrence (the split resumes after the separator it consumed) or to the
   * end of `s`. The split has that element only when `sep` occurs; with an empty
   * separator .NET does not split at all, so `sep` must not be empty either.
   */
  function SecondField(s: string, sep: string): (r: string)
    requires |sep| > 0 && Contains(s, sep)
    ensures r <= After(s, sep) && !Contains(r, sep)
    ensures forall j: nat :: j < |r| ==> !OccursAt(After(s, sep), sep, j)
    ensures |r| < |After(s, sep)| ==> OccursAt(After(s, sep), sep, |r|)
  {
    var rest := After(s, sep);
    var r := Before(rest, sep);
    forall j: nat ensures !OccursAt(r, sep, j) {
      if j + |sep| <= |r| {
        assert r[j..j + |sep|] == rest[j..j + |sep|];
        assert !OccursAt(rest, sep, j);
      }
    }
    r
  }
}
