/**
 * The string operations of Rust's standard library that the stack machine
 * uses to take an instruction apart: `str::trim` and `str::split(' ')`.
 * Both are written as scans over positions of the string, the way the
 * library walks a `&str`.
 */
module Text {

  /** Rust's `char::is_whitespace`: the Unicode White_Space property. */
  predicate IsWhitespace(c: char) {
    ('\t' <= c <= '\r') || c == ' ' || c == '\U{0085}' || c == '\U{00A0}' || c == '\U{1680}'
    || ('\U{2000}' <= c <= '\U{200A}') || c == '\U{2028}' || c == '\U{2029}'
    || c == '\U{202F}' || c == '\U{205F}' || c == '\U{3000}'
  }

  /** The first position at or after `i` that does not hold white space. */
  function SkipSpaceForward(s: string, i: nat): (k: nat)
    requires i <= |s|
    ensures i <= k <= |s|
    ensures forall j :: i <= j < k ==> IsWhitespace(s[j])
    ensures k == |s| || !IsWhitespace(s[k])
    decreases |s| - i
  {
    if i < |s| && IsWhitespace(s[i]) then SkipSpaceForward(s, i + 1) else i
  }

  /** The end of the string once the white space before position `j` is dropped. */
  function SkipSpaceBackward(s: string, j: nat): (k: nat)
    requires j <= |s|
    ensures k <= j
    ensures forall m :: k <= m < j ==> IsWhitespace(s[m])
    ensures k == 0 || !IsWhitespace(s[k - 1])
  {
    if j > 0 && IsWhitespace(s[j - 1]) then SkipSpaceBackward(s, j - 1) else j
  }

  /** `str::trim_start`. */
  function TrimStart(s: string): (r: string)
    ensures |r| <= |s| && r == s[|s| - |r|..]
    ensures forall i :: 0 <= i < |s| - |r| ==> IsWhitespace(s[i])
    ensures |r| == 0 || !IsWhitespace(r[0])
  {
    s[SkipSpaceForward(s, 0)..]
  }

  /** `str::trim_end`. */
  function TrimEnd(s: string): (r: string)
    ensures |r| <= |s| && r == s[..|r|]
    ensures forall i :: |r| <= i < |s| ==> IsWhitespace(s[i])
    ensures |r| == 0 || !IsWhitespace(r[|r| - 1])
  {
    s[..SkipSpaceBackward(s, |s|)]
  }

  /** `str::trim`: the longest slice with no white space at either end. */
  function Trim(s: string): (r: string)
    ensures |r| == 0 || (!IsWhitespace(r[0]) && !IsWhitespace(r[|r| - 1]))
    ensures var a := |s| - |TrimStart(s)|; a + |r| <= |s| && r == s[a..a + |r|]
    ensures forall i :: |s| - |TrimStart(s)| + |r| <= i < |s| ==> IsWhitespace(s[i])
  {
    TrimEnd(TrimStart(s))
  }

  /** A string that starts and ends with a non-white-space character is its own trim. */
  lemma TrimUnchanged(s: string)
    requires |s| > 0 && !IsWhitespace(s[0]) && !IsWhitespace(s[|s| - 1])
    ensures Trim(s) == s
  {
  }

  /**
   * The pieces of `s[start..]` cut at every separator, when the scan has
   * already passed the separator-free stretch `s[start..i]`.
   */
  function SplitFrom(s: string, sep: char, start: nat, i: nat): (parts: seq<string>)
    requires start <= i <= |s| && sep !in s[start..i]
    ensures |parts| >= 1
    ensures forall k :: 0 <= k < |parts| ==> sep !in parts[k]
    decreases |s| - i
  {
    if i == |s| then [s[start..]]
    else if s[i] == sep then [s[start..i]] + SplitFrom(s, sep, i + 1, i + 1)
    else SplitFrom(s, sep, start, i + 1)
  }

  /** `str::split(sep)`: the pieces between the separators, in order; never empty. */
  function Split(s: string, sep: char): (parts: seq<string>)
    ensures |parts| >= 1
    ensures forall k :: 0 <= k < |parts| ==> sep !in parts[k]
  {
    SplitFrom(s, sep, 0, 0)
  }

  /** The pieces glued back together with the separator. */
  function Join(parts: seq<string>, sep: char): string
    decreases |parts|
  {
    if |parts| == 0 then ""
    else if |parts| == 1 then parts[0]
    else parts[0] + [sep] + Join(parts[1..], sep)
  }

  /** Splitting loses nothing: joining the pieces gives the scanned text back. */
  lemma {:induction false} SplitFromJoin(s: string, sep: char, start: nat, i: nat)
    requires start <= i <= |s| && sep !in s[start..i]
    ensures Join(SplitFrom(s, sep, start, i), sep) == s[start..]
    decreases |s| - i
  {
    if i < |s| {
      if s[i] == sep {
        SplitFromJoin(s, sep, i + 1, i + 1);
        var rest := SplitFrom(s, sep, i + 1, i + 1);
        assert s[start..] == s[start..i] + [sep] + s[i + 1..];
      } else {
        assert s[start..i + 1] == s[start..i] + [s[i]];
        SplitFromJoin(s, sep, start, i + 1);
      }
    }
  }

  lemma SplitJoin(s: string, sep: char)
    ensures Join(Split(s, sep), sep) == s
  {
    SplitFromJoin(s, sep, 0, 0);
  }

  lemma {:induction false} SplitFromNoSeparator(s: string, sep: char, start: nat, i: nat)
    requires start <= i <= |s| && sep !in s[start..]
    ensures SplitFrom(s, sep, start, i) == [s[start..]]
    decreases |s| - i
  {
    if i < |s| {
      assert s[i] == s[start..][i - start];
      SplitFromNoSeparator(s, sep, start, i + 1);
    }
  }

  /** Text without the separator is a single piece. */
  lemma SplitNoSeparator(s: string, sep: char)
    requires sep !in s
    ensures Split(s, sep) == [s]
  {
    SplitFromNoSeparator(s, sep, 0, 0);
  }

  /** The scan of `p + r` past `p` is the scan of `r`. */
  lemma {:induction false} SplitFromShift(p: string, r: string, sep: char, a: nat, b: nat)
    requires a <= b <= |r| && sep !in r[a..b]
    ensures (p + r)[|p| + a..|p| + b] == r[a..b]
    ensures SplitFrom(p + r, sep, |p| + a, |p| + b) == SplitFrom(r, sep, a, b)
    decreases |r| - b
  {
    var s := p + r;
    assert s[|p| + a..|p| + b] == r[a..b];
    if b < |r| {
      assert s[|p| + b] == r[b];
      if r[b] == sep {
        SplitFromShift(p, r, sep, b + 1, b + 1);
      } else {
        assert r[a..b + 1] == r[a..b] + [r[b]];
        SplitFromShift(p, r, sep, a, b + 1);
      }
    } else {
      assert s[|p| + a..] == r[a..];
    }
  }

  /** The scan runs over a separator-free word up to the separator that ends it. */
  lemma {:induction false} SplitFromWord(s: string, sep: char, w: nat, i: nat)
    requires i <= w < |s| && sep !in s[..w] && s[w] == sep
    ensures SplitFrom(s, sep, 0, i) == [s[..w]] + SplitFrom(s, sep, w + 1, w + 1)
    decreases w - i
  {
    if i < w {
      assert s[i] == s[..w][i];
      assert s[0..i + 1] == s[..w][..i + 1];
      SplitFromWord(s, sep, w, i + 1);
    }
  }

  /** A word without the separator, the separator, then the rest: the word is the first piece. */
  lemma SplitAfterWord(w: string, sep: char, rest: string)
    requires sep !in w
    ensures Split(w + [sep] + rest, sep) == [w] + Split(rest, sep)
  {
    var s := w + [sep] + rest;
    assert s[..|w|] == w;
    SplitFromWord(s, sep, |w|, 0);
    assert s == (w + [sep]) + rest;
    SplitFromShift(w + [sep], rest, sep, 0, 0);
  }
}
