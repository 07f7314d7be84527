/** The JavaScript string operations the tree search relies on:
    `String.prototype.trim` and `String.prototype.indexOf`. A string is a
    sequence of Unicode code points (Dafny's `char`); positions count code
    points, where JavaScript counts UTF-16 code units. */
module Text {

  /** The WhiteSpace and LineTerminator code points of ECMA-262, the
      characters `String.prototype.trim` removes. */
  predicate IsWhitespace(c: char)
  {
    || c == '\t' || c == '\n' || c == '\U{0B}' || c == '\U{0C}' || c == '\r'
    || c == ' ' || c == '\U{A0}' || c == '\U{1680}'
    || ('\U{2000}' <= c <= '\U{200A}')
    || c == '\U{2028}' || c == '\U{2029}' || c == '\U{202F}' || c == '\U{205F}'
    || c == '\U{3000}' || c == '\U{FEFF}'
  }

  /** Where the content of `s` starts when scanning forward from `i`: the
      first position at or after `i` that is not whitespace, or `|s|`. */
  function ContentStart(s: string, i: nat): (k: nat)
    requires i <= |s|
    ensures i <= k <= |s|
    ensures forall j :: i <= j < k ==> IsWhitespace(s[j])
    ensures k == |s| || !IsWhitespace(s[k])
    decreases |s| - i
  {
    if i < |s| && IsWhitespace(s[i]) then ContentStart(s, i + 1) else i
  }

  /** Where the content of `s[lo..hi]` ends when scanning backward from
      `hi`: one past the last position not below `lo` that is not
      whitespace, or `lo`. */
  function ContentEnd(s: string, lo: nat, hi: nat): (k: nat)
    requires lo <= hi <= |s|
    ensures lo <= k <= hi
    ensures forall j :: k <= j < hi ==> IsWhitespace(s[j])
    ensures k == lo || !IsWhitespace(s[k - 1])
    decreases hi
  {
    if lo < hi && IsWhitespace(s[hi - 1]) then ContentEnd(s, lo, hi - 1) else hi
  }

  /** `s.trim()`: leading whitespace is dropped, then trailing whitespace. */
  function Trim(s: string): (r: string)
    ensures |r| == 0 || (!IsWhitespace(r[0]) && !IsWhitespace(r[|r| - 1]))
  {
    var lo := ContentStart(s, 0);
    s[lo..ContentEnd(s, lo, |s|)]
  }

  /** `s.trim()` is a contiguous slice of `s` and only whitespace lies
      outside it. */
  lemma TrimIsSlice(s: string)
    ensures exists lo, hi ::
      && 0 <= lo <= hi <= |s| && Trim(s) == s[lo..hi]
      && (forall i :: 0 <= i < lo ==> IsWhitespace(s[i]))
      && (forall i :: hi <= i < |s| ==> IsWhitespace(s[i]))
  {
    var lo := ContentStart(s, 0);
    var hi := ContentEnd(s, lo, |s|);
    assert Trim(s) == s[lo..hi];
  }

  /** `s.trim()` is empty exactly when `s` consists of whitespace only. */
  lemma TrimEmptyIffBlank(s: string)
    ensures Trim(s) == [] <==> forall i :: 0 <= i < |s| ==> IsWhitespace(s[i])
  {
    var lo := ContentStart(s, 0);
    var hi := ContentEnd(s, lo, |s|);
    assert Trim(s) == s[lo..hi];
    if lo < hi {
      assert !IsWhitespace(s[lo]);
    }
  }

  /** `t` occurs in `s` starting at position `i`. */
  predicate OccursAt(s: string, t: string, i: int)
  {
    0 <= i && i + |t| <= |s| && s[i..i + |t|] == t
  }

  /** The first occurrence of `t` in `s` at or after `from`, or -1. */
  function IndexFrom(s: string, t: string, from: nat): (r: int)
    requires from <= |s|
    ensures r == -1 || (from <= r && OccursAt(s, t, r))
    ensures forall j :: from <= j && (r == -1 || j < r) ==> !OccursAt(s, t, j)
    decreases |s| - from
  {
    if from + |t| > |s| then -1
    else if s[from..from + |t|] == t then from
    else IndexFrom(s, t, from + 1)
  }

  /** `s.indexOf(t)`: the first position at which `t` occurs in `s`, or -1
      when it does not occur. The empty string occurs at 0. */
  function IndexOf(s: string, t: string): (r: int)
    ensures r == -1 || OccursAt(s, t, r)
    ensures forall j :: 0 <= j && (r == -1 || j < r) ==> !OccursAt(s, t, j)
  {
    IndexFrom(s, t, 0)
  }

  /** `s.indexOf(t) > -1`: a case-sensitive substring test. */
  predicate Contains(s: string, t: string)
  {
    IndexOf(s, t) > -1
  }

  /** `Contains` holds exactly when `t` occurs somewhere in `s`. */
  lemma ContainsIffOccurs(s: string, t: string)
    ensures Contains(s, t) <==> exists i :: OccursAt(s, t, i)
  {
  }
}
