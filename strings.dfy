/**
 * The .NET string operations the grid relies on: white-space tests and trimming,
 * invariant-culture lower-casing as far as it decides which ASCII field name matches, and
 * `string.Join`.
 */
module Strings {
  import opened Wrappers

  /**
   * `char.IsWhiteSpace`: the controls U+0009..U+000D and U+0085, and the Unicode space,
   * line and paragraph separators.
   */
  predicate IsWhiteSpace(c: char) {
    || ('\t' <= c <= '\r')
    || c == ' '
    || c == '\U{85}'
    || c == '\U{A0}'
    || c == '\U{1680}'
    || ('\U{2000}' <= c <= '\U{200A}')
    || c == '\U{2028}'
    || c == '\U{2029}'
    || c == '\U{202F}'
    || c == '\U{205F}'
    || c == '\U{3000}'
  }

  /** `string.IsNullOrEmpty` */
  predicate IsNullOrEmpty(s: Option<string>) {
    s.None? || s.value == ""
  }

  /**
   * `string.IsNullOrWhiteSpace`: null, empty, or white space only. It holds wherever
   * IsNullOrEmpty does, and fails as soon as one character is not white space.
   */
  function IsNullOrWhiteSpace(s: Option<string>): (b: bool)
    ensures IsNullOrEmpty(s) ==> b
    ensures !b <==> s.Some? && exists i :: 0 <= i < |s.value| && !IsWhiteSpace(s.value[i])
    ensures s.Some? ==> (b <==> Trim(s.value) == "")
  {
    s.None? || forall i :: 0 <= i < |s.value| ==> IsWhiteSpace(s.value[i])
  }

  /** Where the run of white space that starts at `i` ends: the first index from `i` on that is not white space, or |s|. */
  function WhiteSpaceFrom(s: string, i: nat): (j: nat)
    requires i <= |s|
    ensures i <= j <= |s|
    ensures forall k :: i <= k < j ==> IsWhiteSpace(s[k])
    ensures j == |s| || !IsWhiteSpace(s[j])
    decreases |s| - i
  {
    if i < |s| && IsWhiteSpace(s[i]) then WhiteSpaceFrom(s, i + 1) else i
  }

  /** Where the run of white space that ends at `j` starts: one past the last index before `j` that is not white space, or 0. */
  function WhiteSpaceBefore(s: string, j: nat): (i: nat)
    requires j <= |s|
    ensures i <= j
    ensures forall k :: i <= k < j ==> IsWhiteSpace(s[k])
    ensures i == 0 || !IsWhiteSpace(s[i - 1])
  {
    if j > 0 && IsWhiteSpace(s[j - 1]) then WhiteSpaceBefore(s, j - 1) else j
  }

  /**
   * `string.Trim()`: the slice of s between its leading and its trailing white space, which
   * is all that is cut off. It is empty exactly when s is white space only, and otherwise
   * starts and ends with a character that is not white space.
   */
  function Trim(s: string): (r: string)
    ensures var k := WhiteSpaceFrom(s, 0);
      && k + |r| <= |s| && r == s[k..k + |r|]
      && (forall i :: 0 <= i < k ==> IsWhiteSpace(s[i]))
      && (forall i :: k + |r| <= i < |s| ==> IsWhiteSpace(s[i]))
    ensures r == "" <==> forall i :: 0 <= i < |s| ==> IsWhiteSpace(s[i])
    ensures r == "" || (!IsWhiteSpace(r[0]) && !IsWhiteSpace(r[|r| - 1]))
  {
    var start := WhiteSpaceFrom(s, 0);
    if start == |s| then
      ""
    else
      var end := WhiteSpaceBefore(s, |s|);
      assert start < end by { assert !IsWhiteSpace(s[start]); }
      s[start..end]
  }

  /**
   * The invariant-culture lower case of c, for every character whose lower case is ASCII:
   * 'A'..'Z' and U+212A (Kelvin sign, lower case 'k'). U+0130 (capital I with dot) is
   * kept as it is. Every other character is returned unchanged.
   */
  function ToLowerChar(c: char): char {
    if 'A' <= c <= 'Z' then (c as int + 32) as char
    else if c == '\U{212A}' then 'k'
    else c
  }

  /**
   * `string.ToLower()`, character by character: the same length, no ASCII capital left,
   * and every character that has no ASCII lower case kept in its place.
   */
  function ToLower(s: string): (r: string)
    ensures |r| == |s|
    ensures forall i :: 0 <= i < |r| ==> !('A' <= r[i] <= 'Z')
    ensures forall i :: 0 <= i < |s| && !('A' <= s[i] <= 'Z') && s[i] != '\U{212A}' ==> r[i] == s[i]
  {
    seq(|s|, i requires 0 <= i < |s| => ToLowerChar(s[i]))
  }

  predicate IsLowerAsciiLetter(c: char) {
    'a' <= c <= 'z'
  }

  /** c is one of the spellings of the lower-case ASCII letter l: l itself, its capital, or the Kelvin sign for 'k'. */
  predicate IsCaseFormOf(c: char, l: char)
    requires IsLowerAsciiLetter(l)
  {
    || c == l
    || c as int == l as int - 32
    || (l == 'k' && c == '\U{212A}')
  }

  /** s spells the lower-case ASCII word w in any mixture of cases. */
  predicate IsCaseVariantOf(s: string, w: string)
    requires forall i :: 0 <= i < |w| ==> IsLowerAsciiLetter(w[i])
  {
    |s| == |w| && forall i :: 0 <= i < |s| ==> IsCaseFormOf(s[i], w[i])
  }

  lemma ToLowerCharIsLetter(c: char, l: char)
    requires IsLowerAsciiLetter(l)
    ensures ToLowerChar(c) == l <==> IsCaseFormOf(c, l)
  {
  }

  /** Lower-casing s gives the lower-case word w exactly when s is w written in some mixture of cases. */
  lemma ToLowerMatches(s: string, w: string)
    requires forall i :: 0 <= i < |w| ==> IsLowerAsciiLetter(w[i])
    ensures ToLower(s) == w <==> IsCaseVariantOf(s, w)
  {
    var t := ToLower(s);
    if t == w {
      forall i | 0 <= i < |s| ensures IsCaseFormOf(s[i], w[i]) {
        assert t[i] == ToLowerChar(s[i]);
        ToLowerCharIsLetter(s[i], w[i]);
      }
    }
    if IsCaseVariantOf(s, w) {
      forall i | 0 <= i < |s| ensures t[i] == w[i] {
        ToLowerCharIsLetter(s[i], w[i]);
      }
    }
  }

  /** Lower-casing twice is lower-casing once. */
  lemma ToLowerIdempotent(s: string)
    ensures ToLower(ToLower(s)) == ToLower(s)
  {
  }

  /** The total length of the strings in xs. */
  function TotalLength(xs: seq<string>): nat {
    if |xs| == 0 then 0 else |xs[0]| + TotalLength(xs[1..])
  }

  /**
   * `string.Join(sep, xs)`: the elements in list order, with sep between each adjacent
   * pair; so its length is every element's plus one separator per adjacent pair.
   */
  function Join(sep: string, xs: seq<string>): (r: string)
    ensures |xs| == 0 ==> r == ""
    ensures |xs| == 1 ==> r == xs[0]
    ensures |xs| > 0 ==> |r| == TotalLength(xs) + |sep| * (|xs| - 1)
  {
    if |xs| == 0 then ""
    else if |xs| == 1 then xs[0]
    else xs[0] + sep + Join(sep, xs[1..])
  }

  /**
   * Joining keeps the list order: cutting the list into a non-empty front and a non-empty
   * back cuts the joined text into the front's join, one separator, and the back's join.
   */
  lemma {:induction false} JoinSplit(sep: string, xs: seq<string>, k: nat)
    requires 0 < k < |xs|
    ensures Join(sep, xs) == Join(sep, xs[..k]) + sep + Join(sep, xs[k..])
  {
    if k > 1 {
      JoinSplit(sep, xs[1..], k - 1);
      assert xs[1..][..k - 1] == xs[..k][1..];
      assert xs[1..][k - 1..] == xs[k..];
    }
  }
}
