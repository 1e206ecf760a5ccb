/** `String.prototype.trim` as the two form components use it: strip the
    ECMAScript white-space and line-terminator characters from both ends. */
module Text {

  /** The characters that ECMAScript's trim removes: WhiteSpace (TAB, VT, FF,
      ZWNBSP and the space separators of Unicode category Zs) and LineTerminator
      (LF, CR, LINE SEPARATOR, PARAGRAPH SEPARATOR). */
  predicate IsWhitespace(c: char) {
    || '\t' <= c <= '\r'                    // TAB, LF, VT, FF, CR
    || c == ' ' || c == '\U{00A0}' || c == '\U{1680}'
    || '\U{2000}' <= c <= '\U{200A}'        // EN QUAD .. HAIR SPACE
    || c == '\U{2028}' || c == '\U{2029}'    // LINE and PARAGRAPH SEPARATOR
    || c == '\U{202F}' || c == '\U{205F}' || c == '\U{3000}'
    || c == '\U{FEFF}'                       // ZWNBSP
  }

  /** Every character of `s` is white space (in particular, the empty string). */
  predicate IsBlank(s: string) {
    forall i :: 0 <= i < |s| ==> IsWhitespace(s[i])
  }

  /** Every character of `s[lo..hi]` is white space, read off `s` in place. */
  predicate BlankBetween(s: string, lo: nat, hi: nat)
    requires lo <= hi <= |s|
  {
    forall k :: lo <= k < hi ==> IsWhitespace(s[k])
  }

  /** Where the leading white space of `s[from..]` ends: the index of the
      first non-white-space character at or after `from`, or `|s|`. */
  function SkipLeading(s: string, from: nat): (i: nat)
    requires from <= |s|
    ensures from <= i <= |s| && BlankBetween(s, from, i)
    ensures i == |s| || !IsWhitespace(s[i])
    decreases |s| - from
  {
    if from < |s| && IsWhitespace(s[from]) then SkipLeading(s, from + 1) else from
  }

  /** Where the trailing white space of `s[lo..upto]` starts: one past the last
      non-white-space character before `upto`, or `lo`. */
  function SkipTrailing(s: string, lo: nat, upto: nat): (j: nat)
    requires lo <= upto <= |s|
    ensures lo <= j <= upto && BlankBetween(s, j, upto)
    ensures j == lo || !IsWhitespace(s[j - 1])
    decreases upto
  {
    if lo < upto && IsWhitespace(s[upto - 1]) then SkipTrailing(s, lo, upto - 1) else upto
  }

  /** `s.trim()`: `s` without the white space at either end. The result is empty
      exactly when `s` is blank, and otherwise it starts and ends with a
      non-white-space character (TrimIsSlice says where it sits in `s`). */
  function Trim(s: string): (r: string)
    ensures r == [] <==> IsBlank(s)
    ensures r != [] ==> !IsWhitespace(r[0]) && !IsWhitespace(r[|r| - 1])
  {
    var i := SkipLeading(s, 0);
    var j := SkipTrailing(s, i, |s|);
    assert i == j ==> IsBlank(s) by {
      if i == j {
        assert i == |s|;
        assert BlankBetween(s, 0, i);
      }
    }
    assert s[i..j] != [] ==> s[i..j][0] == s[i] && s[i..j][j - i - 1] == s[j - 1];
    s[i..j]
  }

  /** Trim cuts `s` into a blank prefix, its result, and a blank suffix: the
      result is `s[i..j]`, where `i` is where the leading white space ends and
      everything from `j` on is white space. */
  lemma TrimIsSlice(s: string)
    ensures var i := SkipLeading(s, 0); var j := i + |Trim(s)|;
      && j <= |s| && Trim(s) == s[i..j]
      && IsBlank(s[..i]) && IsBlank(s[j..])
  {
    var i := SkipLeading(s, 0);
    var j := SkipTrailing(s, i, |s|);
    assert Trim(s) == s[i..j];
    forall k | 0 <= k < i ensures IsWhitespace(s[..i][k]) {
      assert BlankBetween(s, 0, i);
    }
    forall k | 0 <= k < |s| - j ensures IsWhitespace(s[j..][k]) {
      assert BlankBetween(s, j, |s|);
    }
  }

  /** Trimming a trimmed string changes nothing. */
  lemma TrimIdempotent(s: string)
    ensures Trim(Trim(s)) == Trim(s)
  {
    var r := Trim(s);
    if r != [] {
      assert SkipLeading(r, 0) == 0;
      assert SkipTrailing(r, 0, |r|) == |r|;
      assert r[0..|r|] == r;
    }
  }
}
