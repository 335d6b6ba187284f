/**
 * The two string operations of main.js that need a model of their own:
 * `s.split('.').pop()` (the text after the last dot) and `s.trim()`.
 */
module Strings {

  /** The position of the last '.' in `s`, or -1 when it holds none. */
  function LastDot(s: string): (k: int)
    ensures -1 <= k < |s|
    ensures k >= 0 ==> s[k] == '.'
    ensures forall j :: k < j < |s| ==> s[j] != '.'
    decreases |s|
  {
    if |s| == 0 then -1
    else if s[|s| - 1] == '.' then |s| - 1
    else
      var k := LastDot(s[..|s| - 1]);
      assert forall j :: 0 <= j < |s| - 1 ==> s[..|s| - 1][j] == s[j];
      k
  }

  /**
   * `s.split('.').pop()`: the text after the last '.', or the whole string
   * when it holds no '.'. It never holds a dot itself.
   */
  function LastSegment(s: string): (r: string)
    ensures '.' !in r
    ensures |r| <= |s|
  {
    var k := LastDot(s);
    s[k + 1..]
  }

  /** Given a dot with no dot after it, the last segment is everything after that dot. */
  lemma LastSegmentAfter(s: string, k: nat)
    requires k < |s| && s[k] == '.'
    requires forall j :: k < j < |s| ==> s[j] != '.'
    ensures LastSegment(s) == s[k + 1..]
  {
    assert LastDot(s) == k;
  }

  /** A name without any dot is its own last segment. */
  lemma LastSegmentOfDotless(s: string)
    requires '.' !in s
    ensures LastSegment(s) == s
  {
    assert LastDot(s) == -1;
    assert s[0..] == s;
  }

  /** Splitting `p + "." + e`, with no dot in `e`, yields `e`, whatever `p` holds. */
  lemma LastSegmentOfDotted(p: string, e: string)
    requires '.' !in e
    ensures LastSegment(p + "." + e) == e
  {
    var s := p + "." + e;
    assert s[|p|] == '.';
    assert forall j :: |p| < j < |s| ==> s[j] == e[j - |p| - 1];
    LastSegmentAfter(s, |p|);
    assert s[|p| + 1..] == e;
  }

  /** The name `ext`, or any name ending in a dot and `ext`, has `ext` as its last segment. */
  lemma LastSegmentIsIf(s: string, ext: string)
    requires '.' !in ext
    requires s == ext || (|s| > |ext| && s[|s| - |ext| - 1] == '.' && s[|s| - |ext|..] == ext)
    ensures LastSegment(s) == ext
  {
    if s == ext {
      LastSegmentOfDotless(s);
    } else {
      var k := |s| - |ext| - 1;
      assert forall j :: k < j < |s| ==> s[j] == ext[j - k - 1];
      LastSegmentAfter(s, k);
    }
  }

  /** Conversely, a name whose last segment is `ext` is `ext` or ends in a dot and `ext`. */
  lemma LastSegmentIsOnlyIf(s: string, ext: string)
    requires LastSegment(s) == ext
    ensures s == ext || (|s| > |ext| && s[|s| - |ext| - 1] == '.' && s[|s| - |ext|..] == ext)
  {
    if LastDot(s) == -1 {
      assert s[0..] == s;
    }
  }

  /**
   * The last segment is a given dot-free `ext` exactly when the name is `ext`
   * itself or ends in a dot followed by `ext`.
   */
  lemma LastSegmentIs(s: string, ext: string)
    requires '.' !in ext
    ensures LastSegment(s) == ext <==>
      s == ext || (|s| > |ext| && s[|s| - |ext| - 1] == '.' && s[|s| - |ext|..] == ext)
  {
    if s == ext || (|s| > |ext| && s[|s| - |ext| - 1] == '.' && s[|s| - |ext|..] == ext) {
      LastSegmentIsIf(s, ext);
    }
    if LastSegment(s) == ext {
      LastSegmentIsOnlyIf(s, ext);
    }
  }

  /**
   * The characters `String.prototype.trim` removes: the WhiteSpace and
   * LineTerminator code points of ECMAScript (sections 12.2 and 12.3 of
   * ECMA-262), spelled out.
   */
  predicate IsJsWhitespace(c: char) {
    || c == '\t' || c == '\n' || c == '\U{000B}' || c == '\U{000C}' || c == '\r'
    || c == ' ' || c == '\U{00A0}' || c == '\U{1680}'
    || ('\U{2000}' <= c <= '\U{200A}')
    || c == '\U{2028}' || c == '\U{2029}' || c == '\U{202F}' || c == '\U{205F}'
    || c == '\U{3000}' || c == '\U{FEFF}'
  }

  /** True when every character of `s` is whitespace (vacuously so for ""). */
  predicate AllWhitespace(s: string) {
    forall k :: 0 <= k < |s| ==> IsJsWhitespace(s[k])
  }

  /** Where the text starts: every character before is whitespace, the one there is not. */
  function TrimStartIndex(s: string): (i: nat)
    ensures i <= |s|
    ensures forall k :: 0 <= k < i ==> IsJsWhitespace(s[k])
    ensures i < |s| ==> !IsJsWhitespace(s[i])
    decreases |s|
  {
    if |s| > 0 && IsJsWhitespace(s[0]) then
      var i := TrimStartIndex(s[1..]);
      assert forall k :: 1 <= k < |s| ==> s[1..][k - 1] == s[k];
      1 + i
    else 0
  }

  /** Where the text ends: every character from there on is whitespace, the one before is not. */
  function TrimEndIndex(s: string): (j: nat)
    ensures j <= |s|
    ensures forall k :: j <= k < |s| ==> IsJsWhitespace(s[k])
    ensures j > 0 ==> !IsJsWhitespace(s[j - 1])
    decreases |s|
  {
    if |s| > 0 && IsJsWhitespace(s[|s| - 1]) then
      var j := TrimEndIndex(s[..|s| - 1]);
      assert forall k :: 0 <= k < |s| - 1 ==> s[..|s| - 1][k] == s[k];
      j
    else |s|
  }

  /**
   * `s.trim()`: `s` with whitespace removed from both ends. The result
   * neither starts nor ends with whitespace, and it is empty exactly when
   * `s` is nothing but whitespace.
   */
  function Trim(s: string): (r: string)
    ensures |r| <= |s|
    ensures r == "" || (!IsJsWhitespace(r[0]) && !IsJsWhitespace(r[|r| - 1]))
    ensures r == "" <==> AllWhitespace(s)
  {
    var i := TrimStartIndex(s);
    var j := TrimEndIndex(s);
    if i < j then s[i..j] else ""
  }

  /** A string without surrounding whitespace is its own trim. */
  lemma TrimOfTrimmed(s: string)
    requires s == "" || (!IsJsWhitespace(s[0]) && !IsJsWhitespace(s[|s| - 1]))
    ensures Trim(s) == s
  {
    assert s[0..|s|] == s;
  }

  /** Surrounding whitespace is dropped and the text between is kept. */
  lemma TrimDropsSurroundingWhitespace(pre: string, text: string, post: string)
    requires AllWhitespace(pre) && AllWhitespace(post)
    requires text == "" || (!IsJsWhitespace(text[0]) && !IsJsWhitespace(text[|text| - 1]))
    ensures Trim(pre + text + post) == text
  {
    var s := pre + text + post;
    if text == "" {
      assert forall k :: 0 <= k < |s| ==> s[k] == (if k < |pre| then pre[k] else post[k - |pre|]);
    } else {
      assert forall k :: 0 <= k < |pre| ==> s[k] == pre[k];
      assert forall k :: |pre| + |text| <= k < |s| ==> s[k] == post[k - |pre| - |text|];
      assert s[|pre|] == text[0] && s[|pre| + |text| - 1] == text[|text| - 1];
      assert TrimStartIndex(s) == |pre|;
      assert TrimEndIndex(s) == |pre| + |text|;
      assert s[|pre|..|pre| + |text|] == text;
    }
  }
}
