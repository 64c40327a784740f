/**
 * String helpers the core relies on: Python's whitespace class and `str.strip()`,
 * `str.join`, `str.lower` restricted to what the supported suffixes can observe,
 * and substring / suffix tests used in contracts.
 */
module Text {

  /** The characters for which Python's `str.isspace()` holds, i.e. what `str.strip()` removes. */
  predicate IsWhitespace(c: char) {
    || c == ' '
    || ('\U{9}' <= c <= '\U{D}')        // \t \n \v \f \r
    || ('\U{1C}' <= c <= '\U{1F}')      // file, group, record and unit separators
    || c == '\U{85}' || c == '\U{A0}' || c == '\U{1680}'
    || ('\U{2000}' <= c <= '\U{200A}')
    || c == '\U{2028}' || c == '\U{2029}' || c == '\U{202F}' || c == '\U{205F}' || c == '\U{3000}'
  }

  predicate AllWhitespace(s: string) {
    forall k :: 0 <= k < |s| ==> IsWhitespace(s[k])
  }

  /** The first index at or after `i` that does not hold whitespace, or `|s|`. */
  function LeadingFrom(s: string, i: nat): (n: nat)
    requires i <= |s|
    ensures i <= n <= |s|
    decreases |s| - i
  {
    if i == |s| || !IsWhitespace(s[i]) then i else LeadingFrom(s, i + 1)
  }

  /** The last index at or before `j` that follows a non-whitespace character, or 0. */
  function TrailingTo(s: string, j: nat): (n: nat)
    requires j <= |s|
    ensures n <= j
  {
    if j == 0 || !IsWhitespace(s[j - 1]) then j else TrailingTo(s, j - 1)
  }

  /** Length of the leading whitespace run of `s`. */
  function LeadingWhitespace(s: string): (n: nat)
    ensures n <= |s|
  {
    LeadingFrom(s, 0)
  }

  /** Index at which the trailing whitespace run of `s` begins. */
  function TrailingWhitespace(s: string): (n: nat)
    ensures n <= |s|
  {
    TrailingTo(s, |s|)
  }

  lemma {:induction false} LeadingFromIsMaximal(s: string, i: nat)
    requires i <= |s|
    ensures forall k :: i <= k < LeadingFrom(s, i) ==> IsWhitespace(s[k])
    ensures LeadingFrom(s, i) < |s| ==> !IsWhitespace(s[LeadingFrom(s, i)])
    decreases |s| - i
  {
    if i < |s| && IsWhitespace(s[i]) {
      LeadingFromIsMaximal(s, i + 1);
    }
  }

  lemma {:induction false} TrailingToIsMaximal(s: string, j: nat)
    requires j <= |s|
    ensures forall k :: TrailingTo(s, j) <= k < j ==> IsWhitespace(s[k])
    ensures TrailingTo(s, j) > 0 ==> !IsWhitespace(s[TrailingTo(s, j) - 1])
  {
    if j > 0 && IsWhitespace(s[j - 1]) {
      TrailingToIsMaximal(s, j - 1);
    }
  }

  lemma LeadingWhitespaceIsMaximal(s: string)
    ensures AllWhitespace(s[..LeadingWhitespace(s)])
    ensures LeadingWhitespace(s) < |s| ==> !IsWhitespace(s[LeadingWhitespace(s)])
  {
    LeadingFromIsMaximal(s, 0);
  }

  lemma TrailingWhitespaceIsMaximal(s: string)
    ensures AllWhitespace(s[TrailingWhitespace(s)..])
    ensures TrailingWhitespace(s) > 0 ==> !IsWhitespace(s[TrailingWhitespace(s) - 1])
  {
    TrailingToIsMaximal(s, |s|);
  }

  /** Python's `s.strip()`: `s` without its leading and trailing whitespace. */
  function Strip(s: string): (r: string)
    ensures |r| <= |s|
  {
    var i := LeadingWhitespace(s);
    if i == |s| then [] else LeadingBeforeTrailing(s); s[i..TrailingWhitespace(s)]
  }

  /** In a string that is not all whitespace, the first non-whitespace character precedes the trailing run. */
  lemma LeadingBeforeTrailing(s: string)
    requires LeadingWhitespace(s) < |s|
    ensures LeadingWhitespace(s) < TrailingWhitespace(s)
  {
    LeadingWhitespaceIsMaximal(s);
    TrailingWhitespaceIsMaximal(s);
  }

  /** A string that starts and ends with non-whitespace is its own strip. */
  lemma StripKeepsTrimmed(s: string)
    requires s != [] && !IsWhitespace(s[0]) && !IsWhitespace(s[|s| - 1])
    ensures Strip(s) == s
  {
  }

  /**
   * What `Strip` computes: the empty string exactly for all-whitespace input, otherwise
   * an infix of `s` that neither starts nor ends with whitespace and is surrounded by whitespace only.
   */
  lemma StripIsTrimmedInfix(s: string)
    ensures Strip(s) == [] <==> AllWhitespace(s)
    ensures Strip(s) != [] ==> !IsWhitespace(Strip(s)[0]) && !IsWhitespace(Strip(s)[|Strip(s)| - 1])
    ensures exists i :: 0 <= i <= |s| && Strip(s) <= s[i..] && AllWhitespace(s[..i]) && AllWhitespace(s[i + |Strip(s)|..])
  {
    LeadingWhitespaceIsMaximal(s);
    TrailingWhitespaceIsMaximal(s);
    var i := LeadingWhitespace(s);
    if i == |s| {
      assert s[..i] == s;
      assert s[i + 0..] == [];
    } else {
      var j := TrailingWhitespace(s);
      assert !IsWhitespace(s[i]);
      assert s[i..j] <= s[i..];
      assert s[i + (j - i)..] == s[j..];
      assert s[i] == s[..][i];
    }
  }

  /** `sep.join(xs)`. */
  function Join(sep: string, xs: seq<string>): (r: string)
    ensures xs == [] ==> r == []
    ensures |xs| == 1 ==> r == xs[0]
  {
    if |xs| == 0 then ""
    else if |xs| == 1 then xs[0]
    else xs[0] + sep + Join(sep, xs[1..])
  }

  /** `a in b` for strings: `a` occurs in `b` at some offset. */
  predicate IsSubstring(a: string, b: string) {
    exists i :: 0 <= i <= |b| && a <= b[i..]
  }

  predicate EndsWith(s: string, suffix: string) {
    |suffix| <= |s| && s[|s| - |suffix|..] == suffix
  }

  /** Every string joined by `Join` occurs in the joined result. */
  lemma {:induction false} JoinContainsEach(sep: string, xs: seq<string>, k: nat)
    requires k < |xs|
    ensures IsSubstring(xs[k], Join(sep, xs))
  {
    var r := Join(sep, xs);
    if |xs| == 1 {
      assert xs[k] <= r[0..];
    } else if k == 0 {
      assert xs[0] <= r[0..];
    } else {
      JoinContainsEach(sep, xs[1..], k - 1);
      var rest := Join(sep, xs[1..]);
      var i :| 0 <= i <= |rest| && xs[1..][k - 1] <= rest[i..];
      var off := |xs[0] + sep|;
      assert r == xs[0] + sep + rest;
      assert r[off + i..] == rest[i..];
      assert xs[k] <= r[off + i..];
    }
  }

  /** A substring of `b` stays a substring when text is added on either side of `b`. */
  lemma SubstringExtend(a: string, b: string, pre: string, post: string)
    requires IsSubstring(a, b)
    ensures IsSubstring(a, pre + b) && IsSubstring(a, b + post)
  {
    var i :| 0 <= i <= |b| && a <= b[i..];
    assert (pre + b)[|pre| + i..] == b[i..];
    assert a <= (b + post)[i..];
  }

  /** Python's `str.lower()` on one character, exactly for the characters whose lower case is ASCII. */
  function LowerChar(c: char): char {
    if 'A' <= c <= 'Z' then (c as int + 32) as char
    else if c == '\U{212A}' then 'k'  // KELVIN SIGN lowers to an ASCII 'k'
    else c
  }

  function Lower(s: string): (r: string)
    ensures |r| == |s|
  {
    seq(|s|, k requires 0 <= k < |s| => LowerChar(s[k]))
  }
}
