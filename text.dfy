/** The JavaScript string operations the backend leans on: `split(c)[0]`, `split(c)[1]` and `trim()`. */
module Text {
  import opened Wrappers

  /** `s.split(c)[0]`: the text before the first `c`, or all of `s`. */
  function UntilChar(s: string, c: char): (r: string)
    ensures r <= s && c !in r
    ensures r == s || s[|r|] == c
  {
    if s == [] || s[0] == c then []
    else [s[0]] + UntilChar(s[1..], c)
  }

  /** `s.split(c)[1]`: the text between the first and the second `c`; undefined when `c` does not occur. */
  function SecondField(s: string, c: char): (r: Option<string>)
    ensures r.None? <==> c !in s
  {
    var first := UntilChar(s, c);
    if first == s then None
    else Some(UntilChar(s[|first| + 1..], c))
  }

  /** For `a` free of `c`, the second field of `a c t` is the first field of `t`, whatever `a` is. */
  lemma {:induction false} SecondFieldAfter(a: string, c: char, t: string)
    requires c !in a
    ensures SecondField(a + [c] + t, c) == Some(UntilChar(t, c))
  {
    var s := a + [c] + t;
    assert s == a + ([c] + t);
    UntilCharOfPrefix(a, c, [c] + t);
    assert UntilChar(s, c) == a && |a| < |s|;
    assert s[|a| + 1..] == t;
  }

  lemma {:induction false} UntilCharOfPrefix(a: string, c: char, rest: string)
    requires c !in a && |rest| > 0 && rest[0] == c
    ensures UntilChar(a + rest, c) == a
  {
    if a == [] {
    } else {
      assert (a + rest)[1..] == a[1..] + rest;
      UntilCharOfPrefix(a[1..], c, rest);
    }
  }

  /** White space and line terminators as `String.prototype.trim` removes them. */
  predicate IsJsWhitespace(ch: char) {
    || ('\U{9}' <= ch <= '\U{D}')          // tab, line feed, vertical tab, form feed, carriage return
    || ch == ' ' || ch == '\U{A0}' || ch == '\U{1680}'
    || ('\U{2000}' <= ch <= '\U{200A}')
    || ch == '\U{2028}' || ch == '\U{2029}' || ch == '\U{202F}' || ch == '\U{205F}' || ch == '\U{3000}'
    || ch == '\U{FEFF}'
  }

  function TrimStart(s: string): (r: string)
    ensures |r| <= |s| && r == s[|s| - |r|..]
    ensures r != [] ==> !IsJsWhitespace(r[0])
    ensures forall k :: 0 <= k < |s| - |r| ==> IsJsWhitespace(s[k])
  {
    if s != [] && IsJsWhitespace(s[0]) then TrimStart(s[1..]) else s
  }

  function TrimEnd(s: string): (r: string)
    ensures |r| <= |s| && r == s[..|r|]
    ensures r != [] ==> !IsJsWhitespace(r[|r| - 1])
    ensures forall k :: |r| <= k < |s| ==> IsJsWhitespace(s[k])
  {
    if s != [] && IsJsWhitespace(s[|s| - 1]) then TrimEnd(s[..|s| - 1]) else s
  }

  /**
   * `s.trim()`: `s` without its leading and trailing white space. The result is a
   * stretch of `s` that neither starts nor ends with white space, and everything
   * cut off is white space.
   */
  function Trim(s: string): (r: string)
    ensures |r| <= |s|
    ensures exists i :: 0 <= i <= |s| - |r| && r == s[i..][..|r|]
                        && (forall k :: 0 <= k < i ==> IsJsWhitespace(s[k]))
                        && (forall k :: i + |r| <= k < |s| ==> IsJsWhitespace(s[k]))
    ensures r != [] ==> !IsJsWhitespace(r[0]) && !IsJsWhitespace(r[|r| - 1])
  {
    var t := TrimStart(s);
    var r := TrimEnd(t);
    var i := |s| - |t|;
    assert r == s[i..][..|r|];
    r
  }
}
