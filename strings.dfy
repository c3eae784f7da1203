/**
 * JavaScript string primitives used by the subscription core: the whitespace class
 * (`\s` in a regular expression, and what `String.prototype.trim` removes) and `trim`.
 */
module Strings {

  /** ECMAScript WhiteSpace and LineTerminator code points. */
  predicate IsWs(c: char) {
    c == '\t' || c == '\n' || c == '\U{B}' || c == '\U{C}' || c == '\r' || c == ' '
    || c == '\U{A0}' || c == '\U{1680}' || ('\U{2000}' <= c <= '\U{200A}')
    || c == '\U{2028}' || c == '\U{2029}' || c == '\U{202F}' || c == '\U{205F}'
    || c == '\U{3000}' || c == '\U{FEFF}'
  }

  predicate AllWs(s: string) {
    forall i :: 0 <= i < |s| ==> IsWs(s[i])
  }

  /** Neither end of `s` is whitespace: what `trim` leaves behind. */
  predicate IsTrimmed(s: string) {
    s == [] || (!IsWs(s[0]) && !IsWs(s[|s| - 1]))
  }

  /** `trimStart`: drops the leading whitespace run. */
  function TrimStart(s: string): (r: string)
    ensures |r| <= |s| && r == s[|s| - |r|..]
    ensures forall k :: 0 <= k < |s| - |r| ==> IsWs(s[k])
    ensures r == [] || !IsWs(r[0])
  {
    if s != [] && IsWs(s[0]) then TrimStart(s[1..]) else s
  }

  /** `trimEnd`: drops the trailing whitespace run. */
  function TrimEnd(s: string): (r: string)
    ensures |r| <= |s| && r == s[..|r|]
    ensures forall k :: |r| <= k < |s| ==> IsWs(s[k])
    ensures r == [] || !IsWs(s[|r| - 1])
  {
    if s != [] && IsWs(s[|s| - 1]) then TrimEnd(s[..|s| - 1]) else s
  }

  /**
   * `String.prototype.trim`: the leading whitespace run and then the trailing one are cut off,
   * each as `TrimStart` and `TrimEnd` describe.
   */
  function Trim(s: string): (r: string)
    ensures r == TrimEnd(TrimStart(s))
    ensures IsTrimmed(r)
    ensures |r| <= |s|
    ensures IsTrimmed(s) ==> r == s
  {
    var t := TrimStart(s);
    var r := TrimEnd(t);
    assert r != [] ==> r[0] == t[0];
    r
  }

  /** A non-whitespace start survives trailing whitespace being trimmed. */
  lemma TrimWithTrailingWs(a: string, w: string)
    requires a != [] && !IsWs(a[0]) && !IsWs(a[|a| - 1])
    requires AllWs(w)
    ensures Trim(a + w) == a
  {
    if w == [] {
      assert a + w == a;
    } else {
      assert (a + w)[..|a + w| - 1] == a + w[..|w| - 1];
      TrimWithTrailingWs(a, w[..|w| - 1]);
      assert TrimStart(a + w) == a + w;
      assert TrimStart(a + w[..|w| - 1]) == a + w[..|w| - 1];
    }
  }
}
