/**
 * The `stripSubchannelPrefix` title clean-up of `matchChannel` (src/lib/Subscription.ts):
 * a fixed, ordered list of case-insensitive regular expressions, each removing its first
 * occurrence, then `replaceAll("  ", " ")`, one leading ": " dropped, and `trim()`.
 *
 * Every pattern in the list is literal text once its backslash escapes are read: the channel
 * title is escaped character by character, and the fixed patterns contain no special
 * characters. A pattern is therefore modelled by the text it stands for (`LiteralOf`), matched
 * case-insensitively. Case folding covers ASCII letters only.
 */
module Prefixes {
  import opened Options
  import opened Strings

  /** The characters `/[-/\\^$*+?.()|[\]{}]/g` selects for escaping. */
  predicate IsRegExpSpecial(c: char) {
    c == '-' || c == '/' || c == '\\' || c == '^' || c == '$' || c == '*' || c == '+' || c == '?'
    || c == '.' || c == '(' || c == ')' || c == '|' || c == '[' || c == ']' || c == '{' || c == '}'
  }

  /** `title.replace(/[-/\\^$*+?.()|[\]{}]/g, "\\$&")`: a backslash before each special character. */
  function EscapeRegExp(title: string): (source: string)
    ensures |title| <= |source| <= 2 * |title|
  {
    if title == [] then []
    else (if IsRegExpSpecial(title[0]) then ['\\', title[0]] else [title[0]]) + EscapeRegExp(title[1..])
  }

  /**
   * Read from the left, `source` holds no active special character: every special character,
   * the backslash included, is escaped by the backslash before it, and a backslash escapes
   * nothing but a special character (so no `\d`-like class appears).
   */
  predicate Escaped(source: string)
    decreases |source|
  {
    if source == [] then true
    else if source[0] == '\\' then |source| >= 2 && IsRegExpSpecial(source[1]) && Escaped(source[2..])
    else !IsRegExpSpecial(source[0]) && Escaped(source[1..])
  }

  /** The text a pattern source made of plain characters and backslash escapes matches. */
  function LiteralOf(source: string): string {
    if source == [] then []
    else if source[0] == '\\' && |source| >= 2 then [source[1]] + LiteralOf(source[2..])
    else [source[0]] + LiteralOf(source[1..])
  }

  /** The fixed patterns, in order, after the channel title. */
  const FixedPatterns: seq<string> := [
    "MA: ", "FP Exclusive: ", "talklinked", "TL: ", "TL Short: ", "TQ: ", "TJM: ", "SC: ",
    "CSF: ", "Livestream VOD – ", " : "
  ]

  /** The `replacers` list: the escaped channel title first, then the fixed patterns. */
  function Replacers(channelTitle: string): seq<string> {
    [EscapeRegExp(channelTitle)] + FixedPatterns
  }

  /** ASCII case folding, as the `i` flag compares characters. */
  function Canonical(c: char): char {
    if 'a' <= c <= 'z' then (c as int - 32) as char else c
  }

  /** `pattern` occurs at `i` in `s`, ignoring case. */
  predicate OccursAt(s: string, i: nat, pattern: string) {
    i + |pattern| <= |s| && forall k :: 0 <= k < |pattern| ==> Canonical(s[i + k]) == Canonical(pattern[k])
  }

  /** The leftmost occurrence of `pattern` at or after `from`. */
  function FirstOccurrence(s: string, pattern: string, from: nat): (r: Option<nat>)
    ensures r.Some? ==> from <= r.value && OccursAt(s, r.value, pattern)
    ensures r.Some? ==> forall i: nat :: from <= i < r.value ==> !OccursAt(s, i, pattern)
    ensures r.None? ==> forall i: nat :: from <= i ==> !OccursAt(s, i, pattern)
    decreases |s| + 1 - from
  {
    if from + |pattern| > |s| then None
    else if OccursAt(s, from, pattern) then Some(from)
    else FirstOccurrence(s, pattern, from + 1)
  }

  /** `s.replace(new RegExp(source, "i"), "")` for a pattern matching the text `pattern`. */
  function RemoveFirst(s: string, pattern: string): (r: string)
    ensures |r| <= |s|
  {
    match FirstOccurrence(s, pattern, 0)
    case None => s
    case Some(i) => s[..i] + s[i + |pattern|..]
  }

  /** The replacer loop: each source in turn removes its first occurrence. */
  function RemoveEach(s: string, sources: seq<string>): (r: string)
    ensures |r| <= |s|
  {
    if sources == [] then s
    else RemoveFirst(RemoveEach(s, sources[..|sources| - 1]), LiteralOf(sources[|sources| - 1]))
  }

  /** No two consecutive spaces in `s`. */
  predicate NoDoubleSpace(s: string) {
    forall i :: 0 <= i < |s| - 1 ==> !(s[i] == ' ' && s[i + 1] == ' ')
  }

  /** `s.replaceAll("  ", " ")`: non-overlapping double spaces, left to right, become one space. */
  function CollapseDoubleSpaces(s: string): (r: string)
    ensures |r| <= |s|
    ensures NoDoubleSpace(s) ==> r == s
  {
    if |s| >= 2 && s[0] == ' ' && s[1] == ' ' then " " + CollapseDoubleSpaces(s[2..])
    else if s == [] then []
    else [s[0]] + CollapseDoubleSpaces(s[1..])
  }

  /** `if (s.startsWith(": ")) s = s.replace(": ", "")` */
  function DropLeadingColon(s: string): (r: string)
    ensures |r| <= |s|
  {
    if |s| >= 2 && s[..2] == ": " then s[2..] else s
  }

  /** The title `matchChannel` yields when `stripSubchannelPrefix` is on. */
  function StrippedTitle(title: string, channelTitle: string): string {
    Trim(DropLeadingColon(CollapseDoubleSpaces(RemoveEach(title, Replacers(channelTitle)))))
  }

  /** The clean-up as `Subscription.ts` runs it: a loop rewriting the title one replacer at a time. */
  method StripSubchannelPrefix(title: string, channelTitle: string) returns (videoTitle: string)
    ensures videoTitle == StrippedTitle(title, channelTitle)
    ensures IsTrimmed(videoTitle) && |videoTitle| <= |title|
  {
    var replacers := Replacers(channelTitle);
    videoTitle := title;
    for i := 0 to |replacers|
      invariant videoTitle == RemoveEach(title, replacers[..i])
    {
      assert replacers[..i + 1][..i] == replacers[..i];
      videoTitle := RemoveFirst(videoTitle, LiteralOf(replacers[i]));
    }
    assert replacers[..|replacers|] == replacers;
    videoTitle := CollapseDoubleSpaces(videoTitle);
    if |videoTitle| >= 2 && videoTitle[..2] == ": " {
      videoTitle := videoTitle[2..];
    }
    videoTitle := Trim(videoTitle);
  }

  // ---------------------------------------------------------------------------------------

  /** The escaped channel title matches exactly the channel title's own text. */
  lemma {:induction false} EscapedTitleIsLiteral(title: string)
    ensures LiteralOf(EscapeRegExp(title)) == title
  {
    if title != [] {
      EscapedTitleIsLiteral(title[1..]);
      if IsRegExpSpecial(title[0]) {
        assert EscapeRegExp(title) == ['\\', title[0]] + EscapeRegExp(title[1..]);
      } else {
        assert EscapeRegExp(title) == [title[0]] + EscapeRegExp(title[1..]);
      }
    }
  }

  /** Escaping leaves no special character of the channel title active in the pattern. */
  lemma {:induction false} EscapedTitleIsEscaped(title: string)
    ensures Escaped(EscapeRegExp(title))
  {
    if title != [] {
      EscapedTitleIsEscaped(title[1..]);
      var tail := EscapeRegExp(title[1..]);
      if IsRegExpSpecial(title[0]) {
        assert EscapeRegExp(title) == ['\\', title[0]] + tail;
        assert (['\\', title[0]] + tail)[2..] == tail;
      } else {
        assert EscapeRegExp(title) == [title[0]] + tail;
        assert ([title[0]] + tail)[1..] == tail;
      }
    }
  }

  /** Text without special characters is a pattern for itself. */
  lemma {:induction false} PlainIsEscaped(source: string)
    requires forall i :: 0 <= i < |source| ==> !IsRegExpSpecial(source[i])
    ensures Escaped(source)
  {
    if source != [] {
      PlainIsEscaped(source[1..]);
    }
  }

  /** Every pattern of the `replacers` list is escaped, so each one matches only its literal text. */
  lemma ReplacersEscaped(channelTitle: string)
    ensures forall source :: source in Replacers(channelTitle) ==> Escaped(source)
  {
    EscapedTitleIsEscaped(channelTitle);
    forall source | source in FixedPatterns
      ensures Escaped(source)
    {
      PlainIsEscaped(source);
    }
  }

  /**
   * `replaceAll("  ", " ")` scans from the left: the text before the first double space is
   * kept, that double space becomes one space, and the scan resumes after it.
   */
  lemma {:induction false} CollapseFirstDoubleSpace(s1: string, s2: string)
    requires NoDoubleSpace(s1)
    requires s1 == [] || s1[|s1| - 1] != ' '
    ensures CollapseDoubleSpaces(s1 + "  " + s2) == s1 + " " + CollapseDoubleSpaces(s2)
  {
    var s := s1 + "  " + s2;
    if s1 == [] {
      assert |s| >= 2 && s[0] == ' ' && s[1] == ' ' && s[2..] == s2;
      assert CollapseDoubleSpaces(s) == " " + CollapseDoubleSpaces(s2);
    } else {
      var rest := s1[1..];
      assert s[1..] == rest + "  " + s2;
      assert s[0] == s1[0];
      assert s1[0] == ' ' ==> |s1| > 1 && s[1] == s1[1] != ' ';
      assert CollapseDoubleSpaces(s) == [s1[0]] + CollapseDoubleSpaces(s[1..]);
      assert NoDoubleSpace(rest) by {
        assert forall i :: 0 <= i < |rest| ==> rest[i] == s1[i + 1];
      }
      CollapseFirstDoubleSpace(rest, s2);
      SpaceAfter(s1, CollapseDoubleSpaces(s2));
    }
  }

  lemma SpaceAfter(s1: string, t: string)
    requires s1 != []
    ensures s1 + " " + t == [s1[0]] + (s1[1..] + " " + t)
  {
  }

  /**
   * Each replacer removes at most one occurrence, the leftmost: a title where the pattern does
   * not occur is unchanged, and otherwise exactly the leftmost occurrence is cut out.
   */
  lemma RemoveFirstIsLeftmost(s: string, pattern: string)
    ensures (forall i: nat :: !OccursAt(s, i, pattern)) ==> RemoveFirst(s, pattern) == s
    ensures forall i: nat ::
      (OccursAt(s, i, pattern) && forall j: nat :: j < i ==> !OccursAt(s, j, pattern))
      ==> RemoveFirst(s, pattern) == s[..i] + s[i + |pattern|..]
  {
    match FirstOccurrence(s, pattern, 0)
    case None =>
    case Some(k) =>
      forall i: nat | OccursAt(s, i, pattern) && forall j: nat :: j < i ==> !OccursAt(s, j, pattern)
        ensures i == k
      {
        assert i <= k && k <= i;
      }
  }
}
