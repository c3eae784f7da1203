/**
 * The title merger `removeRepeatedSentences` (src/lib/Subscription.ts): combines a post title
 * and the title of one of its video attachments into a display title.
 *
 * Its "sentences" come from `title.match(separators)` with the global regular expression
 *   /(?:\s+|^)((?:[^.,;:!?-]+[\s]*[.,;:!?-]+)+)(?:\s+|$)/g
 * The scanner below follows a backtracking matcher step by step: `PairsEnd` is the greedy group
 * `(?:[^sep]+[\s]*[sep]+)+` followed by `(?:\s+|$)`, `GroupAfterWs` is `\s+` handing back
 * whitespace to the group, `MatchAt` tries `\s+` before `^`, and `MatchesFrom` is the `g` flag
 * restarting after each match. Because the group is greedy, a match runs to the LAST separator
 * run in the title that is followed by whitespace or the end, so a title yields at most one
 * "sentence" (lemma AtMostOneSentence).
 */
module Titles {
  import opened Options
  import opened Strings

  /** The separator class `[.,;:!?-]`, comma included. */
  predicate IsSep(c: char) {
    c == '.' || c == ',' || c == ';' || c == ':' || c == '!' || c == '?' || c == '-'
  }

  predicate AllSep(s: string) {
    forall i :: 0 <= i < |s| ==> IsSep(s[i])
  }

  /** End of the run of separators starting at `i`. */
  function SepRunEnd(s: string, i: nat): (j: nat)
    requires i <= |s|
    ensures i <= j <= |s|
    ensures forall k :: i <= k < j ==> IsSep(s[k])
    ensures j == |s| || !IsSep(s[j])
    decreases |s| - i
  {
    if i < |s| && IsSep(s[i]) then SepRunEnd(s, i + 1) else i
  }

  /** End of the run of non-separators (`[^.,;:!?-]`, whitespace included) starting at `i`. */
  function TextRunEnd(s: string, i: nat): (j: nat)
    requires i <= |s|
    ensures i <= j <= |s|
    ensures forall k :: i <= k < j ==> !IsSep(s[k])
    ensures j == |s| || IsSep(s[j])
    decreases |s| - i
  {
    if i < |s| && !IsSep(s[i]) then TextRunEnd(s, i + 1) else i
  }

  /** End of the run of whitespace starting at `i`: where a greedy `\s+` (or `\s*`) stops. */
  function WsRunEnd(s: string, i: nat): (j: nat)
    requires i <= |s|
    ensures i <= j <= |s|
    ensures forall k :: i <= k < j ==> IsWs(s[k])
    ensures j == |s| || !IsWs(s[j])
    decreases |s| - i
  {
    if i < |s| && IsWs(s[i]) then WsRunEnd(s, i + 1) else i
  }

  /** Start of the run of separators that ends at `e`. */
  function SepRunStart(s: string, e: nat): (j: nat)
    requires e <= |s|
    ensures j <= e
    ensures forall k :: j <= k < e ==> IsSep(s[k])
    ensures j == 0 || !IsSep(s[j - 1])
  {
    if e > 0 && IsSep(s[e - 1]) then SepRunStart(s, e - 1) else e
  }

  lemma SepIsNotWs(c: char)
    requires IsSep(c)
    ensures !IsWs(c)
  {
  }

  /**
   * A place where the sentence group may stop: just after a separator, with whitespace or the
   * end of the title next, so that `(?:\s+|$)` can follow.
   */
  predicate IsBoundaryEnd(s: string, b: nat) {
    0 < b <= |s| && IsSep(s[b - 1]) && (b == |s| || IsWs(s[b]))
  }

  predicate NoBoundaryAfter(s: string, x: nat) {
    forall b :: x < b <= |s| ==> !IsBoundaryEnd(s, b)
  }

  /**
   * The greedy group `(?:[^sep]+[\s]*[sep]+)+` started at `g`, followed by `(?:\s+|$)`:
   * one more text-then-separators pair is tried before settling for the current one, and a
   * pair is kept only if whitespace or the end follows it. Returns where the group ends.
   */
  function PairsEnd(s: string, g: nat): (r: Option<nat>)
    requires g <= |s|
    ensures r.Some? ==> g < r.value <= |s| && IsBoundaryEnd(s, r.value)
    decreases |s| - g
  {
    if g == |s| || IsSep(s[g]) then None
    else
      var a := TextRunEnd(s, g);
      if a == |s| then None
      else
        var b := SepRunEnd(s, a);
        match PairsEnd(s, b)
        case Some(e) => Some(e)
        case None => if b == |s| || IsWs(s[b]) then Some(b) else None
  }

  /**
   * The alternative `\s+` followed by the group: `\s+` first takes the whole whitespace run
   * and then hands characters back one at a time, so the group is tried at `q`, `q - 1`, ...,
   * down to `lo` (just after the one whitespace character `\s+` must keep).
   */
  function GroupAfterWs(s: string, lo: nat, q: nat): (r: Option<nat>)
    requires 0 < lo <= q <= |s|
    ensures r.Some? ==> lo < r.value <= |s| && IsBoundaryEnd(s, r.value)
    decreases q
  {
    match PairsEnd(s, q)
    case Some(e) => Some(e)
    case None => if q == lo then None else GroupAfterWs(s, lo, q - 1)
  }

  /** One attempt of the whole expression at position `p`: `\s+` first, then `^`. Returns where the group ends. */
  function MatchAt(s: string, p: nat): (r: Option<nat>)
    requires p <= |s|
    ensures r.Some? ==> p < r.value <= |s| && IsBoundaryEnd(s, r.value)
  {
    var viaWs := if p < |s| && IsWs(s[p]) then GroupAfterWs(s, p + 1, WsRunEnd(s, p)) else None;
    if viaWs.Some? then viaWs
    else if p == 0 then PairsEnd(s, 0)
    else None
  }

  /**
   * `s.match(separators)` from position `p` on: each match takes the trailing whitespace
   * (`\s+` is greedy) and the next search starts where the match ended.
   */
  function MatchesFrom(s: string, p: nat): seq<string>
    requires p <= |s|
    decreases |s| - p
  {
    if p == |s| then []
    else
      match MatchAt(s, p)
      case Some(b) =>
        var e := WsRunEnd(s, b);
        [s[p..e]] + MatchesFrom(s, e)
      case None => MatchesFrom(s, p + 1)
  }

  /** `title.match(separators)?.map((sentence) => sentence.trim())`: `None` when nothing matches. */
  function Sentences(title: string): Option<seq<string>> {
    var ms := MatchesFrom(title, 0);
    if ms == [] then None
    else Some(seq(|ms|, i requires 0 <= i < |ms| => Trim(ms[i])))
  }

  /**
   * `attachmentSentences.filter((sentence) => !postSentences?.includes(sentence))`: when the post
   * title has no sentences, `includes` is never called and every attachment sentence is kept.
   */
  function UniqueSentences(attachment: seq<string>, post: Option<seq<string>>): (r: seq<string>)
    ensures |r| <= |attachment|
    ensures forall x :: x in r <==> x in attachment && (post.None? || x !in post.value)
    ensures post.None? ==> r == attachment
  {
    if attachment == [] then []
    else
      (if post.Some? && attachment[0] in post.value then [] else [attachment[0]])
      + UniqueSentences(attachment[1..], post)
  }

  /** `strings.join("")` */
  function Join(strings: seq<string>): string {
    if strings == [] then [] else strings[0] + Join(strings[1..])
  }

  /** A string of the shape `[\s]*[.,;:!?-]+[\s]*`. */
  ghost predicate IsTrailingRun(t: string) {
    exists i, j :: 0 <= i < j <= |t| && AllWs(t[..i]) && AllSep(t[i..j]) && AllWs(t[j..])
  }

  /**
   * `s.replace(/[\s]*[.,;:!?-]+[\s]*$/, "")`: the first (leftmost) suffix of that shape is cut;
   * it is found by skipping the trailing whitespace, then the separator run, then the
   * whitespace before it.
   */
  function DropTrailingRun(s: string): (r: string)
    ensures |r| <= |s| && r == s[..|r|]
  {
    var e1 := |TrimEnd(s)|;
    var e2 := SepRunStart(s, e1);
    if e2 == e1 then s else TrimEnd(s[..e2])
  }

  /** `removeRepeatedSentences(postTitle, attachmentTitle)` */
  function Merge(postTitle: string, attachmentTitle: string): string {
    var postSentences := Sentences(postTitle);
    match Sentences(attachmentTitle)
    case None => Trim(Trim(postTitle) + " - " + Trim(attachmentTitle))
    case Some(attachmentSentences) =>
      var unique := UniqueSentences(attachmentSentences, postSentences);
      DropTrailingRun(Trim(Trim(postTitle) + " - " + Trim(Join(unique))))
  }

  // ---------------------------------------------------------------------------------------
  // The segmenter

  /** The group always stops at the last boundary after its start, and finds none when there is none. */
  lemma {:induction false} PairsEndIsLast(s: string, g: nat)
    requires g <= |s|
    ensures PairsEnd(s, g).None? && g < |s| && !IsSep(s[g]) ==> NoBoundaryAfter(s, g)
    ensures PairsEnd(s, g).Some? ==> NoBoundaryAfter(s, PairsEnd(s, g).value)
    decreases |s| - g
  {
    if g == |s| || IsSep(s[g]) {
      return;
    }
    var a := TextRunEnd(s, g);
    if a == |s| {
      forall x | g < x <= |s|
        ensures !IsBoundaryEnd(s, x)
      {
        assert !IsSep(s[x - 1]);
      }
      return;
    }
    var b := SepRunEnd(s, a);
    PairsEndIsLast(s, b);
    forall x | g < x < b
      ensures !IsBoundaryEnd(s, x)
    {
      if x <= a {
        assert !IsSep(s[x - 1]);
      } else {
        SepIsNotWs(s[x]);
      }
    }
  }

  lemma {:induction false} GroupAfterWsIsLast(s: string, lo: nat, q: nat)
    requires 0 < lo <= q <= |s|
    ensures GroupAfterWs(s, lo, q).Some? ==> NoBoundaryAfter(s, GroupAfterWs(s, lo, q).value)
    decreases q
  {
    PairsEndIsLast(s, q);
    if PairsEnd(s, q).None? && q > lo {
      GroupAfterWsIsLast(s, lo, q - 1);
    }
  }

  /** A match never stops short of the last boundary of the title. */
  lemma MatchAtIsLast(s: string, p: nat)
    requires p <= |s|
    ensures MatchAt(s, p).Some? ==> NoBoundaryAfter(s, MatchAt(s, p).value)
  {
    if p < |s| && IsWs(s[p]) {
      GroupAfterWsIsLast(s, p + 1, WsRunEnd(s, p));
    }
    PairsEndIsLast(s, 0);
  }

  /** With no boundary left, the global search finds nothing more. */
  lemma {:induction false} NoMatchesAfterLastBoundary(s: string, p: nat)
    requires p <= |s| && NoBoundaryAfter(s, p)
    ensures MatchesFrom(s, p) == []
    decreases |s| - p
  {
    if p < |s| {
      NoMatchesAfterLastBoundary(s, p + 1);
    }
  }

  /** The global search finds at most one sentence from any position. */
  lemma {:induction false} AtMostOneMatch(s: string, p: nat)
    requires p <= |s|
    ensures |MatchesFrom(s, p)| <= 1
    decreases |s| - p
  {
    if p < |s| {
      match MatchAt(s, p)
      case Some(b) =>
        MatchAtIsLast(s, p);
        NoMatchesAfterLastBoundary(s, WsRunEnd(s, b));
      case None =>
        AtMostOneMatch(s, p + 1);
    }
  }

  /** A title yields no sentence or exactly one. */
  lemma AtMostOneSentence(title: string)
    ensures Sentences(title).Some? ==> |Sentences(title).value| == 1
  {
    AtMostOneMatch(title, 0);
  }

  /** A title without any of `.,;:!?-` yields no sentence. */
  lemma NoSeparatorNoSentence(title: string)
    requires forall i :: 0 <= i < |title| ==> !IsSep(title[i])
    ensures Sentences(title).None?
  {
    NoMatchesAfterLastBoundary(title, 0);
  }

  /** Trimming keeps exactly up to the last non-whitespace character. */
  lemma TrimEndsWith(m: string, j: nat)
    requires j < |m| && !IsWs(m[j])
    requires forall k :: j < k < |m| ==> IsWs(m[k])
    ensures Trim(m) != [] && Trim(m)[|Trim(m)| - 1] == m[j]
  {
    var t := TrimStart(m);
    var off := |m| - |t|;
    assert off <= j;
    var r := TrimEnd(t);
    assert t[j - off] == m[j];
    assert |r| > j - off;
    assert t[|r| - 1] == m[off + |r| - 1];
    assert |r| == j - off + 1;
    assert Trim(m) == r;
  }

  /** The global search's first result comes from the first position where an attempt matches. */
  lemma {:induction false} FirstMatch(s: string, q: nat) returns (p: nat)
    requires q <= |s| && MatchesFrom(s, q) != []
    ensures q <= p < |s| && MatchAt(s, p).Some?
    ensures MatchesFrom(s, q) == MatchesFrom(s, p)
    ensures forall x :: q <= x < p ==> MatchAt(s, x).None?
    ensures MatchesFrom(s, p)[0] == s[p..WsRunEnd(s, MatchAt(s, p).value)]
    decreases |s| - q
  {
    if MatchAt(s, q).None? {
      assert MatchesFrom(s, q) == MatchesFrom(s, q + 1);
      p := FirstMatch(s, q + 1);
      forall x | q <= x < p
        ensures MatchAt(s, x).None?
      {
      }
    } else {
      p := q;
    }
  }

  /** The text of one match, once trimmed, is non-empty and ends with a separator. */
  lemma MatchTextShape(s: string, p: nat)
    requires p < |s| && MatchAt(s, p).Some?
    ensures var m := s[p..WsRunEnd(s, MatchAt(s, p).value)];
      Trim(m) != [] && IsSep(Trim(m)[|Trim(m)| - 1])
  {
    var b := MatchAt(s, p).value;
    var e := WsRunEnd(s, b);
    var m := s[p..e];
    assert m[b - 1 - p] == s[b - 1];
    TrimEndsWith(m, b - 1 - p);
  }

  /** The sentence a title yields is non-empty, trimmed, and ends with a separator. */
  lemma SentenceShape(title: string)
    requires Sentences(title).Some?
    ensures var x := Sentences(title).value[0];
      x != [] && IsTrimmed(x) && IsSep(x[|x| - 1])
  {
    var ms := MatchesFrom(title, 0);
    assert ms != [];
    var p := FirstMatch(title, 0);
    var b := MatchAt(title, p).value;
    var e := WsRunEnd(title, b);
    assert ms[0] == title[p..e];
    MatchTextShape(title, p);
  }

  // ---------------------------------------------------------------------------------------
  // Removing the trailing separator run

  /**
   * DropTrailingRun cuts exactly what the regular expression matches: the removed suffix has the
   * shape `[\s]*[.,;:!?-]+[\s]*`, and no suffix starting further left has it.
   */
  lemma DropTrailingRunIsLeftmostMatch(s: string)
    ensures var r := DropTrailingRun(s);
      r == s || IsTrailingRun(s[|r|..])
    ensures var r := DropTrailingRun(s);
      forall k :: 0 <= k < |r| ==> !IsTrailingRun(s[k..])
  {
    CutIsTrailingRun(s);
    var r := DropTrailingRun(s);
    forall k | 0 <= k < |r|
      ensures !IsTrailingRun(s[k..])
    {
      if IsTrailingRun(s[k..]) {
        var i, j :| 0 <= i < j <= |s[k..]| && AllWs(s[k..][..i]) && AllSep(s[k..][i..j]) && AllWs(s[k..][j..]);
        TrailingRunStart(s, k, i, j);
      }
    }
  }

  /** What DropTrailingRun removes, if anything, has the shape `[\s]*[.,;:!?-]+[\s]*`. */
  lemma CutIsTrailingRun(s: string)
    ensures var r := DropTrailingRun(s);
      r == s || IsTrailingRun(s[|r|..])
  {
    var e1 := |TrimEnd(s)|;
    var e2 := SepRunStart(s, e1);
    var r := DropTrailingRun(s);
    if e2 != e1 {
      var s' := s[..e2];
      assert r == TrimEnd(s');
      forall x | |r| <= x < e2
        ensures IsWs(s[x])
      {
        assert s'[x] == s[x];
      }
      ShapeFromPositions(s, |r|, e2, e1);
    }
  }

  /** Whitespace on `[a, b)`, separators on `[b, c)` and whitespace after `c` make the suffix at `a` a trailing run. */
  lemma ShapeFromPositions(s: string, a: nat, b: nat, c: nat)
    requires a <= b < c <= |s|
    requires forall x :: a <= x < b ==> IsWs(s[x])
    requires forall x :: b <= x < c ==> IsSep(s[x])
    requires forall x :: c <= x < |s| ==> IsWs(s[x])
    ensures IsTrailingRun(s[a..])
  {
    var t := s[a..];
    var i, j := b - a, c - a;
    assert AllWs(t[..i]) by {
      forall x | 0 <= x < i
        ensures IsWs(t[..i][x])
      {
        assert t[..i][x] == s[a + x];
      }
    }
    assert AllSep(t[i..j]) by {
      forall x | 0 <= x < j - i
        ensures IsSep(t[i..j][x])
      {
        assert t[i..j][x] == s[b + x];
      }
    }
    assert AllWs(t[j..]) by {
      forall x | 0 <= x < |t| - j
        ensures IsWs(t[j..][x])
      {
        assert t[j..][x] == s[c + x];
      }
    }
  }

  /** Any suffix of the shape `[\s]*[.,;:!?-]+[\s]*` starts at or after the cut. */
  lemma TrailingRunStart(s: string, k: nat, i: nat, j: nat)
    requires k <= |s| && 0 <= i < j <= |s| - k
    requires AllWs(s[k..][..i]) && AllSep(s[k..][i..j]) && AllWs(s[k..][j..])
    ensures k >= |DropTrailingRun(s)|
  {
    RunsInPlace(s, k, i, j);
    var e1 := |TrimEnd(s)|;
    assert IsSep(s[k + j - 1]) && !IsWs(s[k + j - 1]);
    assert e1 == 0 || !IsWs(s[e1 - 1]);
    assert e1 == k + j;
    var e2 := SepRunStart(s, e1);
    assert e2 <= k + i;
    var r := DropTrailingRun(s);
    assert r == TrimEnd(s[..e2]);
    if e2 < k + i {
      assert IsSep(s[e2]);
      assert e2 < k;
    } else {
      assert |r| <= k;
    }
  }

  /** The three runs of a suffix, restated as positions of the whole string. */
  lemma RunsInPlace(s: string, k: nat, i: nat, j: nat)
    requires k <= |s| && 0 <= i < j <= |s| - k
    requires AllWs(s[k..][..i]) && AllSep(s[k..][i..j]) && AllWs(s[k..][j..])
    ensures forall x :: k <= x < k + i ==> IsWs(s[x])
    ensures forall x :: k + i <= x < k + j ==> IsSep(s[x])
    ensures forall x :: k + j <= x < |s| ==> IsWs(s[x])
  {
    forall x | k <= x < k + i
      ensures IsWs(s[x])
    {
      assert s[k..][..i][x - k] == s[x];
    }
    forall x | k + i <= x < k + j
      ensures IsSep(s[x])
    {
      assert s[k..][i..j][x - k - i] == s[x];
    }
    forall x | k + j <= x < |s|
      ensures IsWs(s[x])
    {
      assert s[k..][j..][x - k - j] == s[x];
    }
  }

  /** Cutting the trailing run from a trimmed string leaves a trimmed string. */
  lemma DropTrailingRunKeepsTrimmed(s: string)
    requires IsTrimmed(s)
    ensures IsTrimmed(DropTrailingRun(s))
  {
    var r := DropTrailingRun(s);
    if r != [] {
      assert r[0] == s[0];
    }
  }

  // ---------------------------------------------------------------------------------------
  // Properties of the merged title

  /** Every merged title, fallback or not, has no leading or trailing whitespace. */
  lemma MergeIsTrimmed(postTitle: string, attachmentTitle: string)
    ensures IsTrimmed(Merge(postTitle, attachmentTitle))
  {
    match Sentences(attachmentTitle)
    case None =>
    case Some(a) =>
      var unique := UniqueSentences(a, Sentences(postTitle));
      DropTrailingRunKeepsTrimmed(Trim(Trim(postTitle) + " - " + Trim(Join(unique))));
  }

  /**
   * An attachment title without any separator always takes the fallback: both titles trimmed,
   * joined by " - ", trimmed again, whatever the post title is (empty strings included).
   */
  lemma FallbackWithoutSeparators(postTitle: string, attachmentTitle: string)
    requires forall i :: 0 <= i < |attachmentTitle| ==> !IsSep(attachmentTitle[i])
    ensures Merge(postTitle, attachmentTitle) == Trim(Trim(postTitle) + " - " + Trim(attachmentTitle))
  {
    NoSeparatorNoSentence(attachmentTitle);
  }

  lemma {:induction false} NothingUnique(attachment: seq<string>, post: seq<string>)
    requires forall x :: x in attachment ==> x in post
    ensures UniqueSentences(attachment, Some(post)) == []
  {
    if attachment != [] {
      assert attachment[0] in attachment;
      NothingUnique(attachment[1..], post);
    }
  }

  /** With an empty post title the merge tail is "-", which the trailing-run cut removes. */
  lemma DashAloneCut()
    ensures Trim([] + " - ") == "-"
    ensures DropTrailingRun("-") == []
  {
    DashAloneTrimmed();
    assert TrimEnd("-") == "-";
    assert SepRunStart("-", 0) == 0;
    assert SepRunStart("-", 1) == 0;
    assert TrimEnd("-"[..0]) == [];
  }

  lemma DashAloneTrimmed()
    ensures Trim([] + " - ") == "-"
  {
    assert [] + " - " == [' ', '-', ' '];
    LeadingSpaceTrimmed();
    TrailingSpaceTrimmed();
  }

  lemma LeadingSpaceTrimmed()
    ensures TrimStart([' ', '-', ' ']) == ['-', ' ']
  {
    assert [' ', '-', ' '][1..] == ['-', ' '];
  }

  lemma TrailingSpaceTrimmed()
    ensures TrimEnd(['-', ' ']) == ['-']
  {
    assert ['-', ' '][..1] == ['-'];
  }

  /** With a non-empty trimmed post title `t` the merge tail is `t + " -"`, cut back to `t`. */
  lemma DashAddedAndCut(t: string)
    requires IsTrimmed(t) && t != []
    ensures Trim(t + " - ") == t + " -"
    ensures DropTrailingRun(t + " -") == t
  {
    var d := t + " -";
    assert t + " - " == d + " ";
    TrimWithTrailingWs(d, " ");
    DashCut(t);
  }

  lemma DashCut(t: string)
    requires IsTrimmed(t) && t != []
    ensures DropTrailingRun(t + " -") == t
  {
    var d := t + " -";
    assert TrimEnd(d) == d;
    assert SepRunStart(d, |d| - 1) == |t| + 1;
    assert SepRunStart(d, |d|) == |t| + 1;
    assert d[..|t| + 1] == t + " ";
    SpaceTrimmedOff(t);
  }

  lemma SpaceTrimmedOff(t: string)
    requires IsTrimmed(t) && t != []
    ensures TrimEnd(t + " ") == t
  {
    assert (t + " ")[..|t|] == t;
    assert TrimEnd(t + " ") == TrimEnd(t);
  }

  /** The merge tail when no attachment sentence is left: the trimmed post title comes back. */
  lemma EmptyTailCollapses(t: string)
    requires IsTrimmed(t)
    ensures DropTrailingRun(Trim(t + " - " + Trim(Join([])))) == t
  {
    assert Join([]) == [];
    assert Trim([]) == [];
    assert t + " - " + [] == t + " - ";
    if t == [] {
      DashAloneCut();
    } else {
      DashAddedAndCut(t);
    }
  }

  /**
   * When every sentence of the attachment title is also a sentence of the post title, nothing is
   * added: the merged title is the trimmed post title.
   */
  lemma RepeatedAttachmentCollapses(postTitle: string, attachmentTitle: string)
    requires Sentences(postTitle).Some? && Sentences(attachmentTitle).Some?
    requires forall x :: x in Sentences(attachmentTitle).value ==> x in Sentences(postTitle).value
    ensures Merge(postTitle, attachmentTitle) == Trim(postTitle)
  {
    var unique := UniqueSentences(Sentences(attachmentTitle).value, Sentences(postTitle));
    NothingUnique(Sentences(attachmentTitle).value, Sentences(postTitle).value);
    assert unique == [];
    EmptyTailCollapses(Trim(postTitle));
  }
}
