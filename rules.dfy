/**
 * Channel rules: each channel may carry an `isChannel` rule, a piece of text compiled once into a
 * predicate over the post and, for multi-attachment posts, the attachment. Compilation is an
 * oracle (`compile`); the shared `isChannelCache` memo is a map from rule text to compiled rule
 * that is only ever added to. The channel list is scanned in order and the first accepting
 * channel decides.
 */
module Rules {
  import opened Options
  import opened Content

  /** A compiled rule: `(post, video?) => boolean`. */
  type Rule = (BlogPost, Option<VideoContent>) -> bool

  /** The `isChannelCache` memo, with a log of the compilations it performed. */
  class RuleMemo {
    const compile: string -> Rule
    var compiled: map<string, Rule>
    ghost var compilations: seq<string>

    ghost predicate Valid()
      reads this
    {
      (forall t :: t in compiled ==> compiled[t] == compile(t))
      && (forall t :: t in compiled <==> t in compilations)
      && (forall i, j :: 0 <= i < j < |compilations| ==> compilations[i] != compilations[j])
    }

    constructor(compile: string -> Rule)
      ensures Valid()
      ensures this.compile == compile && compiled == map[] && compilations == []
    {
      this.compile := compile;
      compiled := map[];
      compilations := [];
    }

    /**
     * `isChannelCache[text] ?? (isChannelCache[text] = compile(text))`: the memoised rule;
     * a text is compiled only on its first lookup, and no entry is ever replaced.
     */
    method Get(text: string) returns (rule: Rule)
      requires Valid()
      modifies this
      ensures Valid()
      ensures rule == compile(text)
      ensures text in old(compiled) ==> compiled == old(compiled) && compilations == old(compilations)
      ensures text !in old(compiled) ==>
                compiled == old(compiled)[text := compile(text)] && compilations == old(compilations) + [text]
    {
      if text in compiled {
        rule := compiled[text];
      } else {
        rule := compile(text);
        compiled := compiled[text := rule];
        compilations := compilations + [text];
      }
    }
  }

  /** Channel `c` claims the attachment: it has a rule and the rule accepts. */
  predicate Selects(c: Channel, compile: string -> Rule, post: BlogPost, video: Option<VideoContent>) {
    c.isChannel.Some? && compile(c.isChannel.value)(post, video)
  }

  /** The index of the first channel, from `from` on, that claims the attachment. */
  function FirstMatch(channels: seq<Channel>, compile: string -> Rule, post: BlogPost,
                      video: Option<VideoContent>, from: nat): (r: Option<nat>)
    ensures r.Some? ==>
              from <= r.value < |channels| && Selects(channels[r.value], compile, post, video)
              && forall j :: from <= j < r.value ==> !Selects(channels[j], compile, post, video)
    ensures r.None? ==> forall j :: from <= j < |channels| ==> !Selects(channels[j], compile, post, video)
    decreases |channels| - from
  {
    if from >= |channels| then None
    else if Selects(channels[from], compile, post, video) then Some(from)
    else FirstMatch(channels, compile, post, video, from + 1)
  }

  /** The first accepting channel is unique: any index that accepts, after none did, is it. */
  lemma FirstMatchAt(channels: seq<Channel>, compile: string -> Rule, post: BlogPost,
                     video: Option<VideoContent>, k: nat)
    requires k < |channels| && Selects(channels[k], compile, post, video)
    requires forall j :: 0 <= j < k ==> !Selects(channels[j], compile, post, video)
    ensures FirstMatch(channels, compile, post, video, 0) == Some(k)
  {
    var r := FirstMatch(channels, compile, post, video, 0);
    assert r.Some?;
    assert !(r.value < k) && !(k < r.value);
  }

  /** The rule texts of a list of channels. */
  function RuleTexts(channels: seq<Channel>): set<string> {
    if channels == [] then {}
    else
      var c := channels[|channels| - 1];
      RuleTexts(channels[..|channels| - 1]) + (if c.isChannel.Some? then {c.isChannel.value} else {})
  }

  /** Exactly the texts of the channels that carry a rule. */
  lemma {:induction false} RuleTextsAreRules(channels: seq<Channel>, t: string)
    ensures t in RuleTexts(channels) <==> exists c :: c in channels && c.isChannel == Some(t)
  {
    if channels != [] {
      var init, c := channels[..|channels| - 1], channels[|channels| - 1];
      assert channels == init + [c];
      RuleTextsAreRules(init, t);
      if t in RuleTexts(init) {
        var d :| d in init && d.isChannel == Some(t);
        assert d in channels;
      }
      if c.isChannel == Some(t) {
        assert c in channels;
      }
      if exists d :: d in channels && d.isChannel == Some(t) {
        var d :| d in channels && d.isChannel == Some(t);
        if d != c {
          assert d in init;
        }
      }
    }
  }

  /** Scanning part of the channel list compiles no rule the whole list does not carry. */
  lemma RuleTextsOfPrefix(channels: seq<Channel>, n: nat)
    requires n <= |channels|
    ensures RuleTexts(channels[..n]) <= RuleTexts(channels)
  {
    forall t | t in RuleTexts(channels[..n]) ensures t in RuleTexts(channels) {
      RuleTextsAreRules(channels[..n], t);
      RuleTextsAreRules(channels, t);
      var c :| c in channels[..n] && c.isChannel == Some(t);
      assert c in channels;
    }
  }

  /**
   * The channel loop of `matchChannel` up to its decision: channels without a rule are passed
   * over, every rule consulted goes through the memo, and the first accepting channel is returned.
   */
  method FindChannel(memo: RuleMemo, channels: seq<Channel>, post: BlogPost, video: Option<VideoContent>)
    returns (found: Option<nat>)
    requires memo.Valid()
    modifies memo
    ensures memo.Valid()
    ensures found == FirstMatch(channels, memo.compile, post, video, 0)
    ensures old(memo.compiled).Keys <= memo.compiled.Keys
    ensures memo.compiled.Keys == old(memo.compiled).Keys + RuleTexts(channels[..Scanned(found, |channels|)])
  {
    found := None;
    ghost var base := memo.compiled.Keys;
    for i := 0 to |channels|
      invariant memo.Valid()
      invariant forall j :: 0 <= j < i ==> !Selects(channels[j], memo.compile, post, video)
      invariant memo.compiled.Keys == base + RuleTexts(channels[..i])
    {
      var selects := ConsultChannel(memo, channels, post, video, i, base);
      if selects {
        found := Some(i);
        FirstMatchAt(channels, memo.compile, post, video, i);
        return;
      }
    }
    assert channels[..|channels|] == channels;
  }

  /**
   * One turn of the channel loop: a channel without a rule is passed over; otherwise its rule,
   * taken from the memo, is asked whether it accepts the attachment.
   */
  method ConsultChannel(memo: RuleMemo, channels: seq<Channel>, post: BlogPost, video: Option<VideoContent>,
                        i: nat, ghost base: set<string>)
    returns (selects: bool)
    requires memo.Valid() && i < |channels|
    requires memo.compiled.Keys == base + RuleTexts(channels[..i])
    modifies memo
    ensures memo.Valid()
    ensures selects <==> Selects(channels[i], memo.compile, post, video)
    ensures memo.compiled.Keys == base + RuleTexts(channels[..i + 1])
  {
    RuleTextsSnoc(channels, i);
    var channel := channels[i];
    if channel.isChannel.None? {
      return false;
    }
    var isChannel := memo.Get(channel.isChannel.value);
    selects := isChannel(post, video);
  }

  lemma RuleTextsSnoc(channels: seq<Channel>, i: nat)
    requires i < |channels|
    ensures RuleTexts(channels[..i + 1])
      == RuleTexts(channels[..i]) + (if channels[i].isChannel.Some? then {channels[i].isChannel.value} else {})
  {
    assert channels[..i + 1][..i] == channels[..i];
  }

  /** How many channels the scan looked at: up to and including the match, or all of them. */
  function Scanned(found: Option<nat>, count: nat): nat {
    match found
    case Some(k) => if k < count then k + 1 else count
    case None => count
  }
}
