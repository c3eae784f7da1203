/**
 * `matchChannel`: turns one blog post into the videos to download. The video attachments are
 * visited in `attachmentOrder` order. For a post with several attachments, each attachment is
 * fetched, its title merged with the post title, and its release date pushed one second further
 * per attachment. The channel list then decides, first accepting channel first: a `skip`
 * channel drops the attachment, an expired retention window ends the whole post, and otherwise
 * one video is produced for that channel.
 */
module Matching {
  import opened Options
  import opened Content
  import opened Retention
  import opened Rules
  import opened Ordering
  import Strings
  import Titles
  import Prefixes

  /** What `matchChannel` reads besides the post: the channels, the attachment cache, the clock, a setting. */
  datatype Env = Env(
    channels: seq<Channel>,
    attachments: string -> VideoContent,
    now: int,
    stripSubchannelPrefix: bool)

  /** The post as the in-place sort leaves it: video attachments in visiting order. */
  function SortedPost(post: BlogPost): (r: BlogPost)
    requires post.videoAttachments.Some?
    ensures r.videoAttachments.Some?
  {
    post.(videoAttachments := Some(SortByOrder(post.videoAttachments.value, post.attachmentOrder)))
  }

  function Count(post: BlogPost): nat
    requires post.videoAttachments.Some?
  {
    |post.videoAttachments.value|
  }

  /** The fetched attachment, for posts with more than one; none otherwise. */
  function VideoAt(env: Env, post: BlogPost, i: nat): Option<VideoContent>
    requires post.videoAttachments.Some? && i < Count(post)
  {
    if Count(post) > 1 then Some(env.attachments(post.videoAttachments.value[i])) else None
  }

  /** The title before prefix stripping: the post title, merged with the attachment title if fetched. */
  function BaseTitle(post: BlogPost, video: Option<VideoContent>): string {
    match video
    case Some(v) => Titles.Merge(post.title, v.title)
    case None => post.title
  }

  /** The title the matched channel gets. */
  function FinalTitle(env: Env, channel: Channel, title: string): string {
    if env.stripSubchannelPrefix then Prefixes.StrippedTitle(title, channel.title) else title
  }

  /** The release date of attachment `i`: `dateOffset` seconds after the post. */
  function ReleaseAt(post: BlogPost, i: nat): int
    requires post.videoAttachments.Some?
  {
    post.releaseDate + (if Count(post) > 1 then (i + 1) * 1000 else 0)
  }

  /** What the channel loop decides for one attachment. */
  datatype Outcome = Unmatched | Skipped | Expired | Emit(video: Video)

  function OutcomeAt(env: Env, compile: string -> Rule, post: BlogPost, i: nat): Outcome
    requires post.videoAttachments.Some? && i < Count(post)
  {
    var video := VideoAt(env, post, i);
    Decision(env, post, i, video, FirstMatch(env.channels, compile, post, video, 0))
  }

  /** The outcome once the channel scan has found channel `found`, or none. */
  function Decision(env: Env, post: BlogPost, i: nat, video: Option<VideoContent>, found: Option<nat>): Outcome
    requires post.videoAttachments.Some? && i < Count(post)
  {
    match found
    case None => Unmatched
    case Some(k) =>
      if k >= |env.channels| then Unmatched
      else
        var channel := env.channels[k];
        if channel.skip then Skipped
        else if Retention.Expired(env.now, channel, post.releaseDate) then Expired
        else Emit(Video(post.videoAttachments.value[i], post.text, post.thumbnail, channel.title,
                        FinalTitle(env, channel, BaseTitle(post, video)), ReleaseAt(post, i)))
  }

  /** The outcomes of positions `0` to `n - 1`, in visiting order. */
  function Outcomes(env: Env, compile: string -> Rule, post: BlogPost, n: nat): seq<Outcome>
    requires post.videoAttachments.Some? && n <= Count(post)
  {
    seq(n, i requires 0 <= i < n => OutcomeAt(env, compile, post, i))
  }

  /** The first position at or after `i` whose outcome is `Expired`, or the number of outcomes. */
  function StopAt(outs: seq<Outcome>, i: nat): (r: nat)
    ensures i <= |outs| ==> i <= r <= |outs|
    ensures r < |outs| ==> outs[r].Expired?
    decreases |outs| - i
  {
    if i >= |outs| then |outs|
    else if outs[i].Expired? then i
    else StopAt(outs, i + 1)
  }

  /** The videos of one position: the emitted video, or none. */
  function Emitted(outcome: Outcome): seq<Video> {
    match outcome case Emit(v) => [v] case _ => []
  }

  /** The videos a run of outcomes produces. */
  function Items(outs: seq<Outcome>): seq<Video> {
    if outs == [] then [] else Items(outs[..|outs| - 1]) + Emitted(outs[|outs| - 1])
  }

  /** One more position: its video is appended, and the stop is here or further on. */
  lemma StepAt(outs: seq<Outcome>, i: nat)
    requires i < |outs|
    ensures Items(outs[..i + 1]) == Items(outs[..i]) + Emitted(outs[i])
    ensures outs[i].Expired? ==> StopAt(outs, i) == i
    ensures !outs[i].Expired? ==> StopAt(outs, i) == StopAt(outs, i + 1)
  {
    assert outs[..i + 1][..i] == outs[..i];
  }

  /** The outcomes of every attachment of a sorted post. */
  function AllOutcomes(env: Env, compile: string -> Rule, post: BlogPost): (outs: seq<Outcome>)
    requires post.videoAttachments.Some?
    ensures |outs| == Count(post)
  {
    Outcomes(env, compile, post, Count(post))
  }

  /** The videos of a sorted post: those produced before the first expired attachment. */
  function Videos(env: Env, compile: string -> Rule, post: BlogPost): seq<Video>
    requires post.videoAttachments.Some?
  {
    var outs := AllOutcomes(env, compile, post);
    Items(outs[..StopAt(outs, 0)])
  }

  /** All the videos `matchChannel` yields for a blog post. */
  function PostVideos(env: Env, compile: string -> Rule, blogPost: BlogPost): seq<Video> {
    if blogPost.videoAttachments.None? then [] else Videos(env, compile, SortedPost(blogPost))
  }

  /** The attachments of a sorted post fetched from the cache: those visited, if there are several. */
  function Fetches(env: Env, compile: string -> Rule, post: BlogPost): seq<string>
    requires post.videoAttachments.Some?
  {
    var stop := StopAt(AllOutcomes(env, compile, post), 0);
    if Count(post) <= 1 then []
    else post.videoAttachments.value[..if stop < Count(post) then stop + 1 else stop]
  }

  /** The attachments `matchChannel` fetches for a blog post. */
  function PostFetches(env: Env, compile: string -> Rule, blogPost: BlogPost): seq<string> {
    if blogPost.videoAttachments.None? then [] else Fetches(env, compile, SortedPost(blogPost))
  }

  /**
   * The channel loop for one attachment: the first accepting channel decides; a `skip` channel
   * drops the attachment, an expired window ends the post, otherwise the video is built, its
   * title cleaned up when `stripSubchannelPrefix` is set.
   */
  method DecideChannel(memo: RuleMemo, env: Env, post: BlogPost, i: nat, video: Option<VideoContent>,
                       dateOffset: int)
    returns (outcome: Outcome)
    requires memo.Valid()
    requires post.videoAttachments.Some? && i < Count(post)
    requires video == VideoAt(env, post, i)
    requires dateOffset * 1000 == ReleaseAt(post, i) - post.releaseDate
    modifies memo
    ensures memo.Valid()
    ensures outcome == OutcomeAt(env, memo.compile, post, i)
    ensures old(memo.compiled).Keys <= memo.compiled.Keys <= old(memo.compiled).Keys + RuleTexts(env.channels)
  {
    var found := FindChannel(memo, env.channels, post, video);
    RuleTextsOfPrefix(env.channels, Scanned(found, |env.channels|));
    OutcomeIsDecision(env, memo.compile, post, i, video, found);
    if found.None? || found.value >= |env.channels| {
      outcome := Unmatched;
    } else {
      var channel := env.channels[found.value];
      if channel.skip {
        outcome := Skipped;
      } else if channel.daysToKeepVideos.Some? && post.releaseDate < IgnoreBeforeTimestamp(env.now, channel) {
        outcome := Expired;
      } else {
        var title := VideoTitle(env, channel, post, video);
        outcome := Emit(Video(post.videoAttachments.value[i], post.text, post.thumbnail, channel.title, title,
                              post.releaseDate + dateOffset * 1000));
      }
    }
  }

  lemma OutcomeIsDecision(env: Env, compile: string -> Rule, post: BlogPost, i: nat, video: Option<VideoContent>,
                          found: Option<nat>)
    requires post.videoAttachments.Some? && i < Count(post)
    requires video == VideoAt(env, post, i) && found == FirstMatch(env.channels, compile, post, video, 0)
    ensures OutcomeAt(env, compile, post, i) == Decision(env, post, i, video, found)
  {
  }

  /** The title handed on: the (merged) title, cleaned up when `stripSubchannelPrefix` is set. */
  method VideoTitle(env: Env, channel: Channel, post: BlogPost, video: Option<VideoContent>) returns (title: string)
    ensures title == FinalTitle(env, channel, BaseTitle(post, video))
  {
    title := BaseTitle(post, video);
    if env.stripSubchannelPrefix {
      title := Prefixes.StripSubchannelPrefix(title, channel.title);
    }
  }

  /**
   * `matchChannel` as `Subscription.ts` runs it: sort the video attachments in place, then visit them.
   * A post without video attachments yields nothing.
   */
  method MatchChannel(memo: RuleMemo, env: Env, blogPost: BlogPost) returns (videos: seq<Video>, fetched: seq<string>)
    requires memo.Valid()
    modifies memo
    ensures memo.Valid()
    ensures videos == PostVideos(env, memo.compile, blogPost)
    ensures fetched == PostFetches(env, memo.compile, blogPost)
    ensures old(memo.compiled).Keys <= memo.compiled.Keys <= old(memo.compiled).Keys + RuleTexts(env.channels)
  {
    if blogPost.videoAttachments.None? {
      return [], [];
    }
    var post := SortedPost(blogPost);
    videos, fetched := VisitAttachments(memo, env, post);
  }

  /**
   * One turn of the attachment loop: bump `dateOffset` and fetch the attachment when the post
   * has several, merge the titles, let the channel list decide, and add the video if one is made.
   */
  method VisitAttachment(memo: RuleMemo, env: Env, post: BlogPost, i: nat, ghost outs: seq<Outcome>,
                         videos: seq<Video>, fetched: seq<string>, dateOffset: int)
    returns (expired: bool, videos': seq<Video>, fetched': seq<string>, dateOffset': int)
    requires memo.Valid()
    requires post.videoAttachments.Some? && i < Count(post)
    requires outs == AllOutcomes(env, memo.compile, post)
    requires videos == Items(outs[..i])
    requires fetched == if Count(post) > 1 then post.videoAttachments.value[..i] else []
    requires dateOffset == if Count(post) > 1 then i else 0
    modifies memo
    ensures memo.Valid()
    ensures old(memo.compiled).Keys <= memo.compiled.Keys <= old(memo.compiled).Keys + RuleTexts(env.channels)
    ensures expired <==> outs[i].Expired?
    ensures expired ==> StopAt(outs, i) == i
    ensures !expired ==> StopAt(outs, i) == StopAt(outs, i + 1)
    ensures videos' == Items(outs[..i + 1])
    ensures expired ==> videos' == videos
    ensures fetched' == if Count(post) > 1 then post.videoAttachments.value[..i + 1] else []
    ensures dateOffset' == if Count(post) > 1 then i + 1 else 0
  {
    var attachmentId := post.videoAttachments.value[i];
    var video: Option<VideoContent> := None;
    dateOffset', fetched' := dateOffset, fetched;
    if Count(post) > 1 {
      dateOffset' := dateOffset' + 1;
      video := Some(env.attachments(attachmentId));
      fetched' := fetched' + [attachmentId];
      PrefixSnoc(post.videoAttachments.value, i);
    }
    var outcome := DecideChannel(memo, env, post, i, video, dateOffset');
    StepAt(outs, i);
    expired := outcome.Expired?;
    videos' := videos + Emitted(outcome);
  }

  lemma PrefixSnoc(ids: seq<string>, i: nat)
    requires i < |ids|
    ensures ids[..i + 1] == ids[..i] + [ids[i]]
  {
  }

  /**
   * The attachment loop of `matchChannel` over the sorted post: visit each attachment in turn,
   * collect the videos, and stop at the first expired one.
   */
  method VisitAttachments(memo: RuleMemo, env: Env, post: BlogPost) returns (videos: seq<Video>, fetched: seq<string>)
    requires memo.Valid()
    requires post.videoAttachments.Some?
    modifies memo
    ensures memo.Valid()
    ensures videos == Videos(env, memo.compile, post)
    ensures fetched == Fetches(env, memo.compile, post)
    ensures old(memo.compiled).Keys <= memo.compiled.Keys <= old(memo.compiled).Keys + RuleTexts(env.channels)
  {
    videos := [];
    fetched := [];
    var ids := post.videoAttachments.value;
    var dateOffset := 0;
    ghost var outs := AllOutcomes(env, memo.compile, post);
    ghost var allowed := memo.compiled.Keys + RuleTexts(env.channels);
    for i := 0 to |ids|
      invariant memo.Valid()
      invariant old(memo.compiled).Keys <= memo.compiled.Keys <= allowed
      invariant StopAt(outs, 0) == StopAt(outs, i)
      invariant videos == Items(outs[..i])
      invariant fetched == if |ids| > 1 then ids[..i] else []
      invariant dateOffset == if |ids| > 1 then i else 0
    {
      var expired;
      expired, videos, fetched, dateOffset := VisitAttachment(memo, env, post, i, outs, videos, fetched, dateOffset);
      if expired {
        Finish(env, memo.compile, post, i, videos, fetched);
        return;
      }
    }
    assert ids[..|ids|] == ids;
    assert outs[..|ids|] == outs;
    Finish(env, memo.compile, post, |ids|, videos, fetched);
  }

  /** Where the attachment loop stops, what it has collected is what `matchChannel` yields. */
  lemma Finish(env: Env, compile: string -> Rule, post: BlogPost, stop: nat, videos: seq<Video>, fetched: seq<string>)
    requires post.videoAttachments.Some?
    requires stop == StopAt(AllOutcomes(env, compile, post), 0)
    requires videos == Items(AllOutcomes(env, compile, post)[..stop])
    requires fetched == if Count(post) > 1 then post.videoAttachments.value[..if stop < Count(post) then stop + 1 else stop] else []
    ensures videos == Videos(env, compile, post)
    ensures fetched == Fetches(env, compile, post)
  {
  }

  // ---------------------------------------------------------------------------------------
  // Properties of matchChannel

  /** The visiting order is the attachment list sorted by `attachmentOrder`; nothing else of the post changes. */
  lemma SortedPostVisitsInOrder(blogPost: BlogPost)
    requires blogPost.videoAttachments.Some?
    ensures var ids := SortedPost(blogPost).videoAttachments.value;
      SortedBy(ids, blogPost.attachmentOrder) && multiset(ids) == multiset(blogPost.videoAttachments.value)
    ensures SortedPost(blogPost).(videoAttachments := blogPost.videoAttachments) == blogPost
  {
    SortByOrderSorts(blogPost.videoAttachments.value, blogPost.attachmentOrder);
  }

  /** No channel claims the attachment exactly when its outcome is `Unmatched`. */
  lemma UnmatchedIffNoChannelSelects(env: Env, compile: string -> Rule, post: BlogPost, i: nat)
    requires post.videoAttachments.Some? && i < Count(post)
    ensures OutcomeAt(env, compile, post, i).Unmatched?
      <==> forall j :: 0 <= j < |env.channels| ==> !Selects(env.channels[j], compile, post, VideoAt(env, post, i))
  {
    var video := VideoAt(env, post, i);
    var found := FirstMatch(env.channels, compile, post, video, 0);
    if found.Some? {
      assert Selects(env.channels[found.value], compile, post, video);
    }
  }

  /**
   * The first channel that claims the attachment decides it: a channel with a rule; `skip` drops
   * the attachment; an expired retention window ends the post; otherwise one video for that
   * channel, carrying the attachment id, the post text, the thumbnail and the release date.
   */
  lemma FirstSelectingChannelDecides(env: Env, compile: string -> Rule, post: BlogPost, i: nat, k: nat)
    requires post.videoAttachments.Some? && i < Count(post)
    requires k < |env.channels| && Selects(env.channels[k], compile, post, VideoAt(env, post, i))
    requires forall j :: 0 <= j < k ==> !Selects(env.channels[j], compile, post, VideoAt(env, post, i))
    ensures env.channels[k].isChannel.Some?
    ensures env.channels[k].skip ==> OutcomeAt(env, compile, post, i) == Skipped
    ensures !env.channels[k].skip && Retention.Expired(env.now, env.channels[k], post.releaseDate) ==>
              OutcomeAt(env, compile, post, i) == Expired
    ensures !env.channels[k].skip && !Retention.Expired(env.now, env.channels[k], post.releaseDate) ==>
              var outcome := OutcomeAt(env, compile, post, i);
              outcome.Emit?
              && outcome.video.attachmentId == post.videoAttachments.value[i]
              && outcome.video.description == post.text
              && outcome.video.artworkUrl == post.thumbnail
              && outcome.video.channelTitle == env.channels[k].title
              && outcome.video.videoTitle == FinalTitle(env, env.channels[k], BaseTitle(post, VideoAt(env, post, i)))
              && outcome.video.releaseDate == ReleaseAt(post, i)
  {
    FirstMatchAt(env.channels, compile, post, VideoAt(env, post, i), k);
  }

  /** Every video comes from a channel with a rule that is not `skip`, and carries that channel's title. */
  lemma EmitComesFromChannel(env: Env, compile: string -> Rule, post: BlogPost, i: nat)
    requires post.videoAttachments.Some? && i < Count(post)
    requires OutcomeAt(env, compile, post, i).Emit?
    ensures var v := OutcomeAt(env, compile, post, i).video;
      v.attachmentId == post.videoAttachments.value[i] && v.description == post.text
      && v.artworkUrl == post.thumbnail && v.releaseDate == ReleaseAt(post, i)
      && exists c :: c in env.channels && c.isChannel.Some? && !c.skip && c.title == v.channelTitle
  {
    var video := VideoAt(env, post, i);
    var k := FirstMatch(env.channels, compile, post, video, 0).value;
    assert env.channels[k] in env.channels;
  }

  /**
   * The title a video gets: with `stripSubchannelPrefix` off, the post title (single attachment)
   * or the merged title (several); with it on, that title cleaned up, trimmed and no longer.
   */
  lemma EmittedTitle(env: Env, compile: string -> Rule, post: BlogPost, i: nat)
    requires post.videoAttachments.Some? && i < Count(post)
    requires OutcomeAt(env, compile, post, i).Emit?
    ensures var title := OutcomeAt(env, compile, post, i).video.videoTitle;
      var base := if Count(post) > 1 then Titles.Merge(post.title, env.attachments(post.videoAttachments.value[i]).title)
                  else post.title;
      (!env.stripSubchannelPrefix ==> title == base)
      && (env.stripSubchannelPrefix ==> Strings.IsTrimmed(title) && |title| <= |base|)
  {
  }

  /** A run of outcomes yields at most one video per position, each an `Emit` at some position. */
  lemma {:induction false} ItemsFromPositions(outs: seq<Outcome>)
    ensures |Items(outs)| <= |outs|
    ensures forall v :: v in Items(outs) ==> exists j :: 0 <= j < |outs| && outs[j] == Emit(v)
  {
    if outs != [] {
      var init := outs[..|outs| - 1];
      ItemsFromPositions(init);
      forall v | v in Items(outs) ensures exists j :: 0 <= j < |outs| && outs[j] == Emit(v) {
        if v in Items(init) {
          var j :| 0 <= j < |init| && init[j] == Emit(v);
          assert outs[j] == Emit(v);
        } else {
          assert outs[|outs| - 1] == Emit(v);
        }
      }
    }
  }

  /** When position `j` is dated `j + 1` seconds after `base`, the videos come out strictly in date order. */
  lemma {:induction false} ItemsInReleaseOrder(outs: seq<Outcome>, base: int)
    requires forall j :: 0 <= j < |outs| && outs[j].Emit? ==> outs[j].video.releaseDate == base + (j + 1) * 1000
    ensures forall a :: 0 <= a < |Items(outs)| ==> base < Items(outs)[a].releaseDate <= base + |outs| * 1000
    ensures forall a, b :: 0 <= a < b < |Items(outs)| ==> Items(outs)[a].releaseDate < Items(outs)[b].releaseDate
  {
    if outs != [] {
      var init := outs[..|outs| - 1];
      ItemsInReleaseOrder(init, base);
      var items, last := Items(init), Emitted(outs[|outs| - 1]);
      assert Items(outs) == items + last;
      forall a | 0 <= a < |items| ensures Items(outs)[a] == items[a] {
      }
      if last != [] {
        assert Items(outs)[|items|] == outs[|outs| - 1].video;
      }
    }
  }

  /** Every video of a run of outcomes over one post, all of the same date. */
  lemma {:induction false} ItemsSameDate(outs: seq<Outcome>, date: int)
    requires forall j :: 0 <= j < |outs| && outs[j].Emit? ==> outs[j].video.releaseDate == date
    ensures forall v :: v in Items(outs) ==> v.releaseDate == date
  {
    ItemsFromPositions(outs);
  }

  /** The outcomes that produce the videos: those before the first expired attachment. */
  lemma VideosBeforeStop(env: Env, compile: string -> Rule, post: BlogPost, j: nat)
    requires post.videoAttachments.Some?
    requires j < StopAt(AllOutcomes(env, compile, post), 0)
    ensures var outs := AllOutcomes(env, compile, post);
      j < Count(post) && outs[..StopAt(outs, 0)][j] == OutcomeAt(env, compile, post, j)
  {
  }

  /**
   * `matchChannel` yields at most one video per video attachment of the post; each carries one of
   * the post's attachment ids, the post text, and the title of a channel with a rule and no `skip`.
   */
  lemma PostVideosAreAttachments(env: Env, compile: string -> Rule, blogPost: BlogPost)
    ensures blogPost.videoAttachments.None? ==> PostVideos(env, compile, blogPost) == []
    ensures blogPost.videoAttachments.Some? ==> |PostVideos(env, compile, blogPost)| <= |blogPost.videoAttachments.value|
    ensures forall v :: v in PostVideos(env, compile, blogPost) ==>
              blogPost.videoAttachments.Some? && v.attachmentId in blogPost.videoAttachments.value
              && v.description == blogPost.text && v.artworkUrl == blogPost.thumbnail
              && exists c :: c in env.channels && c.isChannel.Some? && !c.skip && c.title == v.channelTitle
  {
    if blogPost.videoAttachments.Some? {
      var post := SortedPost(blogPost);
      SortedPostVisitsInOrder(blogPost);
      var outs := AllOutcomes(env, compile, post);
      var run := outs[..StopAt(outs, 0)];
      ItemsFromPositions(run);
      forall v | v in PostVideos(env, compile, blogPost)
        ensures v.attachmentId in blogPost.videoAttachments.value
        ensures v.description == blogPost.text && v.artworkUrl == blogPost.thumbnail
        ensures exists c :: c in env.channels && c.isChannel.Some? && !c.skip && c.title == v.channelTitle
      {
        var j :| 0 <= j < |run| && run[j] == Emit(v);
        VideosBeforeStop(env, compile, post, j);
        EmitComesFromChannel(env, compile, post, j);
        assert post.videoAttachments.value[j] in multiset(post.videoAttachments.value);
      }
    }
  }

  /**
   * Release dates: a post with one attachment dates its video at the post's date; with `k` of
   * them, attachment `i` is dated `(i + 1)` seconds later, so the videos come out strictly in
   * date order, all within `k` seconds after the post.
   */
  lemma PostVideosReleaseDates(env: Env, compile: string -> Rule, blogPost: BlogPost)
    requires blogPost.videoAttachments.Some?
    ensures var videos := PostVideos(env, compile, blogPost);
      var k := |blogPost.videoAttachments.value|;
      (k <= 1 ==> forall v :: v in videos ==> v.releaseDate == blogPost.releaseDate)
      && (k > 1 ==> forall a :: 0 <= a < |videos| ==>
            blogPost.releaseDate < videos[a].releaseDate <= blogPost.releaseDate + k * 1000)
      && (forall a, b :: 0 <= a < b < |videos| ==> videos[a].releaseDate < videos[b].releaseDate)
  {
    var post := SortedPost(blogPost);
    SortByOrderLength(blogPost.videoAttachments.value, blogPost.attachmentOrder);
    var outs := AllOutcomes(env, compile, post);
    var run := outs[..StopAt(outs, 0)];
    forall j | 0 <= j < |run| && run[j].Emit?
      ensures run[j].video.releaseDate == ReleaseAt(post, j)
    {
      VideosBeforeStop(env, compile, post, j);
      EmitComesFromChannel(env, compile, post, j);
    }
    if Count(post) > 1 {
      ItemsInReleaseOrder(run, post.releaseDate);
    } else {
      ItemsSameDate(run, post.releaseDate);
      ItemsFromPositions(run);
    }
  }

  /**
   * An expired attachment ends the post: no video comes from it or any later attachment, and
   * nothing after it is fetched.
   */
  lemma ExpiredEndsPost(env: Env, compile: string -> Rule, post: BlogPost, i: nat)
    requires post.videoAttachments.Some? && i < Count(post)
    requires OutcomeAt(env, compile, post, i).Expired?
    ensures StopAt(AllOutcomes(env, compile, post), 0) <= i
    ensures |Videos(env, compile, post)| <= i
    ensures |Fetches(env, compile, post)| <= i + 1
  {
    var outs := AllOutcomes(env, compile, post);
    StopAtMost(outs, 0, i);
    ItemsFromPositions(outs[..StopAt(outs, 0)]);
  }

  lemma {:induction false} StopAtMost(outs: seq<Outcome>, from: nat, i: nat)
    requires from <= i < |outs| && outs[i].Expired?
    ensures StopAt(outs, from) <= i
    decreases i - from
  {
    if from < i && !outs[from].Expired? {
      StopAtMost(outs, from + 1, i);
    }
  }

  /**
   * The cache fetches: none for a post with a single attachment; otherwise the visited
   * attachments in order, every one of them when none is expired.
   */
  lemma FetchesAreVisited(env: Env, compile: string -> Rule, post: BlogPost)
    requires post.videoAttachments.Some?
    ensures var fetched := Fetches(env, compile, post);
      var ids := post.videoAttachments.value;
      (|ids| <= 1 ==> fetched == [])
      && fetched <= ids
      && ((forall i :: 0 <= i < |ids| ==> !OutcomeAt(env, compile, post, i).Expired?) && |ids| > 1 ==> fetched == ids)
  {
    var outs := AllOutcomes(env, compile, post);
    var ids := post.videoAttachments.value;
    if forall i :: 0 <= i < |ids| ==> !OutcomeAt(env, compile, post, i).Expired? {
      if StopAt(outs, 0) < |ids| {
      }
      assert ids[..|ids|] == ids;
    }
  }
}
