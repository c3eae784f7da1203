/**
 * A subscription: a creator, its channel list and a plan name. `fetchNewVideos` reads the
 * creator's post listing through `PostIterable` and hands every post to `matchChannel`,
 * stopping after `videosToSearch + 1` posts; `seekAndDestroy` matches one post fetched by id.
 * The settings, the page cache, the attachment cache and the clock are parameters; the rule
 * memo is shared by all subscriptions, as the TypeScript code's static `isChannelCache` is.
 */
module Subscriptions {
  import opened Options
  import opened Content
  import opened Rules
  import opened Pagination
  import opened Matching

  /** The two settings the core reads: `floatplane.videosToSearch` and `extras.stripSubchannelPrefix`. */
  datatype Settings = Settings(videosToSearch: int, stripSubchannelPrefix: bool)

  /**
   * How many posts `fetchNewVideos` takes from a long enough listing: none when
   * `videosToSearch` is 0, otherwise up to the post whose check `videosSearched++ >= videosToSearch`
   * fires.
   */
  function Demand(videosToSearch: int): nat {
    if videosToSearch == 0 then 0
    else if videosToSearch < 0 then 1
    else videosToSearch + 1
  }

  /** The check `videosSearched++ >= videosToSearch` fires exactly at the last post `Demand` allows. */
  lemma DemandReached(videosToSearch: int, videosSearched: nat)
    requires videosToSearch != 0 && videosSearched < Demand(videosToSearch)
    ensures videosSearched >= videosToSearch <==> videosSearched + 1 == Demand(videosToSearch)
  {
  }

  /** What a per-post step yields for each post in turn, concatenated. */
  function Concat<T>(step: BlogPost -> seq<T>, posts: seq<BlogPost>): seq<T> {
    if posts == [] then []
    else Concat(step, posts[..|posts| - 1]) + step(posts[|posts| - 1])
  }

  lemma ConcatSnoc<T>(step: BlogPost -> seq<T>, posts: seq<BlogPost>, post: BlogPost)
    ensures Concat(step, posts + [post]) == Concat(step, posts) + step(post)
  {
    assert (posts + [post])[..|posts|] == posts;
  }

  /** The output of a run of posts is that of its first part followed by that of the rest. */
  lemma {:induction false} ConcatSplits<T>(step: BlogPost -> seq<T>, posts: seq<BlogPost>, k: nat)
    requires k <= |posts|
    ensures Concat(step, posts) == Concat(step, posts[..k]) + Concat(step, posts[k..])
    decreases |posts|
  {
    if k < |posts| {
      var init, last := posts[..|posts| - 1], posts[|posts| - 1];
      ConcatSplits(step, init, k);
      assert init[..k] == posts[..k];
      assert posts[k..] == init[k..] + [last];
      ConcatSnoc(step, init[k..], last);
    } else {
      assert posts[..k] == posts;
    }
  }

  /** `matchChannel` as a per-post step. */
  function VideosOf(env: Env, compile: string -> Rule): BlogPost -> seq<Video> {
    post => PostVideos(env, compile, post)
  }

  /** The attachment cache lookups of `matchChannel` as a per-post step. */
  function FetchesOf(env: Env, compile: string -> Rule): BlogPost -> seq<string> {
    post => PostFetches(env, compile, post)
  }

  /** The videos `matchChannel` yields for each post in turn, concatenated. */
  function DiscoverVideos(env: Env, compile: string -> Rule, posts: seq<BlogPost>): seq<Video> {
    Concat(VideosOf(env, compile), posts)
  }

  /** The attachment cache lookups `matchChannel` makes for each post in turn, concatenated. */
  function DiscoverFetches(env: Env, compile: string -> Rule, posts: seq<BlogPost>): seq<string> {
    Concat(FetchesOf(env, compile), posts)
  }

  /** The environment `matchChannel` runs in for a subscription. */
  function EnvOf(channels: seq<Channel>, settings: Settings, attachments: string -> VideoContent, now: int): (env: Env)
    ensures env.channels == channels && env.attachments == attachments
    ensures env.now == now && env.stripSubchannelPrefix == settings.stripSubchannelPrefix
  {
    Env(channels, attachments, now, settings.stripSubchannelPrefix)
  }

  /** The listing `fetchNewVideos` reads: the creator's posts with video. */
  function FeedOf(source: PageRequest -> seq<BlogPost>, creatorId: string): (feed: Feed)
    ensures feed.source == source && feed.creatorId == creatorId && feed.options == ListOptions(true)
  {
    Feed(source, creatorId, ListOptions(true))
  }

  class Subscription {
    const creatorId: string
    const channels: seq<Channel>
    const plan: string

    constructor(creatorId: string, channels: seq<Channel>, plan: string)
      ensures this.creatorId == creatorId && this.channels == channels && this.plan == plan
    {
      this.creatorId := creatorId;
      this.channels := channels;
      this.plan := plan;
    }

    /**
     * `fetchNewVideos`: read posts from the listing one at a time, yield what `matchChannel`
     * makes of each, and stop after `Demand(videosToSearch)` posts or at the end of the listing.
     * `requests` are the page cache calls made, `fetched` the attachment cache calls.
     */
    method FetchNewVideos(memo: RuleMemo, settings: Settings, source: PageRequest -> seq<BlogPost>,
                          attachments: string -> VideoContent, now: int)
      returns (videos: seq<Video>, requests: seq<PageRequest>, fetched: seq<string>)
      requires memo.Valid()
      modifies memo
      ensures memo.Valid()
      ensures var feed := FeedOf(source, creatorId);
        var env := EnvOf(channels, settings, attachments, now);
        var posts := Take(feed, 0, Demand(settings.videosToSearch));
        videos == DiscoverVideos(env, memo.compile, posts)
        && fetched == DiscoverFetches(env, memo.compile, posts)
        && |requests| == PagesNeeded(feed, 0, Demand(settings.videosToSearch))
        && forall i :: 0 <= i < |requests| ==> requests[i] == Request(feed, i)
      ensures old(memo.compiled).Keys <= memo.compiled.Keys <= old(memo.compiled).Keys + RuleTexts(channels)
    {
      var feed := FeedOf(source, creatorId);
      var env := EnvOf(channels, settings, attachments, now);
      ghost var n := Demand(settings.videosToSearch);
      videos, requests, fetched := [], [], [];
      if settings.videosToSearch == 0 {
        return;
      }
      var stream := new PostStream(feed);
      ghost var allowed := memo.compiled.Keys + RuleTexts(channels);
      var videosSearched := 0;
      var stop := false;
      while !stop
        invariant stream.Valid() && stream.feed == feed && fresh(stream) && memo.Valid()
        invariant old(memo.compiled).Keys <= memo.compiled.Keys <= allowed
        invariant videos == DiscoverVideos(env, memo.compile, stream.yielded)
        invariant fetched == DiscoverFetches(env, memo.compile, stream.yielded)
        invariant !stop ==> !stream.finished && videosSearched == |stream.yielded| < n
        invariant stop ==> stream.yielded == Take(feed, 0, n) && |stream.requests| == PagesNeeded(feed, 0, n)
        decreases if stop then 0 else 1 + n - videosSearched
      {
        stop, videosSearched, videos, fetched :=
          SearchStep(stream, memo, env, settings.videosToSearch, videosSearched, videos, fetched);
      }
      requests := stream.requests;
    }

    /**
     * One turn of the `for await` loop: take the next post, yield what `matchChannel` makes of
     * it, and tell whether the search ends here, because the listing ran out or because the
     * check `videosSearched++ >= videosToSearch` fired.
     */
    method SearchStep(stream: PostStream, memo: RuleMemo, env: Env, videosToSearch: int,
                      videosSearched: nat, videos: seq<Video>, fetched: seq<string>)
      returns (stop: bool, videosSearched': nat, videos': seq<Video>, fetched': seq<string>)
      requires videosToSearch != 0
      requires stream.Valid() && !stream.finished && memo.Valid()
      requires videosSearched == |stream.yielded| < Demand(videosToSearch)
      requires videos == DiscoverVideos(env, memo.compile, stream.yielded)
      requires fetched == DiscoverFetches(env, memo.compile, stream.yielded)
      modifies stream, memo
      ensures stream.Valid() && memo.Valid()
      ensures old(memo.compiled).Keys <= memo.compiled.Keys <= old(memo.compiled).Keys + RuleTexts(env.channels)
      ensures videos' == DiscoverVideos(env, memo.compile, stream.yielded)
      ensures fetched' == DiscoverFetches(env, memo.compile, stream.yielded)
      ensures !stop ==> !stream.finished && videosSearched' == videosSearched + 1 == |stream.yielded| < Demand(videosToSearch)
      ensures stop ==> stream.yielded == Take(stream.feed, 0, Demand(videosToSearch))
                       && |stream.requests| == PagesNeeded(stream.feed, 0, Demand(videosToSearch))
    {
      ghost var before := stream.yielded;
      var post := PullPost(stream, videosToSearch, videosSearched);
      if post.None? {
        stop, videosSearched', videos', fetched' := true, videosSearched, videos, fetched;
      } else {
        videos', fetched' := ExaminePost(memo, env, post.value, before, videos, fetched);
        DemandReached(videosToSearch, videosSearched);
        videosSearched' := videosSearched + 1;
        stop := videosSearched >= videosToSearch;
      }
    }

    /** The `for await` loop pulling the next post, with what the listing then has handed out. */
    method PullPost(stream: PostStream, videosToSearch: int, videosSearched: nat) returns (post: Option<BlogPost>)
      requires videosToSearch != 0
      requires stream.Valid() && !stream.finished
      requires videosSearched == |stream.yielded| < Demand(videosToSearch)
      modifies stream
      ensures stream.Valid()
      ensures post.None? ==> stream.yielded == old(stream.yielded)
                             && stream.yielded == Take(stream.feed, 0, Demand(videosToSearch))
                             && |stream.requests| == PagesNeeded(stream.feed, 0, Demand(videosToSearch))
      ensures post.Some? ==> !stream.finished && stream.yielded == old(stream.yielded) + [post.value]
      ensures post.Some? && videosSearched + 1 == Demand(videosToSearch) ==>
                stream.yielded == Take(stream.feed, 0, Demand(videosToSearch))
                && |stream.requests| == PagesNeeded(stream.feed, 0, Demand(videosToSearch))
    {
      post := stream.Next();
      if post.None? {
        ExhaustedStaysExhausted(stream.feed, 0, videosSearched + 1, Demand(videosToSearch));
      }
    }

    /** The body of the `for await` loop: the videos of one more post are yielded. */
    method ExaminePost(memo: RuleMemo, env: Env, post: BlogPost, ghost examined: seq<BlogPost>,
                       videos: seq<Video>, fetched: seq<string>)
      returns (videos': seq<Video>, fetched': seq<string>)
      requires memo.Valid()
      requires videos == DiscoverVideos(env, memo.compile, examined)
      requires fetched == DiscoverFetches(env, memo.compile, examined)
      modifies memo
      ensures memo.Valid()
      ensures videos' == DiscoverVideos(env, memo.compile, examined + [post])
      ensures fetched' == DiscoverFetches(env, memo.compile, examined + [post])
      ensures old(memo.compiled).Keys <= memo.compiled.Keys <= old(memo.compiled).Keys + RuleTexts(env.channels)
    {
      var postVideos, postFetched := MatchChannel(memo, env, post);
      ConcatSnoc(VideosOf(env, memo.compile), examined, post);
      ConcatSnoc(FetchesOf(env, memo.compile), examined, post);
      videos' := videos + postVideos;
      fetched' := fetched + postFetched;
    }

    /** `seekAndDestroy`: the post fetched by id, converted to a listing post, then matched. */
    method SeekAndDestroy(memo: RuleMemo, settings: Settings, attachments: string -> VideoContent, now: int,
                          contentPost: ContentPost)
      returns (videos: seq<Video>, fetched: seq<string>)
      requires memo.Valid()
      modifies memo
      ensures memo.Valid()
      ensures var env := EnvOf(channels, settings, attachments, now);
        videos == PostVideos(env, memo.compile, ToBlogPost(contentPost))
        && fetched == PostFetches(env, memo.compile, ToBlogPost(contentPost))
      ensures old(memo.compiled).Keys <= memo.compiled.Keys <= old(memo.compiled).Keys + RuleTexts(channels)
    {
      var blogPost := ToBlogPost(contentPost);
      videos, fetched := MatchChannel(memo, EnvOf(channels, settings, attachments, now), blogPost);
    }
  }

  // ---------------------------------------------------------------------------------------
  // Properties of the search

  /**
   * The videos of a run of posts are those of its first part followed by those of the rest: an
   * expired attachment, which ends its own post, takes nothing away from the posts after it.
   */
  lemma DiscoverVideosSplits(env: Env, compile: string -> Rule, posts: seq<BlogPost>, k: nat)
    requires k <= |posts|
    ensures DiscoverVideos(env, compile, posts) == DiscoverVideos(env, compile, posts[..k]) + DiscoverVideos(env, compile, posts[k..])
  {
    ConcatSplits(VideosOf(env, compile), posts, k);
  }

  /**
   * The search depth: with `videosToSearch` 0 no page is requested and nothing is found;
   * otherwise at most `videosToSearch + 1` posts are examined (one when it is negative), and
   * no page is requested after an empty one.
   */
  lemma SearchDepth(feed: Feed, videosToSearch: int)
    ensures videosToSearch == 0 ==> Take(feed, 0, Demand(videosToSearch)) == [] && PagesNeeded(feed, 0, Demand(videosToSearch)) == 0
    ensures videosToSearch > 0 ==> |Take(feed, 0, Demand(videosToSearch))| <= videosToSearch + 1
    ensures videosToSearch < 0 ==> |Take(feed, 0, Demand(videosToSearch))| <= 1
    ensures forall j :: 0 <= j < PagesNeeded(feed, 0, Demand(videosToSearch)) - 1 ==> Page(feed, j) != []
  {
    forall j | 0 <= j < PagesNeeded(feed, 0, Demand(videosToSearch)) - 1 ensures Page(feed, j) != [] {
      OnlyLastPageEmpty(feed, 0, Demand(videosToSearch), j);
    }
  }

  /** Every video `seekAndDestroy` yields carries the id of one of the post's video attachments. */
  lemma SeekAndDestroyAttachments(env: Env, compile: string -> Rule, contentPost: ContentPost)
    ensures contentPost.videoAttachments.None? ==> PostVideos(env, compile, ToBlogPost(contentPost)) == []
    ensures forall v :: v in PostVideos(env, compile, ToBlogPost(contentPost)) ==>
              contentPost.videoAttachments.Some?
              && exists a :: a in contentPost.videoAttachments.value && a.id == v.attachmentId
  {
    var blogPost := ToBlogPost(contentPost);
    PostVideosAreAttachments(env, compile, blogPost);
    forall v | v in PostVideos(env, compile, blogPost)
      ensures contentPost.videoAttachments.Some?
      ensures exists a :: a in contentPost.videoAttachments.value && a.id == v.attachmentId
    {
      var ids := blogPost.videoAttachments.value;
      var k :| 0 <= k < |ids| && ids[k] == v.attachmentId;
      assert contentPost.videoAttachments.value[k] in contentPost.videoAttachments.value;
    }
  }
}
