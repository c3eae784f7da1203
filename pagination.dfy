/**
 * `PostIterable`: the creator's post listing, read page by page through the post cache.
 * Page `i` is requested at offset `20 * i`; only the first request bypasses the cache. The
 * stream ends at the first empty page. The cache is an oracle from a request to a page, and
 * the requests made are recorded, so that which pages were asked for, and when, is visible.
 */
module Pagination {
  import opened Options
  import opened Content

  const PageSize: nat := 20

  /** The listing options passed through to every request (`{ hasVideo: true }`). */
  datatype ListOptions = ListOptions(hasVideo: bool)

  /** One `PostCache.get(creatorGUID, { ...options, fetchAfter }, forceRefresh)` call. */
  datatype PageRequest = PageRequest(creatorId: string, options: ListOptions, fetchAfter: int, forceRefresh: bool)

  /** What the cache answers: the page for a request. */
  datatype Feed = Feed(source: PageRequest -> seq<BlogPost>, creatorId: string, options: ListOptions)

  /** The request for page `i`. */
  function Request(feed: Feed, i: nat): (r: PageRequest)
    ensures r.creatorId == feed.creatorId && r.options == feed.options
    ensures r.fetchAfter == PageSize * i
    ensures r.forceRefresh <==> i == 0
  {
    PageRequest(feed.creatorId, feed.options, PageSize * i, i == 0)
  }

  function Page(feed: Feed, i: nat): seq<BlogPost> {
    feed.source(Request(feed, i))
  }

  /** Pages `i` to `m - 1`, concatenated. */
  function PagesRange(feed: Feed, i: nat, m: nat): seq<BlogPost>
    decreases m - i
  {
    if m <= i then [] else Page(feed, i) + PagesRange(feed, i + 1, m)
  }

  /** The first `n` posts of the stream that starts at page `i` and stops at the first empty page. */
  function Take(feed: Feed, i: nat, n: nat): (r: seq<BlogPost>)
    ensures |r| <= n
    ensures r == [] <==> n == 0 || Page(feed, i) == []
    decreases n
  {
    if n == 0 then []
    else
      var page := Page(feed, i);
      if page == [] then []
      else if |page| >= n then page[..n]
      else page + Take(feed, i + 1, n - |page|)
  }

  /** How many requests the stream has made once a reader has pulled `n` posts from page `i` on. */
  function PagesNeeded(feed: Feed, i: nat, n: nat): (r: nat)
    ensures r <= n
    ensures r == 0 <==> n == 0
    decreases n
  {
    if n == 0 then 0
    else
      var page := Page(feed, i);
      if page == [] || |page| >= n then 1
      else 1 + PagesNeeded(feed, i + 1, n - |page|)
  }

  // ---------------------------------------------------------------------------------------
  // Properties of the stream

  /** The pulled posts are the concatenation of the pages, while they are within the last page fetched. */
  lemma {:induction false} TakeWithinPages(feed: Feed, i: nat, m: nat, n: nat)
    requires i < m
    requires forall j :: i <= j < m - 1 ==> Page(feed, j) != []
    requires |PagesRange(feed, i, m - 1)| < n <= |PagesRange(feed, i, m)|
    ensures Take(feed, i, n) == PagesRange(feed, i, m)[..n]
    ensures PagesNeeded(feed, i, n) == m - i
    decreases m - i
  {
    var page := Page(feed, i);
    if i == m - 1 {
      assert PagesRange(feed, i, m) == page + [];
      assert PagesRange(feed, i, m - 1) == [];
    } else {
      assert PagesRange(feed, i, m) == page + PagesRange(feed, i + 1, m);
      assert PagesRange(feed, i, m - 1) == page + PagesRange(feed, i + 1, m - 1);
      TakeWithinPages(feed, i + 1, m, n - |page|);
      assert (page + PagesRange(feed, i + 1, m))[..n] == page + PagesRange(feed, i + 1, m)[..n - |page|];
    }
  }

  /** Once page `m - 1` comes back empty, pulling more yields all earlier pages and asks nothing more. */
  lemma {:induction false} TakeExhausted(feed: Feed, i: nat, m: nat, n: nat)
    requires i < m
    requires forall j :: i <= j < m - 1 ==> Page(feed, j) != []
    requires Page(feed, m - 1) == []
    requires |PagesRange(feed, i, m)| < n
    ensures Take(feed, i, n) == PagesRange(feed, i, m)
    ensures PagesNeeded(feed, i, n) == m - i
    decreases m - i
  {
    var page := Page(feed, i);
    if i == m - 1 {
      assert PagesRange(feed, i, m) == page + [];
    } else {
      assert PagesRange(feed, i, m) == page + PagesRange(feed, i + 1, m);
      TakeExhausted(feed, i + 1, m, n - |page|);
    }
  }

  /** A stream that ran dry stays dry: asking for more posts changes neither the posts nor the requests. */
  lemma {:induction false} ExhaustedStaysExhausted(feed: Feed, i: nat, n: nat, n': nat)
    requires |Take(feed, i, n)| < n <= n'
    ensures Take(feed, i, n') == Take(feed, i, n)
    ensures PagesNeeded(feed, i, n') == PagesNeeded(feed, i, n)
    decreases n
  {
    var page := Page(feed, i);
    if page != [] {
      ExhaustedStaysExhausted(feed, i + 1, n - |page|, n' - |page|);
    }
  }

  /** No page after an empty one is requested: every page but the last one asked for was non-empty. */
  lemma {:induction false} OnlyLastPageEmpty(feed: Feed, i: nat, n: nat, j: nat)
    requires i <= j < i + PagesNeeded(feed, i, n) - 1
    ensures Page(feed, j) != []
    decreases n
  {
    if j > i {
      OnlyLastPageEmpty(feed, i + 1, n - |Page(feed, i)|, j);
    }
  }

  // ---------------------------------------------------------------------------------------

  /**
   * The running `PostIterable` generator. `pending` is what is left of the current page,
   * `requests` the cache calls made so far, `yielded` (ghost) the posts handed out so far.
   */
  class PostStream {
    const feed: Feed
    var fetchAfter: int
    var pending: seq<BlogPost>
    var finished: bool
    var requests: seq<PageRequest>
    ghost var yielded: seq<BlogPost>

    ghost predicate Valid()
      reads this
    {
      var m := |requests|;
      (forall i :: 0 <= i < m ==> requests[i] == Request(feed, i))
      && fetchAfter == (if m == 0 then 0 else PageSize * (m - 1))
      && (forall j :: 0 <= j < m - 1 ==> Page(feed, j) != [])
      && (finished <==> m > 0 && Page(feed, m - 1) == [])
      && (finished ==> pending == [])
      && (m == 0 ==> pending == [])
      && yielded + pending == PagesRange(feed, 0, m)
      && (m > 0 && !finished ==> |pending| < |Page(feed, m - 1)|)
    }

    constructor(feed: Feed)
      ensures Valid()
      ensures this.feed == feed && requests == [] && yielded == [] && !finished
    {
      this.feed := feed;
      fetchAfter := 0;
      pending := [];
      finished := false;
      requests := [];
      yielded := [];
    }

    /** What a valid stream has handed out is the start of the paged stream. */
    lemma Position()
      requires Valid()
      ensures yielded == Take(feed, 0, |yielded|)
      ensures !finished ==> |requests| == PagesNeeded(feed, 0, |yielded|)
      ensures finished ==> Take(feed, 0, |yielded| + 1) == yielded
      ensures finished ==> |requests| == PagesNeeded(feed, 0, |yielded| + 1)
    {
      var m := |requests|;
      if m > 0 {
        PagesRangeSnoc(feed, 0, m - 1);
        if finished {
          TakeExhausted(feed, 0, m, |yielded| + 1);
          assert yielded == yielded + pending == PagesRange(feed, 0, m);
          assert PagesRange(feed, 0, m - 1) == PagesRange(feed, 0, m - 1) + Page(feed, m - 1) == PagesRange(feed, 0, m);
          if m > 1 {
            PagesRangeSnoc(feed, 0, m - 2);
            TakeWithinPages(feed, 0, m - 1, |yielded|);
            assert PagesRange(feed, 0, m - 1)[..|yielded|] == yielded;
          }
        } else {
          TakeWithinPages(feed, 0, m, |yielded|);
        }
      }
    }

    /** `next()` on the generator: the next post, fetching one more page only when the current one is used up. */
    method Next() returns (post: Option<BlogPost>)
      requires Valid()
      modifies this
      ensures Valid()
      ensures post.Some? ==> !finished && yielded == old(yielded) + [post.value]
      ensures post.Some? ==> yielded == Take(feed, 0, |yielded|) && |requests| == PagesNeeded(feed, 0, |yielded|)
      ensures post.None? ==> finished && yielded == old(yielded)
      ensures post.None? ==> Take(feed, 0, |yielded| + 1) == yielded && |requests| == PagesNeeded(feed, 0, |yielded| + 1)
      ensures old(finished) ==> post.None? && requests == old(requests)
      ensures requests == old(requests) || (old(pending) == [] && |requests| == |old(requests)| + 1)
    {
      if finished {
        Position();
        return None;
      }
      if pending == [] {
        post := FetchNextPage();
      } else {
        post := Some(pending[0]);
        yielded := yielded + [pending[0]];
        pending := pending[1..];
      }
      Position();
    }

    /**
     * One `PostCache.get` call, the first forced at offset 0 and each later one 20 further on,
     * then the first post of the new page, or the end of the stream if it is empty.
     */
    method FetchNextPage() returns (post: Option<BlogPost>)
      requires Valid() && pending == [] && !finished
      modifies this
      ensures Valid()
      ensures requests == old(requests) + [Request(feed, |old(requests)|)]
      ensures post.Some? ==> !finished && yielded == old(yielded) + [post.value]
      ensures post.None? ==> finished && yielded == old(yielded)
    {
      var request;
      if requests == [] {
        request := PageRequest(feed.creatorId, feed.options, fetchAfter, true);
      } else {
        fetchAfter := fetchAfter + PageSize;
        request := PageRequest(feed.creatorId, feed.options, fetchAfter, false);
      }
      var page := feed.source(request);
      PagesRangeSnoc(feed, 0, |requests|);
      requests := requests + [request];
      if page == [] {
        finished := true;
        post := None;
      } else {
        post := Some(page[0]);
        yielded := yielded + [page[0]];
        pending := page[1..];
      }
    }
  }

  lemma {:induction false} PagesRangeSnoc(feed: Feed, i: nat, m: nat)
    requires i <= m
    ensures PagesRange(feed, i, m + 1) == PagesRange(feed, i, m) + Page(feed, m)
    decreases m - i
  {
    if i < m {
      PagesRangeSnoc(feed, i + 1, m);
    }
  }
}
