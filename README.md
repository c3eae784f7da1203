# Floatplane subscription core, modelled in Dafny

This project models the subscription logic of the Floatplane downloader
(`src/lib/Subscription.ts`). A subscription is a creator, its list of channels and a plan name.
The logic covers four jobs:

- **Finding new videos.** `fetchNewVideos` reads the creator's post listing page by page through
  the post cache (`PostIterable`). Each post goes to `matchChannel`. The search stops after
  `videosToSearch + 1` posts.
- **Matching.** `matchChannel` visits a post's video attachments in `attachmentOrder` order.
  - For a post with several attachments, each attachment is fetched from the attachment cache.
    Its title is merged with the post title (`removeRepeatedSentences`), and its release date is
    pushed one second further on per attachment.
  - The channel list is then scanned. The first channel whose `isChannel` rule accepts decides.
    A `skip` channel drops the attachment. An expired retention window ends the whole post.
    Otherwise one video is produced, and its title is cleaned when `stripSubchannelPrefix` is
    on.
- **Matching one post by id.** `seekAndDestroy` converts a post fetched by id and matches it.
- **Deleting old videos.** `deleteOldVideos` removes the files of stored videos older than each
  channel's retention window.

Modules, one per file:

| file | module | what it holds |
|---|---|---|
| `strings.dfy` | `Strings` | JavaScript whitespace and `trim` |
| `titles.dfy` | `Titles` | `removeRepeatedSentences`, including a step-by-step model of its global regular expression |
| `prefixes.dfy` | `Prefixes` | the `stripSubchannelPrefix` title clean-up |
| `content.dfy` | `Content` | posts, attachments, channels, videos; the conversion `seekAndDestroy` makes |
| `retention.dfy` | `Retention` | `getIgnoreBeforeTimestamp` and `deleteOldVideos` |
| `rules.dfy` | `Rules` | the `isChannelCache` memo (class `RuleMemo`) and the channel scan |
| `ordering.dfy` | `Ordering` | the attachment sort |
| `pagination.dfy` | `Pagination` | the `PostIterable` generator (class `PostStream`) and the paged stream it reads |
| `matching.dfy` | `Matching` | `matchChannel` |
| `subscription.dfy` | `Subscriptions` | class `Subscription`: `fetchNewVideos` and `seekAndDestroy` |

Inputs `Subscription.ts` reads from the environment are parameters of the model:

- the settings `videosToSearch` and `stripSubchannelPrefix`
- the current time
- the post cache and attachment cache, as functions from request to answer
- the rule compiler (`new Function`), as a function from rule text to predicate
- the video store and the file system, for `deleteOldVideos`

The TypeScript generators become methods that return, in order, everything the generator would
yield. They also return the cache requests made, so which pages and attachments were asked for
is part of each contract. Each method is proved equal to a specification function:

- `Take` and `PagesNeeded` for the listing
- `PostVideos` and `PostFetches` for one post
- `DiscoverVideos` and `DiscoverFetches` for a whole search

The lemmas state the properties of those functions.

### Behaviour of the code worth knowing

The model follows `Subscription.ts` in each of these points.

- The sentence separators are `.,;:!?-`. The comma is one of them.
- The regular expression's group `(...)+` is greedy, so a title yields at most one "sentence".
  That sentence runs to the last separator run that is followed by whitespace or the end
  (`Titles.AtMostOneSentence`).
- An attachment title without any separator has no sentences, so the merge takes the fallback
  `postTitle - attachmentTitle`.
- In a post with `k > 1` attachments, release offsets start at one second: attachment `i` is
  dated `(i + 1) * 1000` ms after the post. With a single attachment the offset is 0.
- An expired retention window ends only the current post. `fetchNewVideos` goes on with the
  next post.
- `fetchNewVideos` examines up to `videosToSearch + 1` posts, because the check is
  `videosSearched++ >= videosToSearch`. A negative value examines one post; 0 examines none and
  requests nothing.
- `deleteOldVideos` selects stored videos whose `videoTitle`, not `channelTitle`, equals the
  channel title.

## Model

| member | source | states |
|---|---|---|
| Strings.Trim | src/lib/Subscription.ts:18-19 | `trim` is `trimStart` then `trimEnd`: exactly the leading and the trailing whitespace runs go, the result has no whitespace at either end, and a trimmed string is unchanged |
| Titles.PairsEnd | src/lib/Subscription.ts:17 | the greedy sentence group, when it matches, ends just after a separator that is followed by whitespace or the end |
| Titles.MatchAt | src/lib/Subscription.ts:17 | one attempt of the whole expression at a position ends at such a boundary, past the position |
| Titles.MatchesFrom | src/lib/Subscription.ts:17-18 | the `g` flag: each match ends after the trailing whitespace and the next attempt starts there; positions with no match are skipped one by one |
| Titles.Sentences | src/lib/Subscription.ts:18-19 | `match(...)?.map(trim)`: no match gives `undefined`, otherwise the trimmed matches in order |
| Titles.PairsEndIsLast | src/lib/Subscription.ts:17 | the greedy group stops at the last boundary after its start, and finds none when there is none |
| Titles.MatchAtIsLast | src/lib/Subscription.ts:17 | a match never stops short of the last boundary of the title |
| Titles.FirstMatch | src/lib/Subscription.ts:18 | the first element of `match` is the text from the first position where an attempt succeeds (no earlier position matches) up to the following whitespace |
| Titles.AtMostOneSentence | src/lib/Subscription.ts:17-19 | a title yields no sentence or exactly one |
| Titles.NoSeparatorNoSentence | src/lib/Subscription.ts:17-19 | a title without any of `.,;:!?-` yields no sentence |
| Titles.SentenceShape | src/lib/Subscription.ts:17-19 | the sentence a title yields is non-empty, trimmed, and ends with a separator |
| Titles.UniqueSentences | src/lib/Subscription.ts:21 | keeps exactly the attachment sentences that are not post sentences, and all of them when the post title has none |
| Titles.DropTrailingRun | src/lib/Subscription.ts:26 | the cut keeps a prefix of the title and never lengthens it |
| Titles.DropTrailingRunIsLeftmostMatch | src/lib/Subscription.ts:26 | exactly the leftmost suffix of the shape `[\s]*[.,;:!?-]+[\s]*` is cut, and nothing when there is none |
| Titles.Merge | src/lib/Subscription.ts:16-27 | `removeRepeatedSentences`: the fallback when the attachment title yields no match, otherwise the trimmed post title, " - " and the joined unique sentences, trimmed, with the trailing run cut |
| Titles.MergeIsTrimmed | src/lib/Subscription.ts:23-26 | every merged title has no leading or trailing whitespace |
| Titles.FallbackWithoutSeparators | src/lib/Subscription.ts:23 | an attachment title without separators gives `trim(trim(post) + " - " + trim(attachment))`, for every post title |
| Titles.RepeatedAttachmentCollapses | src/lib/Subscription.ts:21-26 | when every attachment sentence repeats a post sentence, the merged title is the trimmed post title |
| Prefixes.EscapeRegExp | src/lib/Subscription.ts:116 | the escaped source is at least as long as the title and at most twice as long: at most one backslash is added per character |
| Prefixes.EscapedTitleIsLiteral | src/lib/Subscription.ts:116 | the escaped channel title, read as a pattern, stands for exactly the channel title |
| Prefixes.EscapedTitleIsEscaped | src/lib/Subscription.ts:116 | in the escaped channel title every special character, backslash included, is preceded by an escaping backslash, so none stays active |
| Prefixes.ReplacersEscaped | src/lib/Subscription.ts:115-128 | every pattern of the `replacers` list, the escaped title and the eleven fixed ones, has no active special character |
| Prefixes.FirstOccurrence | src/lib/Subscription.ts:130 | finds the leftmost case-insensitive occurrence, or reports that there is none |
| Prefixes.RemoveFirst | src/lib/Subscription.ts:130 | a non-global, case-insensitive `replace(pattern, "")` never lengthens the title |
| Prefixes.RemoveFirstIsLeftmost | src/lib/Subscription.ts:129-131 | a title without the pattern is unchanged; otherwise exactly the leftmost occurrence is cut out |
| Prefixes.CollapseDoubleSpaces | src/lib/Subscription.ts:133 | `replaceAll("  ", " ")` on its own: never lengthens, and leaves a title without double spaces unchanged |
| Prefixes.CollapseFirstDoubleSpace | src/lib/Subscription.ts:133 | the scan is left to right and non-overlapping: the text before the first double space is kept, that double space becomes one space, and the scan resumes after it |
| Prefixes.DropLeadingColon | src/lib/Subscription.ts:134 | dropping a leading ": " never lengthens the title |
| Prefixes.StrippedTitle | src/lib/Subscription.ts:114-136 | the clean-up as one function: each replacer removes its first match in list order, then the double spaces are collapsed, a leading ": " is dropped and the result is trimmed |
| Prefixes.StripSubchannelPrefix | src/lib/Subscription.ts:114-137 | the loop over the replacers computes `StrippedTitle`; the result is trimmed and no longer than the input |
| Content.AttachmentIds | src/lib/Subscription.ts:169-171 | an absent list stays absent; otherwise the ids, one per attachment, in order |
| Content.ToBlogPost | src/lib/Subscription.ts:167-183 | the converted post keeps the id, title, text, channel, date, order and thumbnail; each of the video, audio and picture lists becomes its list of ids, and an absent list stays absent |
| Retention.IgnoreBeforeTimestamp | src/lib/Subscription.ts:85 | the cutoff is `now` without a window, and not after `now` with a non-negative window |
| Retention.Expired | src/lib/Subscription.ts:111 | the early-return test: the channel has `daysToKeepVideos` and the post was released before the cutoff |
| Retention.ExpiredIffOlderThanWindow | src/lib/Subscription.ts:111 | a release is expired exactly when it lies more than `days * 86400000` ms before `now` |
| Retention.Candidates | src/lib/Subscription.ts:67 | exactly the stored videos released before the cutoff whose `videoTitle` is the channel title |
| Retention.TargetFilesAreVideoFiles | src/lib/Subscription.ts:69-74 | the paths targeted are exactly the selected videos' paths with the four extensions |
| Retention.RemoveVideoFiles | src/lib/Subscription.ts:69-76 | the four `rm` calls remove the existing paths among the targets and count one success per removed file |
| Retention.RemoveAllVideoFiles | src/lib/Subscription.ts:67-78 | one channel's loop counts every selected video and every removed file |
| Retention.Retained | src/lib/Subscription.ts:58-59 | exactly the channels with `daysToKeepVideos` set are processed |
| Retention.DeleteChannelVideos | src/lib/Subscription.ts:59-80 | one channel removes its candidates' files; its report names the channel, counts its candidates and the removed files |
| Retention.DeleteOldVideos | src/lib/Subscription.ts:57-83 | every channel with a window, in order, removes its targets; one report per such channel; the file counts add up to the files removed |
| Rules.RuleMemo.constructor | src/lib/Subscription.ts:86 | the memo starts empty |
| Rules.RuleMemo.Get | src/lib/Subscription.ts:105-107 | the answer is the compiled rule; a text is compiled only on its first lookup and no entry is ever replaced |
| Rules.FirstMatch | src/lib/Subscription.ts:103-110 | the index of the first channel with a rule that accepts, or none when no channel accepts |
| Rules.FirstMatchAt | src/lib/Subscription.ts:103-110 | any accepting channel with no accepting channel before it is the one found |
| Rules.RuleTextsAreRules | src/lib/Subscription.ts:104-107 | the rule texts of a channel list are exactly those of its channels that carry a rule |
| Rules.RuleTextsOfPrefix | src/lib/Subscription.ts:103-107 | scanning part of the list compiles no rule the list does not carry |
| Rules.FindChannel | src/lib/Subscription.ts:103-110 | the loop returns the first accepting channel; the memo gains exactly the rule texts of the channels scanned |
| Rules.ConsultChannel | src/lib/Subscription.ts:104-109 | a channel without a rule is passed over; otherwise the memoised rule decides, and the memo gains that text |
| Ordering.IndexOfIsFirst | src/lib/Subscription.ts:92 | `indexOf` finds the first occurrence, and is -1 exactly for an id not listed |
| Ordering.IndexOf | src/lib/Subscription.ts:92 | `indexOf` over the attachment order, -1 for an id not listed |
| Ordering.SortByOrder | src/lib/Subscription.ts:92 | the in-place sort with comparator `indexOf(a) - indexOf(b)`, as a stable insertion sort |
| Ordering.SortByOrderSorts | src/lib/Subscription.ts:92 | the visiting order is sorted by `attachmentOrder` index and is a permutation of the attachments |
| Ordering.SortByOrderIsStable | src/lib/Subscription.ts:92 | ids with the same index keep their relative order |
| Ordering.SortByOrderLength | src/lib/Subscription.ts:92 | sorting keeps the number of attachments |
| Pagination.Request | src/lib/Subscription.ts:40-47 | page `i` is requested at offset `20 * i`, with force set for the first request only |
| Pagination.Take | src/lib/Subscription.ts:39-49 | at most `n` posts, and none exactly when `n` is 0 or the first page is empty |
| Pagination.PagesNeeded | src/lib/Subscription.ts:39-49 | at most one request per post pulled, and none exactly when no post is pulled |
| Pagination.TakeWithinPages | src/lib/Subscription.ts:43-47 | the posts pulled are the concatenation of the pages fetched, cut at `n` |
| Pagination.TakeExhausted | src/lib/Subscription.ts:43 | after an empty page, the stream is all earlier pages and no further request is made |
| Pagination.ExhaustedStaysExhausted | src/lib/Subscription.ts:43 | a stream that ran dry stays dry: pulling more changes neither the posts nor the requests |
| Pagination.OnlyLastPageEmpty | src/lib/Subscription.ts:43-47 | every page requested, except the last, was non-empty: nothing is requested after an empty page |
| Pagination.PostStream.constructor | src/lib/Subscription.ts:39-40 | a new generator has made no request and yielded nothing |
| Pagination.PostStream.Position | src/lib/Subscription.ts:39-49 | what a generator has yielded is the start of the paged stream, with the matching number of requests |
| Pagination.PostStream.Next | src/lib/Subscription.ts:43-47 | the next post of the stream, or the end; a page is requested only when the current one is used up |
| Pagination.PostStream.FetchNextPage | src/lib/Subscription.ts:42-47 | exactly one more request, the next in the sequence, and its first post or the end |
| Matching.SortedPostVisitsInOrder | src/lib/Subscription.ts:92 | attachments are visited in `attachmentOrder` order, as a permutation, and nothing else of the post changes |
| Matching.ReleaseAt | src/lib/Subscription.ts:144 | the release date of the attachment at sorted position `i`: the post date plus `(i + 1) * 1000` ms when the post has several, the post date otherwise |
| Matching.Decision | src/lib/Subscription.ts:103-146 | the outcome once the channel scan has found a channel: none found gives no video, `skip` drops, an expired window ends the post, otherwise one video for that channel |
| Matching.PostVideos | src/lib/Subscription.ts:89-149 | all videos of a post: none without video attachments, otherwise the emitted videos of the sorted attachments before the first expired one |
| Matching.UnmatchedIffNoChannelSelects | src/lib/Subscription.ts:103-109 | an attachment is unmatched exactly when no channel accepts it; no channel with a rule is passed over |
| Matching.FirstSelectingChannelDecides | src/lib/Subscription.ts:103-146 | the first accepting channel decides: skip drops, an expired window ends, otherwise one video with the attachment id, post text, thumbnail, channel title, title and date |
| Matching.EmitComesFromChannel | src/lib/Subscription.ts:138-145 | every video carries the attachment id, post text, thumbnail and date, and the title of a channel with a rule and no `skip` |
| Matching.EmittedTitle | src/lib/Subscription.ts:95-100 | the title is the post title for a single attachment and the merged title otherwise; with stripping on it is trimmed and no longer |
| Matching.DecideChannel | src/lib/Subscription.ts:103-147 | the channel loop computes the attachment's outcome and compiles only rules of the channel list |
| Matching.VisitAttachment | src/lib/Subscription.ts:93-147 | one attachment: the offset and fetch log advance when the post has several, the outcome's video is appended, and an expired outcome is the stop |
| Matching.VisitAttachments | src/lib/Subscription.ts:92-148 | the attachment loop yields the videos before the first expired attachment and fetches the visited attachments |
| Matching.MatchChannel | src/lib/Subscription.ts:89-149 | `matchChannel` yields `PostVideos` and fetches `PostFetches`; nothing for a post without video attachments |
| Matching.ItemsFromPositions | src/lib/Subscription.ts:138-146 | at most one video per position, each emitted at some position |
| Matching.ItemsInReleaseOrder | src/lib/Subscription.ts:144 | with dates `base + (j + 1) * 1000`, videos come out strictly in date order within the post's span |
| Matching.ItemsSameDate | src/lib/Subscription.ts:144 | with a zero offset every video has the post's date |
| Matching.VideosBeforeStop | src/lib/Subscription.ts:111 | the outcomes that produce videos are those before the first expired attachment |
| Matching.PostVideosAreAttachments | src/lib/Subscription.ts:89-149 | at most one video per video attachment, each with one of the post's attachment ids, the post text and thumbnail, and a non-skip channel's title |
| Matching.PostVideosReleaseDates | src/lib/Subscription.ts:91-144 | single attachment: the post's date; `k > 1`: strictly increasing, within `k` seconds after the post |
| Matching.ExpiredEndsPost | src/lib/Subscription.ts:111 | an expired attachment ends the post: no video from it or later, no fetch after it |
| Matching.FetchesAreVisited | src/lib/Subscription.ts:97-99 | no fetch for a single attachment; otherwise a prefix of the visiting order, all of it when none expires |
| Subscriptions.ConcatSplits | src/lib/Subscription.ts:155-158 | the output of a run of posts is that of its first part followed by that of the rest |
| Subscriptions.DiscoverVideosSplits | src/lib/Subscription.ts:155-158 | the videos of a run of posts split at any post; an expired window takes nothing from later posts |
| Subscriptions.Demand | src/lib/Subscription.ts:152-161 | the number of posts the search takes from a long listing: 0 for `videosToSearch` 0, 1 when negative, `videosToSearch + 1` otherwise |
| Subscriptions.SearchDepth | src/lib/Subscription.ts:152-161 | `videosToSearch` 0: no post and no request; positive: at most `videosToSearch + 1` posts; negative: at most one; no request after an empty page |
| Subscriptions.Subscription.constructor | src/lib/Subscription.ts:51-55 | the subscription keeps the creator id, the channels and the plan |
| Subscriptions.Subscription.ExaminePost | src/lib/Subscription.ts:156-158 | the videos of one more post are appended to the search's output |
| Subscriptions.Subscription.SearchStep | src/lib/Subscription.ts:155-162 | one turn of the search loop: the next post is matched, and the search ends when the listing runs out or the counter check fires |
| Subscriptions.Subscription.FetchNewVideos | src/lib/Subscription.ts:151-163 | the videos and attachment fetches of the first `Demand(videosToSearch)` posts of the listing, the page requests that takes, each one the expected request |
| Subscriptions.Subscription.SeekAndDestroy | src/lib/Subscription.ts:165-185 | the converted post is matched: its `PostVideos` and `PostFetches` |
| Subscriptions.SeekAndDestroyAttachments | src/lib/Subscription.ts:167-184 | every video `seekAndDestroy` yields carries the id of one of the post's video attachments |

## Left out

- `src/float.ts` (the caller that drives the subscriptions) is not part of this model.
- Cache expiry of `ItemCache` is not modelled. Each cache is a fixed function from request to
  answer, and the requests made, including the force flag, are recorded.
- A failed cache read is not modelled. A rejected `PostCache.get` or `AttachmentsCache.get`
  propagates out of the generator and ends `fetchNewVideos` or `seekAndDestroy` after the videos
  already yielded; in the model every read succeeds, so that early end is not captured.
- `new Function` rule compilation is an opaque `compile` function. A rule that fails to
  compile or throws is not modelled. The `isChannelHelper` prelude is part of what `compile`
  stands for.
- Console and `chalk` output are left out. So are `process.stdout.write` and the log lines of
  `deleteOldVideos`, apart from the counts they report.
- `rm` is modelled as "succeeds exactly when the path exists". Other failure causes, such as
  permissions, are not modelled.
- `Promise.allSettled` runs the four `rm` calls concurrently; the model runs them in sequence.
  Since they touch four distinct paths, the outcome is the same.
- Async generators become methods that return the whole output in order. The model keeps the
  order of page requests relative to the posts. It does not model a consumer that stops pulling
  in the middle of a post's videos.
- `Video.getOrCreate` de-duplication and the `Video` object it returns are left out. The model
  yields the record of arguments passed to it.
- `now` is read once per call of each modelled operation. `Subscription.ts` reads `Date.now()`
  once per channel in `deleteOldVideos`, and in `matchChannel` once per attachment whose deciding
  channel has `daysToKeepVideos`. Those reads are separated by awaited page and attachment
  fetches, so the cutoff moves forward during one search. The model does not capture an
  attachment that crosses the cutoff while the search is running.
- Rules see only the fields the model's `BlogPost` carries: id, title, text, channel,
  release date, attachment order, the three attachment lists and the thumbnail. A rule that
  reads `creator` or any other field of the post is not modelled, and so neither is the
  `creator` reshaping (owner, category, card) that `seekAndDestroy` builds for such rules.
- `Date` arithmetic on JavaScript numbers is modelled on unbounded integers. Millisecond
  timestamps are far inside the exactly representable range.
- `videosToSearch` and `daysToKeepVideos` are JavaScript numbers but are modelled as integers.
  A fractional `videosToSearch` such as 2.5 lets the counter check pass one more time (4 posts),
  and a fractional `daysToKeepVideos` gives a cutoff that is not a whole number of days; neither
  is captured.
- Case-insensitive matching folds ASCII letters only.
- `Array.prototype.sort` is modelled as a stable insertion sort. The language requires the sort
  to be stable, so the resulting order is the same.
- Matching.DecideChannel: the title merge is computed after the channel scan has found a
  channel, not before it. The merge is pure, so the videos are the same.
