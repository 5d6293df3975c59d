# Tweet feed and likes

A model of the core of a small Twitter-like web application. It has two parts.

- The server's tweet router. `infiniteFeed` is a public query returning one page of tweets. It works by keyset pagination over `(createdAt desc, id desc)` with an inclusive `{id, createdAt}` cursor. It fetches `limit + 1` rows and turns the extra row into the next cursor. Each tweet is enriched with its like count and whether the viewer liked it. `create` and `toggleLike` are protected mutations: the first appends a tweet by the caller, the second flips the caller's like of a tweet.
- The client's like handling. After a successful toggle, the `updateData` projection rewrites the toggled tweet in three cached infinite feeds (the home feed, the following feed and the author's profile feed) instead of refetching them. The heart button starts the toggle only when the viewer is signed in and no toggle is in flight.

Layout:

- `wrappers.dfy`: `Option` and `Result`.
- `feed_order.dfy`: cursor keys and the feed order. Ids compare lexicographically. The order is proved strict and total.
- `storage.dfy`: rows, likes and follows, plus the database's `findMany` for the feed. It is stated as filter, sort into feed order, drop the rows before the cursor, then take.
- `tweet_router.dfy`: the three procedures. The class `Database` holds the tables the mutations update in place. It comes with the pagination theorems and the toggle's effect on like counts.
- `infinite_tweet_list.dfy`: the cached feeds (class `QueryCache`), the `updateData` projection, the `onSuccess` handler, the heart button and a tweet card's mutation state (class `TweetCard`). It also proves that the projection matches what a refetch would return.

Four points where the code behaves in a way a reader might not expect:

- `nextCursor` is the key of the popped `limit + 1`-th row. That is the first tweet not returned, not the last tweet on the page. Because the cursor is inclusive, this still gives gap-free, repeat-free pages (`PageContinues`, `PagesCoverFeed`).
- `onlyFollowing: true` without a signed-in viewer gives the unfiltered feed. It does not give an empty one.
- `userId: ""` is falsy, so it places no author filter.
- Without a session, the code as written reports a tweet as liked by the viewer as soon as anyone liked it (see "## Findings"). The page model (`Enrich`, `EnrichAll`, `FeedPageOf`, `Database.InfiniteFeed`) uses the corrected reading, in which an anonymous viewer has liked nothing. The as-written reading is `LikedByMeAsWritten`.

## Model

| member | source | states |
|---|---|---|
| FeedOrder.IdBelowTotal | src/server/api/routers/tweet.ts:24 | two distinct ids are ordered one way or the other, so `id desc` breaks every tie |
| FeedOrder.IdBelowTransitive | src/server/api/routers/tweet.ts:24 | the id order is transitive |
| FeedOrder.IdBelowIrreflexive | src/server/api/routers/tweet.ts:24 | no id comes before itself |
| FeedOrder.BeforeTotal | src/server/api/routers/tweet.ts:24 | `(createdAt desc, id desc)` orders any two distinct keys |
| FeedOrder.BeforeTransitive | src/server/api/routers/tweet.ts:24 | the feed order is transitive |
| FeedOrder.BeforeIrreflexive | src/server/api/routers/tweet.ts:24 | no key comes before itself |
| FeedOrder.BeforeAsymmetric | src/server/api/routers/tweet.ts:24 | two keys are never each before the other |
| Storage.SameIdSameRow | src/server/api/routers/tweet.ts:24 | tweet ids are a key: two rows with one id are the same row |
| Storage.Filter | src/server/api/routers/tweet.ts:25-32 | a row is selected exactly when it is stored and matches the `where` clause |
| Storage.FilterUnique | src/server/api/routers/tweet.ts:25-32 | filtering keeps ids distinct |
| Storage.Insert | src/server/api/routers/tweet.ts:24 | inserting into the ordered list keeps exactly the same rows plus the new one |
| Storage.InsertSorted | src/server/api/routers/tweet.ts:24 | inserting a row with a new id into a list in feed order keeps it in feed order |
| Storage.SortFeed | src/server/api/routers/tweet.ts:24 | `orderBy` returns a permutation of the filtered rows |
| Storage.SortFeedMembers | src/server/api/routers/tweet.ts:24 | `orderBy` keeps exactly the rows it was given |
| Storage.SortFeedSorted | src/server/api/routers/tweet.ts:24 | with distinct ids, the rows come out strictly in feed order |
| Storage.OrderedRowsSorted | src/server/api/routers/tweet.ts:24-32 | the filtered, ordered rows are strictly in feed order |
| Storage.DropBeforeAt | src/server/api/routers/tweet.ts:23 | the cursor is inclusive: a row's key as cursor starts the result at that row |
| Storage.DropBeforeMembers | src/server/api/routers/tweet.ts:23 | from a cursor on, a row is kept exactly when it does not come before the cursor |
| Storage.DropBeforeNext | src/server/api/routers/tweet.ts:23 | resuming at the key of the k-th remaining row skips exactly the first k |
| Storage.DropBeforeSorted | src/server/api/routers/tweet.ts:23 | the rows from a cursor on stay in feed order |
| Storage.SortedUnique | src/server/api/routers/tweet.ts:24 | two strictly ordered lists with the same rows are equal: the order fixes the result |
| Storage.DropBefore | src/server/api/routers/tweet.ts:23 | the rows from a cursor on are a suffix of the ordered rows |
| Storage.FindMany | src/server/api/routers/tweet.ts:21-24 | at most `take` rows; a prefix of the ordered rows from the cursor on; all of them when fewer than `take` come back |
| TweetRouter.WhereOf | src/server/api/routers/tweet.ts:25-32 | an author filter exactly when a non-empty `userId` is given; a following filter on the viewer exactly when there is no author filter, a viewer exists and `onlyFollowing` is true; otherwise none |
| TweetRouter.FeedRowsMembers | src/server/api/routers/tweet.ts:25-32 | the author's tweets when a non-empty `userId` is given; else the followed authors' for a signed-in viewer asking `onlyFollowing`; else every tweet |
| TweetRouter.LikedByMe | src/server/api/routers/tweet.ts:38 | corrected `likedByMe`: false without a viewer, else whether the viewer's like exists |
| TweetRouter.LikedByMeAsWritten | src/server/api/routers/tweet.ts:38 | as written: without a viewer, true exactly when the tweet has any like; with one, true exactly when the viewer's like exists |
| TweetRouter.AnonymousLikedByMeAsWritten | src/server/api/routers/tweet.ts:38 | as written, an anonymous viewer's `likedByMe` holds exactly when the tweet has any like |
| TweetRouter.AnonymousLikedByMeCounterexample | src/server/api/routers/tweet.ts:38 | one like by "alice" makes the tweet liked by an anonymous viewer as written, but not as intended |
| TweetRouter.SignedInLikedByMeAgrees | src/server/api/routers/tweet.ts:63 | with a session, the written and the intended `likedByMe` agree |
| TweetRouter.Enrich | src/server/api/routers/tweet.ts:56-64 | a page tweet keeps the row's key, content and author; its count is the number of the tweet's likes; `likedByMe` is false without a viewer and else whether the viewer's like exists |
| TweetRouter.EnrichAll | src/server/api/routers/tweet.ts:56-65 | the page tweets are the rows in order, each with its like count and the viewer's like |
| TweetRouter.EnrichAllSplit | src/server/api/routers/tweet.ts:56-65 | enrichment of rows splits over concatenation |
| TweetRouter.FeedPageOf | src/server/api/routers/tweet.ts:18-67 | at most `limit` (default 7) tweets; `nextCursor` exactly when more than `limit` rows remain, and then the key of the first row not returned |
| TweetRouter.PageOfFetched | src/server/api/routers/tweet.ts:45-53 | the page is the fetched rows enriched; with one row more than `limit`, that last row is popped off and becomes the cursor |
| TweetRouter.PageIsWindow | src/server/api/routers/tweet.ts:45-65 | the page is the first `limit` remaining rows from the cursor, enriched |
| TweetRouter.PageTweetRow | src/server/api/routers/tweet.ts:56-65 | every tweet on a page is a row the view ranges over, enriched |
| TweetRouter.PageOrdered | src/server/api/routers/tweet.ts:24 | a page lists its tweets strictly in feed order |
| TweetRouter.EnrichedOrdered | src/server/api/routers/tweet.ts:56-65 | enrichment keeps the rows' feed order |
| TweetRouter.CursorIsInclusive | src/server/api/routers/tweet.ts:23 | a page asked for with a row's key starts with that row |
| TweetRouter.RemainingFromRow | src/server/api/routers/tweet.ts:23 | the rows from a row's own key on start with that row |
| TweetRouter.PageContinues | src/server/api/routers/tweet.ts:45-53 | the tweets from the cursor on are this page followed by the tweets from `nextCursor` on; each page shortens what remains by `limit` |
| TweetRouter.ZeroLimitRepeatsCursor | src/server/api/routers/tweet.ts:45-53 | with `limit: 0`, a page asked for at a row's key is empty and returns that same key as `nextCursor` |
| TweetRouter.PositiveLimitAdvances | src/server/api/routers/tweet.ts:45-53 | with a positive limit, a returned `nextCursor` differs from the cursor asked with and strictly shortens what remains |
| TweetRouter.FetchAllPages | src/server/api/routers/tweet.ts:45-53 | a client following each page's `nextCursor` until none is returned collects as many tweets as remain from the start cursor |
| TweetRouter.PagesCoverRemaining | src/server/api/routers/tweet.ts:45-53 | following the cursors from any start collects exactly the remaining tweets in order |
| TweetRouter.PagesCoverFeed | src/server/api/routers/tweet.ts:45-53 | from no cursor, the pages together are the whole filtered feed, in strict feed order, no tweet twice |
| TweetRouter.NewerTweetLeavesPageUnchanged | src/server/api/routers/tweet.ts:71-76 | a newly created tweet that sorts ahead of a cursor leaves the page at that cursor unchanged |
| TweetRouter.NewerTweetLeavesRemainingUnchanged | src/server/api/routers/tweet.ts:23-24 | such a tweet leaves the rows from that cursor on unchanged |
| TweetRouter.WithTweetUnique | src/server/api/routers/tweet.ts:74-76 | appending a tweet with a fresh id keeps ids distinct |
| TweetRouter.EnrichAllLikesOnly | src/server/api/routers/tweet.ts:37-38 | enrichment depends on the tweets and the likes table alone |
| TweetRouter.ToggledLikes | src/server/api/routers/tweet.ts:95-106 | the caller's pair is in the new relation exactly when it was not in the old one; every other pair stays as it was |
| TweetRouter.ToggleMovesCount | src/server/api/routers/tweet.ts:95-107 | toggling flips exactly the caller's pair; the tweet's like count moves by one, up when adding and down when removing; other tweets' counts stay |
| TweetRouter.ToggleTwiceRestores | src/server/api/routers/tweet.ts:95-107 | two toggles alternate the like state and restore the likes table |
| TweetRouter.Database.InfiniteFeed | src/server/api/routers/tweet.ts:18-67 | the fetch, pop and enrichment return exactly `FeedPageOf` of the current tables |
| TweetRouter.Database.Create | src/server/api/routers/tweet.ts:71-81 | without a session the call fails and nothing changes; with one, the tweet by the caller is appended and returned; ids stay distinct |
| TweetRouter.Database.ToggleLike | src/server/api/routers/tweet.ts:83-109 | without a session the call fails; with one, the caller's like is created when absent and deleted when present, and `addedLike` says which; tweets and follows are untouched |
| InfiniteTweetList.UpdateTweet | src/components/InfiniteTweetList.tsx:94-103 | key, content and author are kept; the toggled tweet's count moves by one towards `addedLike` and `likedByMe = addedLike`; any other tweet is returned as it was |
| InfiniteTweetList.UpdateTweets | src/components/InfiniteTweetList.tsx:93-104 | each tweet is mapped in place, with the same length |
| InfiniteTweetList.UpdatePages | src/components/InfiniteTweetList.tsx:90-106 | each page is mapped in place, with the same length |
| InfiniteTweetList.UpdateData | src/components/InfiniteTweetList.tsx:83-108 | absent data stays absent; page params, page count, page sizes and cursors are kept; the toggled tweet's count moves by one towards `addedLike` with `likedByMe = addedLike`; other tweets are unchanged |
| InfiniteTweetList.UpdatePageWithoutTweet | src/components/InfiniteTweetList.tsx:103 | a page without the toggled tweet is returned as it was |
| InfiniteTweetList.ProjectLike | src/components/InfiniteTweetList.tsx:110-114 | the cached views are the same; views other than the three are unchanged; the three keep their page params and page count |
| InfiniteTweetList.RefreshAt | src/components/InfiniteTweetList.tsx:110 | one `setInfiniteData` runs the cached entry for its key through `updateData` and keeps all other entries |
| InfiniteTweetList.RefreshThreeViews | src/components/InfiniteTweetList.tsx:110-114 | the three calls in a row update exactly the three views' cached entries |
| InfiniteTweetList.ProjectedCopiesAgree | src/components/InfiniteTweetList.tsx:110-114 | cached copies that agreed on the count agree afterwards on the moved count and the new like state |
| InfiniteTweetList.UpdateMatchesRefetch | src/components/InfiniteTweetList.tsx:78-116 | projecting a cached page equals refetching it after the server's toggle, for the viewer who toggled |
| InfiniteTweetList.EnrichAllAfterToggle | src/components/InfiniteTweetList.tsx:90-106 | the rows enriched after the toggle are the projection of the rows enriched before |
| InfiniteTweetList.EnrichAfterToggle | src/components/InfiniteTweetList.tsx:94-99 | one enriched row after the toggle is the projection of that row before it |
| InfiniteTweetList.OtherProfileOmitsTweet | src/components/InfiniteTweetList.tsx:112-114 | another author's profile feed never holds the toggled tweet, so it needs no update |
| InfiniteTweetList.ProjectionKeepsCacheCoherent | src/components/InfiniteTweetList.tsx:110-114 | a cache of the application's feeds that matched the server still matches it after the toggle and the projection |
| InfiniteTweetList.CoherentCopiesAgree | src/components/InfiniteTweetList.tsx:94 | in a coherent cache, two cached copies of one tweet are identical |
| InfiniteTweetList.QueryCache.SetInfiniteData | src/components/InfiniteTweetList.tsx:110 | the entry becomes what the updater returns; when it returns nothing the cache is unchanged |
| InfiniteTweetList.QueryCache.OnToggleLikeSuccess | src/components/InfiniteTweetList.tsx:79-116 | the handler leaves the cache equal to the projection of the three views |
| InfiniteTweetList.RenderHeart | src/components/InfiniteTweetList.tsx:180-189 | fill and count show the tweet's state; a button exactly for an authenticated session, disabled exactly while a toggle is loading |
| InfiniteTweetList.TweetCard.Click | src/components/InfiniteTweetList.tsx:120-122 | a click starts a toggle exactly through an enabled button, and marks the mutation loading |
| InfiniteTweetList.TweetCard.Settle | src/components/InfiniteTweetList.tsx:78-79 | a settled toggle stops loading; on success the cache is projected, on failure it is unchanged |

## Left out

- Negative or fractional `limit` values, which the input schema accepts: `limit` is a natural number here.
- A cursor that names no stored row. The database's behaviour for it is not modelled; the cursor is treated as a position in the order.
- `limit: 0` is in the model, but the completeness theorems (`PagesCoverRemaining`, `PagesCoverFeed`) assume a positive limit: with 0 the client asks for the same cursor forever (see "## Findings").
- TweetRouter.Enrich: for an anonymous viewer `likedByMe` is the corrected reading (false), not the reading of the code as written (`LikedByMeAsWritten`, true as soon as the tweet has any like).
- TweetRouter.EnrichAll: built from `Enrich`, so for an anonymous viewer every tweet's `likedByMe` is the corrected reading, not `LikedByMeAsWritten`.
- TweetRouter.Database.InfiniteFeed: returns `FeedPageOf`, so for an anonymous viewer `likedByMe` is the corrected reading, not `LikedByMeAsWritten`.
- TweetRouter.FeedPageOf: the page model, and with it `EnrichAll` and `Database.InfiniteFeed`, uses the corrected `likedByMe` for an anonymous viewer, not the reading of the code as written (`LikedByMeAsWritten`).
- Timestamps are integers; the `Date` type and its serialisation are not modelled.
- Ids compare lexicographically by character; the database's collation is not part of this model.
- The user's `name` and `image` fields are carried as the author id alone.
- `create`'s id and timestamp come from the database; they are parameters, and the fresh id is a precondition.
- `revalidateSSG` (static page regeneration) in `create` is I/O and is left out.
- The database schema's foreign keys and cascades, and likes on tweets that do not exist.
- Concurrency: two toggles racing, a refetch racing a projection, and the database's unique-key conflict on concurrent creates.
- react-query's fetching, request de-duplication and refetch timing; the cache is a map edited by `setInfiniteData` only.
- Cached views other than the three updated ones stay as they were; `ProjectionKeepsCacheCoherent` covers the application's home and profile feeds only, and any other cached view may go stale.
- The JSX rendering, links, the profile image, the side navigation and the icon hover effect.
- `InfiniteTweetList` itself (loading, error and empty states, infinite scroll) is rendering and not modelled.

## Findings

| source | as written | input that shows it | evidently intended | confidence | as-written member | corrected member |
|---|---|---|---|---|---|---|
| src/server/api/routers/tweet.ts:38 | without a session `currentUserId` is `undefined`, so `=== null` is false and the likes are selected with `userId: undefined`, which places no condition on the user; `likedByMe` becomes "anyone liked it" | no session, one like `Like("alice", "t1")` on tweet `t1`: `likedByMe` is true | an anonymous viewer has liked nothing: `likedByMe` is false | medium, not executed | TweetRouter.AnonymousLikedByMeCounterexample | TweetRouter.LikedByMe |
| src/server/api/routers/tweet.ts:13 | `limit` accepts any number, 0 included; with `limit: 0` one row is fetched and popped, so the page is empty and `nextCursor` is the key of the row the cursor names | `limit: 0` with a cursor naming a row of the feed: the page is empty and `nextCursor` equals the cursor, so a client following `nextCursor` never advances | a positive limit, which makes every returned cursor move forward | low, not executed | TweetRouter.ZeroLimitRepeatsCursor | TweetRouter.PositiveLimitAdvances |
