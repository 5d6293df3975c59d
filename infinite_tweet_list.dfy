/**
 * The client side of a like: the cached infinite feeds, the `updateData`
 * projection that rewrites a toggled tweet in place of a refetch, the
 * `onSuccess` handler that applies it to three cached views, and the heart
 * button that starts the toggle.
 */
module InfiniteTweetList {
  import opened Wrappers
  import opened FeedOrder
  import opened Storage
  import opened TweetRouter

  /** The cached data of one infinite query: its pages and the cursor each was fetched with. */
  datatype InfiniteData = InfiniteData(pages: seq<FeedPage>, pageParams: seq<Option<Cursor>>)

  /** The three views refreshed after a like: the home feed `{}`, `{onlyFollowing: true}` and the author's profile. */
  const GlobalFeed: View := View(None, None, None)
  const FollowingFeed: View := View(None, Some(true), None)

  function ProfileFeed(author: UserId): View {
    View(None, None, Some(author))
  }

  function UpdatedViews(author: UserId): set<View> {
    {GlobalFeed, FollowingFeed, ProfileFeed(author)}
  }

  /** `countModifier`. */
  function CountModifier(addedLike: bool): int {
    if addedLike then 1 else -1
  }

  /** One tweet of the projection: the toggled one gets the new count and like state. */
  function UpdateTweet(t: FeedTweet, id: TweetId, addedLike: bool): (u: FeedTweet)
    ensures KeyOfTweet(u) == KeyOfTweet(t) && u.content == t.content && u.user == t.user
    ensures t.id == id ==> u.likeCount == t.likeCount + CountModifier(addedLike) && u.likedByMe == addedLike
    ensures t.id != id ==> u == t
  {
    if t.id == id then t.(likeCount := t.likeCount + CountModifier(addedLike), likedByMe := addedLike) else t
  }

  /** `page.tweets.map(...)`. */
  function UpdateTweets(ts: seq<FeedTweet>, id: TweetId, addedLike: bool): (r: seq<FeedTweet>)
    ensures |r| == |ts|
    ensures forall i :: 0 <= i < |ts| ==> r[i] == UpdateTweet(ts[i], id, addedLike)
  {
    if ts == [] then [] else [UpdateTweet(ts[0], id, addedLike)] + UpdateTweets(ts[1..], id, addedLike)
  }

  /** `{...page, tweets: ...}`: the other page fields, `nextCursor` included, are kept. */
  function UpdatePage(page: FeedPage, id: TweetId, addedLike: bool): FeedPage {
    page.(tweets := UpdateTweets(page.tweets, id, addedLike))
  }

  /** `oldData.pages.map(...)`. */
  function UpdatePages(pages: seq<FeedPage>, id: TweetId, addedLike: bool): (r: seq<FeedPage>)
    ensures |r| == |pages|
    ensures forall p :: 0 <= p < |pages| ==> r[p] == UpdatePage(pages[p], id, addedLike)
  {
    if pages == [] then [] else [UpdatePage(pages[0], id, addedLike)] + UpdatePages(pages[1..], id, addedLike)
  }

  /**
   * `updateData`: absent data stays absent; otherwise the pages keep their
   * number, their sizes, their order, their cursors and the page params, every
   * tweet with the toggled id gets its count moved by one in the direction of
   * `addedLike` and `likedByMe = addedLike`, and every other tweet is kept as
   * it was.
   */
  function UpdateData(oldData: Option<InfiniteData>, id: TweetId, addedLike: bool): (r: Option<InfiniteData>)
    ensures r.Some? <==> oldData.Some?
    ensures r.Some? ==>
      var before := oldData.value.pages;
      var after := r.value.pages;
      r.value.pageParams == oldData.value.pageParams &&
      |after| == |before| &&
      (forall p :: 0 <= p < |before| ==>
        after[p].nextCursor == before[p].nextCursor && |after[p].tweets| == |before[p].tweets|) &&
      (forall p, i :: 0 <= p < |before| && 0 <= i < |before[p].tweets| && before[p].tweets[i].id == id ==>
        after[p].tweets[i] == before[p].tweets[i].(
          likeCount := before[p].tweets[i].likeCount + CountModifier(addedLike),
          likedByMe := addedLike)) &&
      (forall p, i :: 0 <= p < |before| && 0 <= i < |before[p].tweets| && before[p].tweets[i].id != id ==>
        after[p].tweets[i] == before[p].tweets[i])
  {
    match oldData
    case None => None
    case Some(data) => Some(data.(pages := UpdatePages(data.pages, id, addedLike)))
  }

  /** A page in which the toggled tweet does not appear is returned as it was. */
  lemma UpdatePageWithoutTweet(page: FeedPage, id: TweetId, addedLike: bool)
    requires forall i :: 0 <= i < |page.tweets| ==> page.tweets[i].id != id
    ensures UpdatePage(page, id, addedLike) == page
  {
    assert UpdateTweets(page.tweets, id, addedLike) == page.tweets;
  }

  /**
   * What the three `setInfiniteData` calls leave in the cache: the three
   * views, where cached, run through `updateData`; every other view as it was.
   */
  function ProjectLike(entries: map<View, InfiniteData>, id: TweetId, author: UserId, addedLike: bool): (r: map<View, InfiniteData>)
    ensures r.Keys == entries.Keys
    ensures forall k {:trigger r[k]} :: k in r && k !in UpdatedViews(author) ==> r[k] == entries[k]
    ensures forall k {:trigger r[k]} :: k in r && k in UpdatedViews(author) ==>
      r[k].pageParams == entries[k].pageParams && |r[k].pages| == |entries[k].pages|
  {
    map k | k in entries ::
      if k in UpdatedViews(author) then UpdateData(Some(entries[k]), id, addedLike).value else entries[k]
  }

  /** One `setInfiniteData(key, updateData)`: the entry, when cached, run through `updateData`. */
  function Refresh(entries: map<View, InfiniteData>, key: View, id: TweetId, addedLike: bool): map<View, InfiniteData> {
    if key in entries then entries[key := UpdateData(Some(entries[key]), id, addedLike).value] else entries
  }

  /** The refreshed entry is run through `updateData`; any other entry is kept. */
  lemma RefreshAt(entries: map<View, InfiniteData>, key: View, id: TweetId, addedLike: bool, k: View)
    requires k in entries
    ensures Refresh(entries, key, id, addedLike).Keys == entries.Keys
    ensures Refresh(entries, key, id, addedLike)[k] ==
      if k == key then UpdateData(Some(entries[k]), id, addedLike).value else entries[k]
  {
  }

  /** The three refreshes in a row, on three distinct views, are the projection. */
  lemma RefreshThreeViews(entries: map<View, InfiniteData>, id: TweetId, author: UserId, addedLike: bool)
    ensures Refresh(Refresh(Refresh(entries, GlobalFeed, id, addedLike), FollowingFeed, id, addedLike), ProfileFeed(author), id, addedLike)
      == ProjectLike(entries, id, author, addedLike)
  {
    var r1 := Refresh(entries, GlobalFeed, id, addedLike);
    var r2 := Refresh(r1, FollowingFeed, id, addedLike);
    var r3 := Refresh(r2, ProfileFeed(author), id, addedLike);
    var p := ProjectLike(entries, id, author, addedLike);
    assert r3.Keys == p.Keys;
    forall k | k in p
      ensures r3[k] == p[k]
    {
      RefreshAt(entries, GlobalFeed, id, addedLike, k);
      RefreshAt(r1, FollowingFeed, id, addedLike, k);
      RefreshAt(r2, ProfileFeed(author), id, addedLike, k);
      if k == GlobalFeed {
        assert r3[k] == r1[k];
      } else if k == FollowingFeed {
        assert r3[k] == r2[k];
      } else if k == ProfileFeed(author) {
        assert r2[k] == entries[k];
      } else {
        assert k !in UpdatedViews(author);
      }
    }
  }

  /** Every cached copy of the tweet shows the like count `c`. */
  ghost predicate CopiesHaveCount(entries: map<View, InfiniteData>, id: TweetId, c: int) {
    forall k, p, i ::
      k in entries && 0 <= p < |entries[k].pages| && 0 <= i < |entries[k].pages[p].tweets| &&
      entries[k].pages[p].tweets[i].id == id ==>
        entries[k].pages[p].tweets[i].likeCount == c
  }

  /** Every cached copy of the tweet shows the like state `liked`. */
  ghost predicate CopiesLiked(entries: map<View, InfiniteData>, id: TweetId, liked: bool) {
    forall k, p, i ::
      k in entries && 0 <= p < |entries[k].pages| && 0 <= i < |entries[k].pages[p].tweets| &&
      entries[k].pages[p].tweets[i].id == id ==>
        entries[k].pages[p].tweets[i].likedByMe == liked
  }

  /** The tweet is cached only in views among `views`. */
  ghost predicate HeldOnlyBy(entries: map<View, InfiniteData>, id: TweetId, views: set<View>) {
    forall k, p, i ::
      k in entries && 0 <= p < |entries[k].pages| && 0 <= i < |entries[k].pages[p].tweets| &&
      entries[k].pages[p].tweets[i].id == id ==>
        k in views
  }

  /**
   * When every cached copy of the tweet sits in one of the three refreshed
   * views and they agreed on the count before, they all agree afterwards on
   * the count moved by one and on `likedByMe = addedLike`.
   */
  lemma ProjectedCopiesAgree(entries: map<View, InfiniteData>, id: TweetId, author: UserId, addedLike: bool, c: int)
    requires CopiesHaveCount(entries, id, c)
    requires HeldOnlyBy(entries, id, UpdatedViews(author))
    ensures var after := ProjectLike(entries, id, author, addedLike);
      after.Keys == entries.Keys &&
      CopiesHaveCount(after, id, c + CountModifier(addedLike)) &&
      CopiesLiked(after, id, addedLike)
  {
    var after := ProjectLike(entries, id, author, addedLike);
    forall k, p, i |
      k in after && 0 <= p < |after[k].pages| && 0 <= i < |after[k].pages[p].tweets| &&
      after[k].pages[p].tweets[i].id == id
      ensures after[k].pages[p].tweets[i].likeCount == c + CountModifier(addedLike)
      ensures after[k].pages[p].tweets[i].likedByMe == addedLike
    {
      if k !in UpdatedViews(author) {
        assert false;
      }
    }
  }

  /**
   * Toggling on the server and refetching a page gives exactly what the
   * projection computes from the page fetched before, for the viewer who
   * toggled: the cache never drifts from the server.
   */
  lemma UpdateMatchesRefetch(db: Db, input: FeedInput, user: UserId, id: TweetId)
    ensures var addedLike := Like(user, id) !in db.likes;
      UpdatePage(FeedPageOf(db, input, Some(user)), id, addedLike) ==
        FeedPageOf(ToggledDb(db, Like(user, id)), input, Some(user))
  {
    var addedLike := Like(user, id) !in db.likes;
    var limit := LimitOf(input.view);
    var data := Fetched(db, input, Some(user));
    assert Fetched(ToggledDb(db, Like(user, id)), input, Some(user)) == data;
    if |data| > limit {
      EnrichAllAfterToggle(db, user, id, addedLike, data[..limit]);
    } else {
      EnrichAllAfterToggle(db, user, id, addedLike, data);
    }
  }

  /** The rows of a page enriched after the toggle are the projection of the rows enriched before. */
  lemma EnrichAllAfterToggle(db: Db, user: UserId, id: TweetId, addedLike: bool, rows: seq<TweetRow>)
    requires addedLike == (Like(user, id) !in db.likes)
    ensures UpdateTweets(EnrichAll(db, Some(user), rows), id, addedLike) ==
      EnrichAll(ToggledDb(db, Like(user, id)), Some(user), rows)
  {
    forall i | 0 <= i < |rows|
      ensures UpdateTweet(Enrich(db, Some(user), rows[i]), id, addedLike) ==
        Enrich(ToggledDb(db, Like(user, id)), Some(user), rows[i])
    {
      EnrichAfterToggle(db, user, id, rows[i]);
    }
  }

  /** One row enriched after the toggle is the projection of the row enriched before. */
  lemma EnrichAfterToggle(db: Db, user: UserId, id: TweetId, row: TweetRow)
    ensures UpdateTweet(Enrich(db, Some(user), row), id, Like(user, id) !in db.likes) ==
      Enrich(ToggledDb(db, Like(user, id)), Some(user), row)
  {
    ToggleMovesCount(db.likes, Like(user, id), row.id);
  }

  /** A cached view holds what the server returns for each of its page params. */
  ghost predicate ViewCoherent(db: Db, viewer: Option<UserId>, view: View, data: InfiniteData) {
    |data.pages| == |data.pageParams| &&
    forall p :: 0 <= p < |data.pages| ==>
      data.pages[p] == FeedPageOf(db, FeedInput(view, data.pageParams[p]), viewer)
  }

  ghost predicate CacheCoherent(db: Db, viewer: Option<UserId>, entries: map<View, InfiniteData>) {
    forall k {:trigger entries[k]} :: k in entries ==> ViewCoherent(db, viewer, k, entries[k])
  }

  /** The feeds the application caches: the two home feeds and profile feeds. */
  predicate AppView(k: View) {
    k == GlobalFeed || k == FollowingFeed ||
    (k.limit.None? && k.onlyFollowing.None? && k.userId.Some? && k.userId.value != "")
  }

  /** A profile feed of another author never holds the toggled tweet. */
  lemma OtherProfileOmitsTweet(db: Db, input: FeedInput, viewer: Option<UserId>, id: TweetId, author: UserId)
    requires AppView(input.view) && input.view !in UpdatedViews(author)
    requires forall x :: x in db.tweets && x.id == id ==> x.userId == author
    ensures var ts := FeedPageOf(db, input, viewer).tweets;
      forall i :: 0 <= i < |ts| ==> ts[i].id != id
  {
    var ts := FeedPageOf(db, input, viewer).tweets;
    forall i | 0 <= i < |ts|
      ensures ts[i].id != id
    {
      var row := PageTweetRow(db, input, viewer, i);
      FeedRowsMembers(db, input.view, viewer, row);
    }
  }

  /**
   * After a toggle on the server by the signed-in viewer, the handler's
   * projection keeps a coherent cache of the application's feeds coherent:
   * the three refreshed views match the server again, and every other
   * profile feed was already right because it cannot hold the tweet.
   */
  lemma ProjectionKeepsCacheCoherent(db: Db, user: UserId, entries: map<View, InfiniteData>, id: TweetId, author: UserId,
                                     after: map<View, InfiniteData>)
    requires forall x :: x in db.tweets && x.id == id ==> x.userId == author
    requires forall k :: k in entries ==> AppView(k)
    requires CacheCoherent(db, Some(user), entries)
    requires after == ProjectLike(entries, id, author, Like(user, id) !in db.likes)
    ensures CacheCoherent(ToggledDb(db, Like(user, id)), Some(user), after)
  {
    var db' := ToggledDb(db, Like(user, id));
    var addedLike := Like(user, id) !in db.likes;
    forall k | k in after
      ensures ViewCoherent(db', Some(user), k, after[k])
    {
      var data := entries[k];
      var updated := after[k];
      forall p | 0 <= p < |updated.pages|
        ensures updated.pages[p] == FeedPageOf(db', FeedInput(k, updated.pageParams[p]), Some(user))
      {
        var input := FeedInput(k, data.pageParams[p]);
        UpdateMatchesRefetch(db, input, user, id);
        if k !in UpdatedViews(author) {
          OtherProfileOmitsTweet(db, input, Some(user), id, author);
          UpdatePageWithoutTweet(FeedPageOf(db, input, Some(user)), id, addedLike);
        }
      }
    }
  }

  /** Two cached copies of one tweet in a coherent cache are identical. */
  lemma CoherentCopiesAgree(db: Db, viewer: Option<UserId>, entries: map<View, InfiniteData>,
                            k1: View, p1: nat, i1: nat, k2: View, p2: nat, i2: nat)
    requires UniqueIds(db.tweets) && CacheCoherent(db, viewer, entries)
    requires k1 in entries && p1 < |entries[k1].pages| && i1 < |entries[k1].pages[p1].tweets|
    requires k2 in entries && p2 < |entries[k2].pages| && i2 < |entries[k2].pages[p2].tweets|
    requires entries[k1].pages[p1].tweets[i1].id == entries[k2].pages[p2].tweets[i2].id
    ensures entries[k1].pages[p1].tweets[i1] == entries[k2].pages[p2].tweets[i2]
  {
    assert ViewCoherent(db, viewer, k1, entries[k1]) && ViewCoherent(db, viewer, k2, entries[k2]);
    var row1 := PageTweetRow(db, FeedInput(k1, entries[k1].pageParams[p1]), viewer, i1);
    var row2 := PageTweetRow(db, FeedInput(k2, entries[k2].pageParams[p2]), viewer, i2);
    FeedRowsMembers(db, k1, viewer, row1);
    FeedRowsMembers(db, k2, viewer, row2);
    SameIdSameRow(db.tweets, row1, row2);
  }

  /** The query client's cache of infinite feeds, keyed by view. */
  class QueryCache {
    var entries: map<View, InfiniteData>

    constructor ()
      ensures entries == map[]
    {
      entries := map[];
    }

    function GetInfiniteData(key: View): Option<InfiniteData>
      reads this
    {
      if key in entries then Some(entries[key]) else None
    }

    /**
     * `setInfiniteData(key, updater)`: store what the updater makes of the
     * cached data; an updater that returns nothing leaves the entry as it was.
     */
    method SetInfiniteData(key: View, updater: Option<InfiniteData> -> Option<InfiniteData>)
      modifies this
      ensures var next := updater(old(GetInfiniteData(key)));
        entries == if next.Some? then old(entries)[key := next.value] else old(entries)
    {
      var next := updater(GetInfiniteData(key));
      if next.Some? {
        entries := entries[key := next.value];
      }
    }

    /** The `onSuccess` handler of a tweet card's like mutation. */
    method OnToggleLikeSuccess(id: TweetId, author: UserId, addedLike: bool)
      modifies this
      ensures entries == ProjectLike(old(entries), id, author, addedLike)
    {
      ghost var before := entries;
      var updateData := (oldData: Option<InfiniteData>) => UpdateData(oldData, id, addedLike);
      SetInfiniteData(GlobalFeed, updateData);
      assert entries == Refresh(before, GlobalFeed, id, addedLike);
      SetInfiniteData(FollowingFeed, updateData);
      assert entries == Refresh(Refresh(before, GlobalFeed, id, addedLike), FollowingFeed, id, addedLike);
      SetInfiniteData(ProfileFeed(author), updateData);
      RefreshThreeViews(before, id, author, addedLike);
    }
  }

  /** `useSession().status`. */
  datatype SessionStatus = Authenticated | Unauthenticated | Loading

  /** What the heart renders: a plain count, or a button that may be disabled. */
  datatype HeartControl =
    | StaticHeart(filled: bool, count: int)
    | HeartButton(filled: bool, count: int, disabled: bool)

  /**
   * `HeartButton`: a viewer who is not signed in gets the count without a
   * button; a signed-in viewer gets a button, disabled while a toggle is in
   * flight.
   */
  function RenderHeart(status: SessionStatus, isLoading: bool, likedByMe: bool, likeCount: int): (c: HeartControl)
    ensures c.filled == likedByMe && c.count == likeCount
    ensures c.HeartButton? <==> status == Authenticated
    ensures c.HeartButton? ==> (c.disabled <==> isLoading)
  {
    if status != Authenticated then StaticHeart(likedByMe, likeCount)
    else HeartButton(likedByMe, likeCount, isLoading)
  }

  /** One rendered tweet and the state of its like mutation. */
  class TweetCard {
    const id: TweetId
    const author: UserId
    var isLoading: bool

    constructor (id: TweetId, author: UserId)
      ensures this.id == id && this.author == author && !isLoading
    {
      this.id := id;
      this.author := author;
      isLoading := false;
    }

    /** A click on the heart starts a toggle only through an enabled button. */
    method Click(status: SessionStatus, likedByMe: bool, likeCount: int) returns (started: bool)
      modifies this
      ensures var c := RenderHeart(status, old(isLoading), likedByMe, likeCount);
        started <==> c.HeartButton? && !c.disabled
      ensures isLoading == (old(isLoading) || started)
    {
      var c := RenderHeart(status, isLoading, likedByMe, likeCount);
      started := c.HeartButton? && !c.disabled;
      if started {
        isLoading := true;
      }
    }

    /**
     * The toggle settles with the server's `addedLike`, or with nothing when
     * it failed: the cache is projected only on success.
     */
    method Settle(cache: QueryCache, outcome: Option<bool>)
      requires isLoading
      modifies this, cache
      ensures !isLoading
      ensures outcome.None? ==> cache.entries == old(cache.entries)
      ensures outcome.Some? ==> cache.entries == ProjectLike(old(cache.entries), id, author, outcome.value)
    {
      isLoading := false;
      if outcome.Some? {
        cache.OnToggleLikeSuccess(id, author, outcome.value);
      }
    }
  }
}
