/**
 * The tweet router: the public `infiniteFeed` query and the protected
 * `create` and `toggleLike` mutations, over the storage snapshot of module
 * Storage. The database itself is the class `Database`, whose tables the
 * mutations update in place.
 */
module TweetRouter {
  import opened Wrappers
  import opened FeedOrder
  import opened Storage

  /** The page size used when the caller gives no `limit`. */
  const DefaultLimit: nat := 7

  /**
   * The feed input without its cursor. The client's cache keys each infinite
   * query by exactly this value.
   */
  datatype View = View(limit: Option<nat>, onlyFollowing: Option<bool>, userId: Option<UserId>)

  datatype FeedInput = FeedInput(view: View, cursor: Option<Cursor>)

  /** A tweet as the feed returns it, enriched with its like count and the viewer's like. */
  datatype FeedTweet = FeedTweet(id: TweetId, content: string, createdAt: int, likeCount: int, user: UserId, likedByMe: bool)

  /** One page of the feed and the cursor of the first tweet not on it. */
  datatype FeedPage = FeedPage(tweets: seq<FeedTweet>, nextCursor: Option<Cursor>)

  /** A protected procedure called without a session. */
  datatype Error = Unauthorized

  function LimitOf(view: View): nat {
    view.limit.GetOr(DefaultLimit)
  }

  function KeyOfTweet(t: FeedTweet): Cursor {
    Cursor(t.id, t.createdAt)
  }

  /**
   * The filter: by author when `userId` is given (an empty string counts as
   * not given), else following-only when asked for by a signed-in viewer,
   * else none.
   */
  function WhereOf(view: View, viewer: Option<UserId>): (w: Where)
    ensures w.AuthoredBy? <==> view.userId.Some? && view.userId.value != ""
    ensures w.AuthoredBy? ==> w.author == view.userId.value
    ensures w.FollowedBy? <==> !w.AuthoredBy? && viewer.Some? && view.onlyFollowing == Some(true)
    ensures w.FollowedBy? ==> w.viewer == viewer.value
  {
    if view.userId.Some? && view.userId.value != "" then AuthoredBy(view.userId.value)
    else if viewer.None? || view.onlyFollowing != Some(true) then AllTweets
    else FollowedBy(viewer.value)
  }

  /** Every tweet the view ranges over, in feed order. */
  function FeedRows(db: Db, view: View, viewer: Option<UserId>): seq<TweetRow> {
    OrderedRows(db.tweets, db.follows, WhereOf(view, viewer))
  }

  /** The view's tweets from the cursor on. */
  function Remaining(db: Db, view: View, viewer: Option<UserId>, cursor: Option<Cursor>): seq<TweetRow> {
    DropBefore(FeedRows(db, view, viewer), cursor)
  }

  /**
   * Which tweets a view ranges over: the author's when `userId` is given,
   * whatever `onlyFollowing` says; otherwise the followed authors' when a
   * viewer asks for following-only; otherwise all of them, including when
   * following-only is asked for without a viewer.
   */
  lemma FeedRowsMembers(db: Db, view: View, viewer: Option<UserId>, x: TweetRow)
    ensures x in FeedRows(db, view, viewer) <==>
      x in db.tweets &&
      if view.userId.Some? && view.userId.value != "" then x.userId == view.userId.value
      else if viewer.Some? && view.onlyFollowing == Some(true) then Follow(viewer.value, x.userId) in db.follows
      else true
  {
    SortFeedMembers(Filter(db.tweets, WhereOf(view, viewer), db.follows), x);
  }

  /**
   * The likes that `likes: { where: { userId: user } }` selects for one
   * tweet; an `undefined` user places no condition on the like's user.
   */
  function SelectedLikes(likes: set<Like>, user: Option<UserId>, tweetId: TweetId): set<Like> {
    set l | l in likes && l.tweetId == tweetId && (user.None? || l.userId == user.value)
  }

  /**
   * `likedByMe` as written: the guard `currentUserId === null` never holds
   * for a missing session (the id is `undefined`), so the likes are selected
   * with `userId: undefined`.
   */
  function LikedByMeAsWritten(likes: set<Like>, viewer: Option<UserId>, tweetId: TweetId): (b: bool)
    ensures viewer.None? ==> (b <==> LikesOf(likes, tweetId) != {})
    ensures viewer.Some? ==> (b <==> Like(viewer.value, tweetId) in likes)
  {
    if viewer.None? then
      assert SelectedLikes(likes, viewer, tweetId) == LikesOf(likes, tweetId);
      SelectedLikes(likes, viewer, tweetId) != {}
    else
      var mine := Like(viewer.value, tweetId);
      assert mine in likes ==> mine in SelectedLikes(likes, viewer, tweetId);
      SelectedLikes(likes, viewer, tweetId) != {}
  }

  /** `likedByMe` as intended: false without a viewer, else whether the viewer's like exists. */
  function LikedByMe(likes: set<Like>, viewer: Option<UserId>, tweetId: TweetId): (b: bool)
    ensures viewer.None? ==> !b
    ensures viewer.Some? ==> (b <==> Like(viewer.value, tweetId) in likes)
  {
    if viewer.None? then false
    else
      var mine := Like(viewer.value, tweetId);
      assert mine in likes ==> mine in SelectedLikes(likes, viewer, tweetId);
      SelectedLikes(likes, viewer, tweetId) != {}
  }

  /** Without a session, the code as written reports a tweet as liked by the viewer as soon as anyone liked it. */
  lemma AnonymousLikedByMeAsWritten(likes: set<Like>, tweetId: TweetId)
    ensures LikedByMeAsWritten(likes, None, tweetId) <==> |LikesOf(likes, tweetId)| > 0
  {
    assert SelectedLikes(likes, None, tweetId) == LikesOf(likes, tweetId);
  }

  /** One like by another user: the anonymous viewer sees it as their own as written, not as intended. */
  lemma AnonymousLikedByMeCounterexample()
    ensures LikedByMeAsWritten({Like("alice", "t1")}, None, "t1")
    ensures !LikedByMe({Like("alice", "t1")}, None, "t1")
  {
    assert Like("alice", "t1") in SelectedLikes({Like("alice", "t1")}, None, "t1");
  }

  /** With a session the written and the intended `likedByMe` agree. */
  lemma SignedInLikedByMeAgrees(likes: set<Like>, viewer: UserId, tweetId: TweetId)
    ensures LikedByMeAsWritten(likes, Some(viewer), tweetId) == LikedByMe(likes, Some(viewer), tweetId)
  {
  }

  /** The enrichment of one row: `likeCount` is `_count.likes`, `likedByMe` the viewer's like. */
  function Enrich(db: Db, viewer: Option<UserId>, row: TweetRow): (t: FeedTweet)
    ensures KeyOfTweet(t) == KeyOf(row) && t.content == row.content && t.user == row.userId
    ensures t.likeCount == |LikesOf(db.likes, row.id)|
    ensures viewer.None? ==> !t.likedByMe
    ensures viewer.Some? ==> (t.likedByMe <==> Like(viewer.value, row.id) in db.likes)
  {
    FeedTweet(row.id, row.content, row.createdAt, |LikesOf(db.likes, row.id)|, row.userId, LikedByMe(db.likes, viewer, row.id))
  }

  /** `data.map(...)`: the rows enriched one by one, in order. */
  function EnrichAll(db: Db, viewer: Option<UserId>, rows: seq<TweetRow>): (ts: seq<FeedTweet>)
    ensures |ts| == |rows|
    ensures forall i :: 0 <= i < |rows| ==> ts[i] == Enrich(db, viewer, rows[i])
  {
    if rows == [] then [] else [Enrich(db, viewer, rows[0])] + EnrichAll(db, viewer, rows[1..])
  }

  lemma EnrichAllSplit(db: Db, viewer: Option<UserId>, rows: seq<TweetRow>, k: nat)
    requires k <= |rows|
    ensures EnrichAll(db, viewer, rows) == EnrichAll(db, viewer, rows[..k]) + EnrichAll(db, viewer, rows[k..])
  {
    var whole := EnrichAll(db, viewer, rows);
    var parts := EnrichAll(db, viewer, rows[..k]) + EnrichAll(db, viewer, rows[k..]);
    forall i | 0 <= i < |rows|
      ensures whole[i] == parts[i]
    {
      if i >= k {
        assert rows[k..][i - k] == rows[i];
      }
    }
  }

  /** The rows the query fetches: `limit + 1` of them from the cursor on. */
  function Fetched(db: Db, input: FeedInput, viewer: Option<UserId>): seq<TweetRow> {
    FindMany(db.tweets, db.follows, WhereOf(input.view, viewer), input.cursor, LimitOf(input.view) + 1)
  }

  /**
   * The page `infiniteFeed` returns. It holds at most `limit` tweets (7 by
   * default); `nextCursor` is present exactly when more than `limit` rows
   * remain from the cursor on, and is then the key of the first row not
   * returned.
   */
  function FeedPageOf(db: Db, input: FeedInput, viewer: Option<UserId>): (page: FeedPage)
    ensures |page.tweets| <= LimitOf(input.view)
    ensures input.view.limit.None? ==> |page.tweets| <= 7
    ensures page.nextCursor.Some? <==> |Remaining(db, input.view, viewer, input.cursor)| > LimitOf(input.view)
    ensures page.nextCursor.Some? ==>
      page.nextCursor.value == KeyOf(Remaining(db, input.view, viewer, input.cursor)[LimitOf(input.view)])
  {
    var limit := LimitOf(input.view);
    var data := Fetched(db, input, viewer);
    if |data| > limit then FeedPage(EnrichAll(db, viewer, data[..limit]), Some(KeyOf(data[limit])))
    else FeedPage(EnrichAll(db, viewer, data), None)
  }

  /** The page in terms of the fetched rows: with one row too many, that last row popped off as the cursor. */
  lemma PageOfFetched(db: Db, input: FeedInput, viewer: Option<UserId>)
    ensures var data := Fetched(db, input, viewer);
      FeedPageOf(db, input, viewer) ==
        if |data| > LimitOf(input.view) then
          FeedPage(EnrichAll(db, viewer, data[..|data| - 1]), Some(Cursor(data[|data| - 1].id, data[|data| - 1].createdAt)))
        else FeedPage(EnrichAll(db, viewer, data), None)
  {
    var data := Fetched(db, input, viewer);
    var limit := LimitOf(input.view);
    if |data| > limit {
      var last := |data| - 1;
      assert last == limit;
      assert KeyOf(data[limit]) == Cursor(data[last].id, data[last].createdAt);
    }
  }

  /** The tweets of a page are the remaining rows, enriched, up to the limit. */
  lemma PageIsWindow(db: Db, input: FeedInput, viewer: Option<UserId>)
    ensures var rest := Remaining(db, input.view, viewer, input.cursor);
      FeedPageOf(db, input, viewer).tweets ==
        EnrichAll(db, viewer, if |rest| > LimitOf(input.view) then rest[..LimitOf(input.view)] else rest)
  {
    var rest := Remaining(db, input.view, viewer, input.cursor);
    var data := Fetched(db, input, viewer);
    var limit := LimitOf(input.view);
    if |data| > limit {
      assert data[..limit] == rest[..limit];
    }
  }

  /** Every tweet of a page is a row of the view, enriched. */
  lemma PageTweetRow(db: Db, input: FeedInput, viewer: Option<UserId>, i: nat) returns (row: TweetRow)
    requires i < |FeedPageOf(db, input, viewer).tweets|
    ensures row in FeedRows(db, input.view, viewer)
    ensures FeedPageOf(db, input, viewer).tweets[i] == Enrich(db, viewer, row)
  {
    var rest := Remaining(db, input.view, viewer, input.cursor);
    PageIsWindow(db, input, viewer);
    row := rest[i];
    DropBeforeMember(FeedRows(db, input.view, viewer), input.cursor, i);
  }

  /** A page lists its tweets strictly in feed order: newest first, then larger id first. */
  lemma PageOrdered(db: Db, input: FeedInput, viewer: Option<UserId>)
    requires UniqueIds(db.tweets)
    ensures var ts := FeedPageOf(db, input, viewer).tweets;
      forall i, j :: 0 <= i < j < |ts| ==> Before(KeyOfTweet(ts[i]), KeyOfTweet(ts[j]))
  {
    var rest := Remaining(db, input.view, viewer, input.cursor);
    var limit := LimitOf(input.view);
    OrderedRowsSorted(db.tweets, db.follows, WhereOf(input.view, viewer));
    DropBeforeSorted(FeedRows(db, input.view, viewer), input.cursor);
    PageIsWindow(db, input, viewer);
    var kept := if |rest| > limit then rest[..limit] else rest;
    assert Sorted(kept) by {
      forall i, j | 0 <= i < j < |kept|
        ensures Before(KeyOf(kept[i]), KeyOf(kept[j]))
      {
        assert kept[i] == rest[i] && kept[j] == rest[j];
      }
    }
    EnrichedOrdered(db, viewer, kept);
  }

  lemma EnrichedOrdered(db: Db, viewer: Option<UserId>, rows: seq<TweetRow>)
    requires Sorted(rows)
    ensures var ts := EnrichAll(db, viewer, rows);
      forall i, j :: 0 <= i < j < |ts| ==> Before(KeyOfTweet(ts[i]), KeyOfTweet(ts[j]))
  {
    var ts := EnrichAll(db, viewer, rows);
    forall i, j | 0 <= i < j < |ts|
      ensures Before(KeyOfTweet(ts[i]), KeyOfTweet(ts[j]))
    {
      assert KeyOfTweet(ts[i]) == KeyOf(rows[i]) && KeyOfTweet(ts[j]) == KeyOf(rows[j]);
    }
  }

  /** The cursor is inclusive: a page asked for with a row's key starts with that row. */
  lemma CursorIsInclusive(db: Db, input: FeedInput, viewer: Option<UserId>, row: TweetRow)
    requires UniqueIds(db.tweets)
    requires row in FeedRows(db, input.view, viewer) && input.cursor == Some(KeyOf(row))
    requires LimitOf(input.view) > 0
    ensures var ts := FeedPageOf(db, input, viewer).tweets;
      |ts| > 0 && ts[0] == Enrich(db, viewer, row)
  {
    RemainingFromRow(db, input.view, viewer, row);
    PageIsWindow(db, input, viewer);
    var rest := Remaining(db, input.view, viewer, input.cursor);
    var kept := if |rest| > LimitOf(input.view) then rest[..LimitOf(input.view)] else rest;
    assert kept[0] == row;
  }

  /** The rows from a row's own key on start with that row. */
  lemma RemainingFromRow(db: Db, view: View, viewer: Option<UserId>, row: TweetRow)
    requires UniqueIds(db.tweets) && row in FeedRows(db, view, viewer)
    ensures var rest := Remaining(db, view, viewer, Some(KeyOf(row)));
      |rest| > 0 && rest[0] == row
  {
    var rows := FeedRows(db, view, viewer);
    OrderedRowsSorted(db.tweets, db.follows, WhereOf(view, viewer));
    var k :| 0 <= k < |rows| && rows[k] == row;
    DropBeforeAt(rows, k);
  }

  /**
   * Keyset continuation: the tweets from the cursor on are exactly this page
   * followed by the tweets from `nextCursor` on, with no gap and no repeat;
   * a page of at least one tweet moves the cursor strictly forward.
   */
  lemma PageContinues(db: Db, input: FeedInput, viewer: Option<UserId>)
    requires UniqueIds(db.tweets)
    ensures var page := FeedPageOf(db, input, viewer);
      var rest := Remaining(db, input.view, viewer, input.cursor);
      EnrichAll(db, viewer, rest) ==
        page.tweets + if page.nextCursor.Some? then EnrichAll(db, viewer, Remaining(db, input.view, viewer, page.nextCursor)) else []
    ensures var page := FeedPageOf(db, input, viewer);
      page.nextCursor.Some? ==>
        |Remaining(db, input.view, viewer, page.nextCursor)| + LimitOf(input.view) == |Remaining(db, input.view, viewer, input.cursor)|
  {
    var page := FeedPageOf(db, input, viewer);
    var rest := Remaining(db, input.view, viewer, input.cursor);
    var limit := LimitOf(input.view);
    PageIsWindow(db, input, viewer);
    if |rest| > limit {
      OrderedRowsSorted(db.tweets, db.follows, WhereOf(input.view, viewer));
      DropBeforeNext(FeedRows(db, input.view, viewer), input.cursor, limit);
      assert Remaining(db, input.view, viewer, page.nextCursor) == rest[limit..];
      EnrichAllSplit(db, viewer, rest, limit);
    } else {
      assert page.tweets + [] == page.tweets;
    }
  }

  /**
   * What a client collects by fetching a page, then the page at its
   * `nextCursor`, and so on until no cursor is returned (the client's
   * `getNextPageParam: lastPage => lastPage.nextCursor`).
   */
  function FetchAllPages(db: Db, view: View, viewer: Option<UserId>, cursor: Option<Cursor>): (all: seq<FeedTweet>)
    requires UniqueIds(db.tweets) && LimitOf(view) > 0
    ensures |all| == |Remaining(db, view, viewer, cursor)|
    decreases |Remaining(db, view, viewer, cursor)|
  {
    var page := FeedPageOf(db, FeedInput(view, cursor), viewer);
    if page.nextCursor.None? then page.tweets
    else
      PageContinues(db, FeedInput(view, cursor), viewer);
      page.tweets + FetchAllPages(db, view, viewer, page.nextCursor)
  }

  /** Following the cursors from any start collects every remaining tweet, once each, in order. */
  lemma {:induction false} PagesCoverRemaining(db: Db, view: View, viewer: Option<UserId>, cursor: Option<Cursor>)
    requires UniqueIds(db.tweets) && LimitOf(view) > 0
    ensures FetchAllPages(db, view, viewer, cursor) == EnrichAll(db, viewer, Remaining(db, view, viewer, cursor))
    decreases |Remaining(db, view, viewer, cursor)|
  {
    var page := FeedPageOf(db, FeedInput(view, cursor), viewer);
    PageContinues(db, FeedInput(view, cursor), viewer);
    if page.nextCursor.Some? {
      PagesCoverRemaining(db, view, viewer, page.nextCursor);
    } else {
      assert page.tweets + [] == page.tweets;
    }
  }

  /**
   * With `limit: 0` a page asked for at a row's key is empty and hands back
   * the very cursor it was asked with, so a client following `nextCursor`
   * asks for the same page forever.
   */
  lemma ZeroLimitRepeatsCursor(db: Db, input: FeedInput, viewer: Option<UserId>, row: TweetRow)
    requires UniqueIds(db.tweets)
    requires input.view.limit == Some(0)
    requires row in FeedRows(db, input.view, viewer) && input.cursor == Some(KeyOf(row))
    ensures FeedPageOf(db, input, viewer) == FeedPage([], input.cursor)
  {
    RemainingFromRow(db, input.view, viewer, row);
  }

  /**
   * With a positive limit, as a limit validated to be positive would give,
   * every page that hands back a cursor moves it strictly forward: what
   * remains from the new cursor is shorter, and the cursor differs.
   */
  lemma PositiveLimitAdvances(db: Db, input: FeedInput, viewer: Option<UserId>)
    requires UniqueIds(db.tweets) && LimitOf(input.view) > 0
    ensures var page := FeedPageOf(db, input, viewer);
      page.nextCursor.Some? ==>
        page.nextCursor != input.cursor &&
        |Remaining(db, input.view, viewer, page.nextCursor)| < |Remaining(db, input.view, viewer, input.cursor)|
  {
    PageContinues(db, input, viewer);
  }

  /**
   * Pagination completeness: starting without a cursor, the concatenated
   * pages are the whole filtered feed, strictly in feed order, with no tweet
   * twice.
   */
  lemma PagesCoverFeed(db: Db, view: View, viewer: Option<UserId>)
    requires UniqueIds(db.tweets) && LimitOf(view) > 0
    ensures var all := FetchAllPages(db, view, viewer, None);
      all == EnrichAll(db, viewer, FeedRows(db, view, viewer)) &&
      (forall i, j :: 0 <= i < j < |all| ==> Before(KeyOfTweet(all[i]), KeyOfTweet(all[j]))) &&
      (forall i, j :: 0 <= i < j < |all| ==> all[i].id != all[j].id)
  {
    var all := FetchAllPages(db, view, viewer, None);
    var rows := FeedRows(db, view, viewer);
    PagesCoverRemaining(db, view, viewer, None);
    OrderedRowsSorted(db.tweets, db.follows, WhereOf(view, viewer));
    forall i, j | 0 <= i < j < |all|
      ensures Before(KeyOfTweet(all[i]), KeyOfTweet(all[j])) && all[i].id != all[j].id
    {
      assert KeyOfTweet(all[i]) == KeyOf(rows[i]) && KeyOfTweet(all[j]) == KeyOf(rows[j]);
      BeforeIrreflexive(KeyOf(rows[i]));
      FeedRowsMembers(db, view, viewer, rows[i]);
      FeedRowsMembers(db, view, viewer, rows[j]);
      if rows[i].id == rows[j].id {
        SameIdSameRow(db.tweets, rows[i], rows[j]);
      }
    }
  }

  /** The database after a new tweet is appended. */
  function WithTweet(db: Db, row: TweetRow): Db {
    db.(tweets := db.tweets + [row])
  }

  /**
   * Keyset pages are stable under inserts: a tweet added ahead of a cursor
   * (newer than the cursor row, as a freshly created tweet is) leaves the
   * page at that cursor, and hence all later pages, unchanged.
   */
  lemma NewerTweetLeavesPageUnchanged(db: Db, row: TweetRow, input: FeedInput, viewer: Option<UserId>)
    requires UniqueIds(db.tweets) && forall x :: x in db.tweets ==> x.id != row.id
    requires input.cursor.Some? && Before(KeyOf(row), input.cursor.value)
    ensures FeedPageOf(WithTweet(db, row), input, viewer) == FeedPageOf(db, input, viewer)
  {
    var db' := WithTweet(db, row);
    WithTweetUnique(db, row);
    NewerTweetLeavesRemainingUnchanged(db, row, input.view, viewer, input.cursor.value);
    assert Fetched(db', input, viewer) == Fetched(db, input, viewer);
    var data := Fetched(db, input, viewer);
    var limit := LimitOf(input.view);
    EnrichAllLikesOnly(db, db', viewer, data);
    EnrichAllLikesOnly(db, db', viewer, data[..if |data| > limit then limit else |data|]);
  }

  /** Enrichment reads only the Like relation of the database. */
  lemma EnrichAllLikesOnly(db: Db, db': Db, viewer: Option<UserId>, rows: seq<TweetRow>)
    requires db.likes == db'.likes
    ensures EnrichAll(db, viewer, rows) == EnrichAll(db', viewer, rows)
  {
    var a := EnrichAll(db, viewer, rows);
    var b := EnrichAll(db', viewer, rows);
    forall i | 0 <= i < |rows|
      ensures a[i] == b[i]
    {
    }
  }

  lemma WithTweetUnique(db: Db, row: TweetRow)
    requires UniqueIds(db.tweets) && forall x :: x in db.tweets ==> x.id != row.id
    ensures UniqueIds(WithTweet(db, row).tweets)
  {
    var s := WithTweet(db, row).tweets;
    forall i, j | 0 <= i < j < |s|
      ensures s[i].id != s[j].id
    {
      if j == |db.tweets| {
        assert s[i] == db.tweets[i];
        assert s[i] in db.tweets;
      } else {
        assert s[i] == db.tweets[i] && s[j] == db.tweets[j];
      }
    }
  }

  lemma NewerTweetLeavesRemainingUnchanged(db: Db, row: TweetRow, view: View, viewer: Option<UserId>, c: Cursor)
    requires UniqueIds(db.tweets) && UniqueIds(WithTweet(db, row).tweets)
    requires Before(KeyOf(row), c)
    ensures Remaining(WithTweet(db, row), view, viewer, Some(c)) == Remaining(db, view, viewer, Some(c))
  {
    var db' := WithTweet(db, row);
    var a := FeedRows(db', view, viewer);
    var b := FeedRows(db, view, viewer);
    OrderedRowsSorted(db'.tweets, db'.follows, WhereOf(view, viewer));
    OrderedRowsSorted(db.tweets, db.follows, WhereOf(view, viewer));
    DropBeforeSorted(a, Some(c));
    DropBeforeSorted(b, Some(c));
    forall x
      ensures x in DropBefore(a, Some(c)) <==> x in DropBefore(b, Some(c))
    {
      DropBeforeMembers(a, c, x);
      DropBeforeMembers(b, c, x);
      FeedRowsMembers(db', view, viewer, x);
      FeedRowsMembers(db, view, viewer, x);
      if x == row {
        BeforeAsymmetric(KeyOf(row), c);
      }
    }
    SortedUnique(DropBefore(a, Some(c)), DropBefore(b, Some(c)));
  }

  /** The Like relation after flipping one pair. */
  function ToggledLikes(likes: set<Like>, l: Like): (r: set<Like>)
    ensures l in r <==> l !in likes
    ensures forall m :: m != l ==> (m in r <==> m in likes)
  {
    if l in likes then likes - {l} else likes + {l}
  }

  function ToggledDb(db: Db, l: Like): Db {
    db.(likes := ToggledLikes(db.likes, l))
  }

  /**
   * A toggle flips the one pair and no other, so the toggled tweet's like
   * count moves by exactly one (up when the pair was absent, down when it
   * was present) and every other tweet's count stays.
   */
  lemma {:induction false} ToggleMovesCount(likes: set<Like>, l: Like, tweetId: TweetId)
    ensures l in ToggledLikes(likes, l) <==> l !in likes
    ensures forall m :: m != l ==> (m in ToggledLikes(likes, l) <==> m in likes)
    ensures |LikesOf(ToggledLikes(likes, l), tweetId)| ==
      if tweetId != l.tweetId then |LikesOf(likes, tweetId)|
      else if l in likes then |LikesOf(likes, tweetId)| - 1
      else |LikesOf(likes, tweetId)| + 1
  {
    var before := LikesOf(likes, tweetId);
    var after := LikesOf(ToggledLikes(likes, l), tweetId);
    if tweetId != l.tweetId {
      assert after == before;
    } else if l in likes {
      assert after == before - {l};
    } else {
      assert after == before + {l};
    }
  }

  /** Two toggles in a row alternate the state and restore the original Like relation. */
  lemma ToggleTwiceRestores(likes: set<Like>, l: Like)
    ensures (l in ToggledLikes(likes, l)) != (l in likes)
    ensures ToggledLikes(ToggledLikes(likes, l), l) == likes
  {
  }

  /** The stored tables. */
  class Database {
    var tweets: seq<TweetRow>
    var likes: set<Like>
    var follows: set<Follow>

    ghost predicate Valid()
      reads this
    {
      UniqueIds(tweets)
    }

    function Snapshot(): Db
      reads this
    {
      Db(tweets, likes, follows)
    }

    constructor (tweets: seq<TweetRow>, likes: set<Like>, follows: set<Follow>)
      requires UniqueIds(tweets)
      ensures Valid() && Snapshot() == Db(tweets, likes, follows)
    {
      this.tweets := tweets;
      this.likes := likes;
      this.follows := follows;
    }

    /**
     * `infiniteFeed`: fetch one row more than the limit, pop it off if it
     * came back and make it the next cursor, then enrich the rest.
     */
    method InfiniteFeed(input: FeedInput, session: Option<UserId>) returns (page: FeedPage)
      ensures page == FeedPageOf(Snapshot(), input, session)
    {
      var limit := input.view.limit.GetOr(DefaultLimit);
      var currentUserId := session;
      var db := Snapshot();
      assert limit == LimitOf(input.view);
      var data := FindMany(tweets, follows, WhereOf(input.view, currentUserId), input.cursor, limit + 1);
      assert data == Fetched(db, input, session);
      PageOfFetched(db, input, session);
      var nextCursor: Option<Cursor> := None;
      if |data| > limit {
        var nextItem := data[|data| - 1];
        data := data[..|data| - 1];
        nextCursor := Some(Cursor(nextItem.id, nextItem.createdAt));
      }
      page := FeedPage(EnrichAll(db, currentUserId, data), nextCursor);
    }

    /**
     * `create`: a protected procedure storing a tweet authored by the caller.
     * The id and the timestamp come from the database.
     */
    method Create(session: Option<UserId>, content: string, newId: TweetId, now: int) returns (r: Result<TweetRow, Error>)
      requires Valid()
      requires forall x :: x in tweets ==> x.id != newId
      modifies this
      ensures Valid()
      ensures likes == old(likes) && follows == old(follows)
      ensures session.None? ==> r == Err(Unauthorized) && tweets == old(tweets)
      ensures session.Some? ==>
        r == Ok(TweetRow(newId, content, now, session.value)) && tweets == old(tweets) + [r.value]
    {
      if session.None? {
        return Err(Unauthorized);
      }
      var tweet := TweetRow(newId, content, now, session.value);
      tweets := tweets + [tweet];
      r := Ok(tweet);
    }

    /**
     * `toggleLike`: a protected procedure that looks up the caller's like of
     * the tweet, deletes it when present and creates it when absent, and
     * reports whether a like was added.
     */
    method ToggleLike(session: Option<UserId>, id: TweetId) returns (r: Result<bool, Error>)
      requires Valid()
      modifies this
      ensures Valid()
      ensures tweets == old(tweets) && follows == old(follows)
      ensures session.None? ==> r == Err(Unauthorized) && likes == old(likes)
      ensures session.Some? ==>
        r == Ok(Like(session.value, id) !in old(likes)) &&
        likes == ToggledLikes(old(likes), Like(session.value, id))
    {
      if session.None? {
        return Err(Unauthorized);
      }
      var data := Like(session.value, id);
      var existingLike := data in likes;
      if !existingLike {
        likes := likes + {data};
        r := Ok(true);
      } else {
        likes := likes - {data};
        r := Ok(false);
      }
    }
  }
}
