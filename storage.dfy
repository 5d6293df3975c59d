/**
 * The storage collaborator seen by the tweet router: a Tweet table, a Like
 * relation and a follower relation, and the one query the feed issues,
 * `tweet.findMany({ where, orderBy, cursor, take })`.
 */
module Storage {
  import opened Wrappers
  import opened FeedOrder

  /** One row of the Tweet table; `userId` is the author. */
  datatype TweetRow = TweetRow(id: TweetId, content: string, createdAt: int, userId: UserId)

  /** One row of the Like relation, unique per `(userId, tweetId)`. */
  datatype Like = Like(userId: UserId, tweetId: TweetId)

  /** `follower` follows `followee`. */
  datatype Follow = Follow(follower: UserId, followee: UserId)

  /** A snapshot of the database. */
  datatype Db = Db(tweets: seq<TweetRow>, likes: set<Like>, follows: set<Follow>)

  function KeyOf(r: TweetRow): Cursor {
    Cursor(r.id, r.createdAt)
  }

  /** Tweet ids are the table's primary key. */
  ghost predicate UniqueIds(s: seq<TweetRow>) {
    forall i, j :: 0 <= i < j < |s| ==> s[i].id != s[j].id
  }

  /** Strictly in feed order, so no two entries share a key. */
  ghost predicate Sorted(s: seq<TweetRow>) {
    forall i, j :: 0 <= i < j < |s| ==> Before(KeyOf(s[i]), KeyOf(s[j]))
  }

  lemma SameIdSameRow(s: seq<TweetRow>, x: TweetRow, y: TweetRow)
    requires UniqueIds(s) && x in s && y in s && x.id == y.id
    ensures x == y
  {
    var i :| 0 <= i < |s| && s[i] == x;
    var j :| 0 <= j < |s| && s[j] == y;
    assert !(i < j) && !(j < i);
  }

  /** The `where` clause of the feed query. */
  datatype Where = AllTweets | AuthoredBy(author: UserId) | FollowedBy(viewer: UserId)

  predicate Matches(w: Where, r: TweetRow, follows: set<Follow>) {
    match w
    case AllTweets => true
    case AuthoredBy(a) => r.userId == a
    case FollowedBy(v) => Follow(v, r.userId) in follows
  }

  /** The rows of `s` that satisfy `w`, in table order. */
  function Filter(s: seq<TweetRow>, w: Where, follows: set<Follow>): (r: seq<TweetRow>)
    ensures forall x :: x in r <==> x in s && Matches(w, x, follows)
  {
    if s == [] then []
    else (if Matches(w, s[0], follows) then [s[0]] else []) + Filter(s[1..], w, follows)
  }

  lemma {:induction false} FilterUnique(s: seq<TweetRow>, w: Where, follows: set<Follow>)
    requires UniqueIds(s)
    ensures UniqueIds(Filter(s, w, follows))
  {
    if s != [] {
      var rest := Filter(s[1..], w, follows);
      FilterUnique(s[1..], w, follows);
      forall x | x in rest
        ensures x.id != s[0].id
      {
        var k :| 0 <= k < |s[1..]| && s[1..][k] == x;
        assert s[k + 1] == x;
      }
    }
  }

  /** Inserts `r` at its place in a list kept in feed order. */
  function Insert(r: TweetRow, s: seq<TweetRow>): (t: seq<TweetRow>)
    ensures multiset(t) == multiset(s) + multiset{r}
  {
    if s == [] then [r]
    else if Before(KeyOf(s[0]), KeyOf(r)) then
      assert s == [s[0]] + s[1..];
      [s[0]] + Insert(r, s[1..])
    else [r] + s
  }

  lemma {:induction false} InsertSorted(r: TweetRow, s: seq<TweetRow>)
    requires Sorted(s)
    requires forall x :: x in s ==> x.id != r.id
    ensures Sorted(Insert(r, s))
  {
    if s == [] {
    } else if Before(KeyOf(s[0]), KeyOf(r)) {
      var t := Insert(r, s[1..]);
      InsertSorted(r, s[1..]);
      forall j | 0 <= j < |t|
        ensures Before(KeyOf(s[0]), KeyOf(t[j]))
      {
        assert t[j] in multiset(t);
        if t[j] != r {
          assert t[j] in multiset(s[1..]);
          var k :| 0 <= k < |s[1..]| && s[1..][k] == t[j];
          assert s[k + 1] == t[j];
        }
      }
      var u := [s[0]] + t;
      forall i, j | 0 <= i < j < |u|
        ensures Before(KeyOf(u[i]), KeyOf(u[j]))
      {
        if i > 0 {
          assert u[i] == t[i - 1] && u[j] == t[j - 1];
        } else {
          assert u[j] == t[j - 1];
        }
      }
    } else {
      assert s[0] in s;
      BeforeTotal(KeyOf(s[0]), KeyOf(r));
      forall j | 0 <= j < |s|
        ensures Before(KeyOf(r), KeyOf(s[j]))
      {
        if j > 0 {
          BeforeTransitive(KeyOf(r), KeyOf(s[0]), KeyOf(s[j]));
        }
      }
    }
  }

  /** The `orderBy: [{createdAt: "desc"}, {id: "desc"}]` of the query. */
  function SortFeed(s: seq<TweetRow>): (t: seq<TweetRow>)
    ensures multiset(t) == multiset(s)
  {
    if s == [] then []
    else
      assert s == [s[0]] + s[1..];
      Insert(s[0], SortFeed(s[1..]))
  }

  lemma SortFeedMembers(s: seq<TweetRow>, x: TweetRow)
    ensures x in SortFeed(s) <==> x in s
  {
    assert x in SortFeed(s) <==> x in multiset(SortFeed(s));
  }

  lemma {:induction false} SortFeedSorted(s: seq<TweetRow>)
    requires UniqueIds(s)
    ensures Sorted(SortFeed(s))
  {
    if s != [] {
      var rest := SortFeed(s[1..]);
      SortFeedSorted(s[1..]);
      forall x | x in rest
        ensures x.id != s[0].id
      {
        SortFeedMembers(s[1..], x);
        var k :| 0 <= k < |s[1..]| && s[1..][k] == x;
        assert s[k + 1] == x;
      }
      InsertSorted(s[0], rest);
    }
  }

  /** The rows satisfying `w`, in feed order. */
  function OrderedRows(tweets: seq<TweetRow>, follows: set<Follow>, w: Where): seq<TweetRow> {
    SortFeed(Filter(tweets, w, follows))
  }

  lemma OrderedRowsSorted(tweets: seq<TweetRow>, follows: set<Follow>, w: Where)
    requires UniqueIds(tweets)
    ensures Sorted(OrderedRows(tweets, follows, w))
  {
    FilterUnique(tweets, w, follows);
    SortFeedSorted(Filter(tweets, w, follows));
  }

  /**
   * The part of an ordered list from the cursor on: every row listed before
   * the cursor key is skipped, and the cursor row itself is kept (the cursor
   * is inclusive).
   */
  function DropBefore(s: seq<TweetRow>, cursor: Option<Cursor>): (t: seq<TweetRow>)
    ensures |t| <= |s| && t == s[|s| - |t|..]
  {
    if cursor.Some? && s != [] && Before(KeyOf(s[0]), cursor.value) then DropBefore(s[1..], cursor)
    else s
  }

  /** On a sorted list the cursor of a row resumes exactly at that row. */
  lemma {:induction false} DropBeforeAt(s: seq<TweetRow>, i: nat)
    requires Sorted(s) && i < |s|
    ensures DropBefore(s, Some(KeyOf(s[i]))) == s[i..]
  {
    if i == 0 {
      BeforeIrreflexive(KeyOf(s[0]));
    } else {
      assert Before(KeyOf(s[0]), KeyOf(s[i]));
      assert s[1..][i - 1] == s[i];
      DropBeforeAt(s[1..], i - 1);
    }
  }

  /** On a sorted list the rows kept are exactly those not listed before the cursor. */
  lemma {:induction false} DropBeforeMembers(s: seq<TweetRow>, c: Cursor, x: TweetRow)
    requires Sorted(s)
    ensures x in DropBefore(s, Some(c)) <==> x in s && !Before(KeyOf(x), c)
  {
    if s != [] {
      if Before(KeyOf(s[0]), c) {
        DropBeforeMembers(s[1..], c, x);
        assert s == [s[0]] + s[1..];
      } else if x in s && Before(KeyOf(x), c) {
        var k :| 0 <= k < |s| && s[k] == x;
        assert k != 0;
        BeforeTransitive(KeyOf(s[0]), KeyOf(x), c);
      }
    }
  }

  /** Resuming at the k-th row kept by a cursor drops exactly the k rows before it. */
  lemma DropBeforeNext(s: seq<TweetRow>, cursor: Option<Cursor>, k: nat)
    requires Sorted(s) && k < |DropBefore(s, cursor)|
    ensures DropBefore(s, Some(KeyOf(DropBefore(s, cursor)[k]))) == DropBefore(s, cursor)[k..]
  {
    var i := |s| - |DropBefore(s, cursor)| + k;
    DropBeforeShift(s, cursor, k);
    DropBeforeAt(s, i);
  }

  lemma DropBeforeShift(s: seq<TweetRow>, cursor: Option<Cursor>, k: nat)
    requires k < |DropBefore(s, cursor)|
    ensures var i := |s| - |DropBefore(s, cursor)| + k;
      i < |s| && DropBefore(s, cursor)[k] == s[i] && DropBefore(s, cursor)[k..] == s[i..]
  {
    var t := DropBefore(s, cursor);
    var d := |s| - |t|;
    assert t == s[d..];
    assert t[k..] == s[d + k..];
  }

  lemma DropBeforeMember(s: seq<TweetRow>, cursor: Option<Cursor>, i: nat)
    requires i < |DropBefore(s, cursor)|
    ensures DropBefore(s, cursor)[i] in s
  {
    DropBeforeShift(s, cursor, i);
  }

  lemma DropBeforeSorted(s: seq<TweetRow>, cursor: Option<Cursor>)
    requires Sorted(s)
    ensures Sorted(DropBefore(s, cursor))
  {
    var t := DropBefore(s, cursor);
    var d := |s| - |t|;
    assert t == s[d..];
    forall i, j | 0 <= i < j < |t|
      ensures Before(KeyOf(t[i]), KeyOf(t[j]))
    {
      assert t[i] == s[d + i];
      assert t[j] == s[d + j];
    }
  }

  /** The first element of a non-empty list is one of its members. */
  lemma HeadIsMember(s: seq<TweetRow>)
    requires s != []
    ensures s[0] in s
  {
  }

  /** Two sorted lists with the same members are the same list. */
  lemma {:induction false} SortedUnique(a: seq<TweetRow>, b: seq<TweetRow>)
    requires Sorted(a) && Sorted(b)
    requires forall x :: x in a <==> x in b
    ensures a == b
    decreases |a|
  {
    if a == [] {
      if b != [] {
        HeadIsMember(b);
        assert false;
      }
    } else {
      assert a[0] in a;
      assert b != [];
      assert b[0] in b;
      if a[0] != b[0] {
        var k :| 0 <= k < |b| && b[k] == a[0];
        var m :| 0 <= m < |a| && a[m] == b[0];
        assert k != 0 && m != 0;
        BeforeAsymmetric(KeyOf(b[0]), KeyOf(a[0]));
      }
      forall x
        ensures x in a[1..] <==> x in b[1..]
      {
        if x in a[1..] {
          var k :| 0 <= k < |a[1..]| && a[1..][k] == x;
          assert a[k + 1] == x;
          BeforeIrreflexive(KeyOf(x));
          assert x in b;
          assert x != b[0];
        }
        if x in b[1..] {
          var k :| 0 <= k < |b[1..]| && b[1..][k] == x;
          assert b[k + 1] == x;
          BeforeIrreflexive(KeyOf(x));
          assert x in a;
          assert x != a[0];
        }
      }
      SortedUnique(a[1..], b[1..]);
      assert a == [a[0]] + a[1..] && b == [b[0]] + b[1..];
    }
  }

  /** The first `n` rows (`take`). */
  function Take(s: seq<TweetRow>, n: nat): seq<TweetRow> {
    if n < |s| then s[..n] else s
  }

  /**
   * `findMany({ where: w, orderBy, cursor, take })`: at most `take` rows
   * satisfying `w`, in feed order, starting at the cursor row.
   */
  function FindMany(tweets: seq<TweetRow>, follows: set<Follow>, w: Where, cursor: Option<Cursor>, take: nat): (rows: seq<TweetRow>)
    ensures |rows| <= take
    ensures rows <= DropBefore(OrderedRows(tweets, follows, w), cursor)
    ensures |rows| < take ==> rows == DropBefore(OrderedRows(tweets, follows, w), cursor)
  {
    Take(DropBefore(OrderedRows(tweets, follows, w), cursor), take)
  }

  /** The Like rows of one tweet (`_count: { select: { likes: true } }` counts these). */
  function LikesOf(likes: set<Like>, tweetId: TweetId): set<Like> {
    set l | l in likes && l.tweetId == tweetId
  }
}
