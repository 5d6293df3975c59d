/**
 * The total order of the tweet feed: newest `createdAt` first, ties broken by
 * the larger `id` first. The same composite key `(id, createdAt)` is the
 * pagination cursor.
 */
module FeedOrder {

  type TweetId = string
  type UserId = string

  /** The composite key `createdAt_id` of a tweet, used as the feed cursor. */
  datatype Cursor = Cursor(id: TweetId, createdAt: int)

  /** Strict lexicographic order of identifiers, character by character. */
  predicate IdBelow(a: string, b: string)
    decreases |a|
  {
    if |a| == 0 then |b| > 0
    else |b| > 0 && (a[0] < b[0] || (a[0] == b[0] && IdBelow(a[1..], b[1..])))
  }

  lemma {:induction false} IdBelowIrreflexive(a: string)
    ensures !IdBelow(a, a)
    decreases |a|
  {
    if |a| > 0 {
      IdBelowIrreflexive(a[1..]);
    }
  }

  lemma {:induction false} IdBelowTransitive(a: string, b: string, c: string)
    requires IdBelow(a, b) && IdBelow(b, c)
    ensures IdBelow(a, c)
    decreases |a|
  {
    if |a| > 0 && a[0] == b[0] && b[0] == c[0] {
      IdBelowTransitive(a[1..], b[1..], c[1..]);
    }
  }

  lemma {:induction false} IdBelowTotal(a: string, b: string)
    requires a != b
    ensures IdBelow(a, b) || IdBelow(b, a)
    decreases |a|
  {
    if |a| > 0 && |b| > 0 && a[0] == b[0] {
      assert a == [a[0]] + a[1..] && b == [b[0]] + b[1..];
      IdBelowTotal(a[1..], b[1..]);
    }
  }

  /**
   * `x` is listed before `y` under `orderBy: [{createdAt: "desc"}, {id: "desc"}]`.
   */
  predicate Before(x: Cursor, y: Cursor) {
    x.createdAt > y.createdAt || (x.createdAt == y.createdAt && IdBelow(y.id, x.id))
  }

  lemma BeforeIrreflexive(x: Cursor)
    ensures !Before(x, x)
  {
    IdBelowIrreflexive(x.id);
  }

  lemma BeforeTransitive(x: Cursor, y: Cursor, z: Cursor)
    requires Before(x, y) && Before(y, z)
    ensures Before(x, z)
  {
    if x.createdAt == y.createdAt == z.createdAt {
      IdBelowTransitive(z.id, y.id, x.id);
    }
  }

  /** Two different keys are always comparable: the order is total. */
  lemma BeforeTotal(x: Cursor, y: Cursor)
    requires x != y
    ensures Before(x, y) || Before(y, x)
  {
    if x.createdAt == y.createdAt {
      IdBelowTotal(x.id, y.id);
    }
  }

  lemma BeforeAsymmetric(x: Cursor, y: Cursor)
    requires Before(x, y)
    ensures !Before(y, x)
  {
    if Before(y, x) {
      BeforeTransitive(x, y, x);
      BeforeIrreflexive(x);
    }
  }
}
