/**
 * The synchronous endpoints of articles/views.py that read and write the
 * ledger: `SubmitRatingView.post`, which validates a vote and writes it
 * straight into the `Rating` table, and `ArticleListView.get`, which lists
 * every article with its ledger count, ledger mean and the caller's own
 * rating.
 */
module Views {
  import opened Wrappers
  import opened Tables
  import opened Models
  import opened Ledger
  import opened Database

  const HTTP_200_OK: int := 200
  const HTTP_400_BAD_REQUEST: int := 400
  const HTTP_404_NOT_FOUND: int := 404

  /**
   * The check at the head of `SubmitRatingView.post`: a rating is present
   * and lies between 0 and 5. `None` is a request body without `rating`.
   */
  predicate ValidRating(rating: Option<int>) {
    rating.Some? && IsRatingChoice(rating.value)
  }

  /**
   * `SubmitRatingView.post` for the authenticated `user`: 400 for a missing
   * or out-of-range rating, 404 for an unknown article, otherwise the
   * user's row for the article is overwritten in place or a new row is
   * appended, and 200. The stored aggregate is not touched.
   */
  method SubmitRating(db: Db, user: UserId, articleId: ArticleId, rating: Option<int>, now: Timestamp)
    returns (status: int)
    requires db.Valid() && user in db.users
    modifies db
    ensures db.Valid()
    ensures status == HTTP_400_BAD_REQUEST <==> !ValidRating(rating)
    ensures status == HTTP_404_NOT_FOUND <==> ValidRating(rating) && articleId !in old(db.articles)
    ensures status == HTTP_200_OK <==> ValidRating(rating) && articleId in old(db.articles)
    ensures status != HTTP_200_OK ==> unchanged(db)
    ensures status == HTTP_200_OK ==>
              && db.ratings == Upsert(old(db.ratings), articleId, user, rating.value, now)
              && db.articles == old(db.articles) && db.users == old(db.users) && db.pending == old(db.pending)
    ensures status == HTTP_200_OK ==>
              && Lookup(db.ratings, articleId, user) == Some(Rating(articleId, user, rating.value, now))
              && |db.ratings| == |old(db.ratings)| + (if RatingOf(old(db.ratings), articleId, user).None? then 1 else 0)
              && (forall b: ArticleId, w: UserId :: (b, w) != (articleId, user) ==> Lookup(db.ratings, b, w) == Lookup(old(db.ratings), b, w))
  {
    if rating.None? || !(0 <= rating.value <= 5) {
      return HTTP_400_BAD_REQUEST;
    }
    if articleId !in db.articles {
      return HTTP_404_NOT_FOUND;
    }
    var value := rating.value;
    var old_ratings := db.ratings;
    UpsertInPlace(old_ratings, articleId, user, value, now);
    UpsertRows(old_ratings, articleId, user, value, now);
    forall b: ArticleId, w: UserId | (b, w) != (articleId, user)
      ensures Lookup(Upsert(old_ratings, articleId, user, value, now), b, w) == Lookup(old_ratings, b, w)
    {
      LookupUpsert(old_ratings, articleId, user, value, now, b, w);
    }
    var existing := Find(db.ratings, articleId, user);
    if existing.Some? {
      var k := existing.value;
      db.ratings := db.ratings[k := db.ratings[k].(rating := value, createdAt := now)];
    } else {
      db.ratings := db.ratings + [Rating(articleId, user, value, now)];
    }
    return HTTP_200_OK;
  }

  /**
   * The submit view bypasses the stored aggregate: from a database whose
   * aggregates agree with the ledger, one accepted vote leaves article 1
   * with a ledger row while its stored count stays 0.
   */
  lemma SubmitLeavesStaleAggregate()
    ensures var articles := map[1 := NewArticle("title", "content")];
      && AggregatesConsistent(articles, [])
      && !AggregatesConsistent(articles, Upsert([], 1, 7, 4, 0))
  {
    var articles := map[1 := NewArticle("title", "content")];
    var after := Upsert([], 1, 7, 4, 0);
    assert after == [Rating(1, 7, 4, 0)];
    assert Count(after, 1) == 1 by {
      assert after[..0] == [];
    }
    assert !AggregateMatches(articles[1], after, 1);
  }

  /** One element of the response of `ArticleListView.get`. */
  datatype ArticleEntry = ArticleEntry(
    id: ArticleId,
    title: string,
    content: string,
    numRatings: nat,
    avgRating: real,
    userRating: Option<int>)

  /** `Avg` over `n` values summing to `total`, read as 0 when there are none. */
  function Mean(total: int, n: nat): (m: real)
    ensures n > 0 ==> n as real * m == total as real
    ensures n == 0 ==> m == 0.0
  {
    if n == 0 then 0.0
    else
      assert n as real * (total as real / n as real) == total as real;
      total as real / n as real
  }

  /**
   * The listing entry of article `a` for `user`: its fields, the number of
   * its ledger rows, their mean (0 without rows) and the user's own rating.
   */
  function ListingEntry(a: ArticleId, art: Article, rs: seq<Rating>, user: UserId): (e: ArticleEntry)
    ensures e.id == a && e.title == art.title && e.content == art.content
    ensures e.numRatings == Count(rs, a)
    ensures e.numRatings as real * e.avgRating == Sum(rs, a) as real
    ensures e.numRatings == 0 ==> e.avgRating == 0.0
    ensures e.userRating.None? <==> forall r :: r in rs ==> !HasKey(r, a, user)
  {
    var n := Count(rs, a);
    if n == 0 then
      CountZeroSumZero(rs, a);
      ArticleEntry(a, art.title, art.content, 0, 0.0, RatingOf(rs, a, user))
    else
      ArticleEntry(a, art.title, art.content, n, Mean(Sum(rs, a), n), RatingOf(rs, a, user))
  }

  /**
   * `ArticleListView.get` for `user`: one entry per article, built by
   * appending in a loop over the article table. The queryset has no
   * ordering, so the articles are taken in an arbitrary order.
   */
  method ArticleList(db: Db, user: UserId) returns (list: seq<ArticleEntry>)
    ensures |list| == |db.articles|
    ensures forall i, j :: 0 <= i < j < |list| ==> list[i].id != list[j].id
    ensures forall i :: 0 <= i < |list| ==>
              list[i].id in db.articles && list[i] == ListingEntry(list[i].id, db.articles[list[i].id], db.ratings, user)
    ensures forall a :: a in db.articles <==> a in Ids(list)
  {
    var articles, ratings := db.articles, db.ratings;
    list := [];
    var remaining := articles.Keys;
    while remaining != {}
      invariant ListedSoFar(list, remaining, articles, ratings, user)
      decreases |remaining|
    {
      var a :| a in remaining;
      ListStep(list, remaining, a, articles, ratings, user);
      list := list + [ListingEntry(a, articles[a], ratings, user)];
      remaining := remaining - {a};
    }
    ListDone(list, articles, ratings, user);
  }

  /** `e` is the listing entry of an article of the table. */
  predicate IsEntryOf(e: ArticleEntry, articles: map<ArticleId, Article>, rs: seq<Rating>, user: UserId) {
    e.id in articles && e == ListingEntry(e.id, articles[e.id], rs, user)
  }

  /** The listing loop's invariant: `list` holds the entries of the articles not in `remaining`, once each. */
  ghost predicate ListedSoFar(list: seq<ArticleEntry>, remaining: set<ArticleId>,
                              articles: map<ArticleId, Article>, rs: seq<Rating>, user: UserId)
  {
    && remaining <= articles.Keys
    && (forall i :: 0 <= i < |list| ==> IsEntryOf(list[i], articles, rs, user) && list[i].id !in remaining)
    && (forall i, j :: 0 <= i < j < |list| ==> list[i].id != list[j].id)
    && (forall a :: a in articles <==> a in Ids(list) || a in remaining)
    && |list| + |remaining| == |articles.Keys|
  }

  lemma ListStep(list: seq<ArticleEntry>, remaining: set<ArticleId>, a: ArticleId,
                 articles: map<ArticleId, Article>, rs: seq<Rating>, user: UserId)
    requires ListedSoFar(list, remaining, articles, rs, user) && a in remaining
    ensures ListedSoFar(list + [ListingEntry(a, articles[a], rs, user)], remaining - {a}, articles, rs, user)
  {
    var e := ListingEntry(a, articles[a], rs, user);
    var list', remaining' := list + [e], remaining - {a};
    IdsSnoc(list, e);
    assert |remaining'| == |remaining| - 1;
    forall i | 0 <= i < |list'| ensures IsEntryOf(list'[i], articles, rs, user) && list'[i].id !in remaining' {
      if i < |list| {
        assert list'[i] == list[i];
      }
    }
    forall i, j | 0 <= i < j < |list'| ensures list'[i].id != list'[j].id {
      if j < |list| {
        assert list'[i] == list[i] && list'[j] == list[j];
      } else {
        assert list'[i] == list[i];
      }
    }
  }

  lemma ListDone(list: seq<ArticleEntry>, articles: map<ArticleId, Article>, rs: seq<Rating>, user: UserId)
    requires ListedSoFar(list, {}, articles, rs, user)
    ensures |list| == |articles|
    ensures forall i, j :: 0 <= i < j < |list| ==> list[i].id != list[j].id
    ensures forall i :: 0 <= i < |list| ==> list[i].id in articles && list[i] == ListingEntry(list[i].id, articles[list[i].id], rs, user)
    ensures forall a :: a in articles <==> a in Ids(list)
  {
    assert |articles.Keys| == |articles|;
    forall i | 0 <= i < |list|
      ensures list[i].id in articles && list[i] == ListingEntry(list[i].id, articles[list[i].id], rs, user)
    {
      assert IsEntryOf(list[i], articles, rs, user);
    }
  }

  /** The ids of the entries of a listing. */
  function Ids(list: seq<ArticleEntry>): (ids: set<ArticleId>)
    ensures forall i :: 0 <= i < |list| ==> list[i].id in ids
    ensures forall a :: a in ids ==> exists i :: 0 <= i < |list| && list[i].id == a
  {
    if list == [] then {} else Ids(list[..|list| - 1]) + {list[|list| - 1].id}
  }

  lemma IdsSnoc(list: seq<ArticleEntry>, e: ArticleEntry)
    ensures Ids(list + [e]) == Ids(list) + {e.id}
  {
    assert (list + [e])[..|list|] == list;
  }

  /**
   * On a database whose stored aggregates agree with the ledger, the count
   * and mean the listing computes are the stored `num_ratings` and
   * `avg_rating`.
   */
  lemma ListingMatchesStoredAggregate(articles: map<ArticleId, Article>, rs: seq<Rating>, a: ArticleId, user: UserId)
    requires a in articles && AggregatesConsistent(articles, rs)
    ensures ListingEntry(a, articles[a], rs, user).numRatings == articles[a].numRatings
    ensures ListingEntry(a, articles[a], rs, user).avgRating == articles[a].avgRating
  {
    var art, n, total := articles[a], Count(rs, a), Sum(rs, a);
    assert AggregateMatches(art, rs, a);
    SummaryMean(art, n, total);
  }

  /** A stored aggregate that summarises `n` values with sum `total` holds their mean. */
  lemma SummaryMean(art: Article, n: nat, total: int)
    requires Summarises(art, n, total)
    ensures art.avgRating == if n == 0 then 0.0 else Mean(total, n)
  {
    if n != 0 {
      CancelCount(n as real, art.avgRating, Mean(total, n));
    }
  }

  lemma CancelCount(n: real, x: real, y: real)
    requires n != 0.0 && n * x == n * y
    ensures x == y
  {
  }

  /** With every ledger rating among the declared choices, a listed mean lies between 0 and 5. */
  lemma ListingAverageInRange(a: ArticleId, art: Article, rs: seq<Rating>, user: UserId)
    requires forall r :: r in rs ==> IsRatingChoice(r.rating)
    ensures 0.0 <= ListingEntry(a, art, rs, user).avgRating <= 5.0
  {
    var n, total := Count(rs, a), Sum(rs, a);
    assert ListingEntry(a, art, rs, user).avgRating == if n == 0 then 0.0 else Mean(total, n);
    SumBounds(rs, a);
    if n != 0 {
      MeanBounds(total, n);
    }
  }

  /** The mean of `n` values from 0 to 5 lies between 0 and 5. */
  lemma MeanBounds(total: int, n: nat)
    requires n > 0 && 0 <= total <= 5 * n
    ensures 0.0 <= Mean(total, n) <= 5.0
  {
    RealMeanBounds(n as real, Mean(total, n), total as real);
  }

  lemma RealMeanBounds(n: real, m: real, s: real)
    requires n > 0.0 && n * m == s && 0.0 <= s <= 5.0 * n
    ensures 0.0 <= m <= 5.0
  {
  }

  /**
   * With the ledger key unique, the listed `user_rating` is `v` exactly when
   * the ledger holds the user's row for the article with value `v`.
   */
  lemma ListingUserRating(a: ArticleId, art: Article, rs: seq<Rating>, user: UserId, v: int)
    requires Unique(rs, RatingKey)
    ensures ListingEntry(a, art, rs, user).userRating == Some(v) <==>
            exists r :: r in rs && r.article == a && r.user == user && r.rating == v
  {
    if r :| r in rs && r.article == a && r.user == user && r.rating == v {
      var found := Lookup(rs, a, user);
      assert found.Some? by {
        assert HasKey(r, a, user);
      }
      var i :| 0 <= i < |rs| && rs[i] == r;
      var j :| 0 <= j < |rs| && rs[j] == found.value;
      assert RatingKey(rs[i]) == RatingKey(rs[j]);
      assert i == j;
    }
  }
}
