/**
 * The database the article-rating application works on: the `Article`,
 * `auth_user`, `Rating` and `PendingRating` tables, the integrity the schema
 * and the writers keep, and the consistency between the stored aggregates,
 * the ledger and the pending table that the rating flush relies on.
 */
module Database {
  import opened Wrappers
  import opened Tables
  import opened Models
  import opened Ledger
  import opened PendingRatings

  /**
   * What the schema enforces (foreign keys, `unique_together`) and what the
   * writers keep (ratings among the declared choices, which the database
   * itself does not check).
   */
  ghost predicate Integrity(articles: map<ArticleId, Article>, users: map<UserId, string>,
                            ratings: seq<Rating>, pending: seq<PendingRating>)
  {
    && (forall r :: r in ratings ==> r.article in articles && r.user in users && IsRatingChoice(r.rating))
    && Unique(ratings, RatingKey)
    && (forall p :: p in pending ==> p.article in articles && p.user in users && IsRatingChoice(p.rating))
    && Unique(pending, PendingKey)
  }

  /** The stored count is `n` and count times average is `total` (an average of 0 when there are none). */
  predicate Summarises(art: Article, n: nat, total: int) {
    && art.numRatings == n
    && art.numRatings as real * art.avgRating == total as real
    && (n == 0 ==> art.avgRating == 0.0)
  }

  /** The stored aggregate of article `a` describes its ledger rows exactly. */
  ghost predicate AggregateMatches(art: Article, rs: seq<Rating>, a: ArticleId) {
    Summarises(art, Count(rs, a), Sum(rs, a))
  }

  ghost predicate AggregatesConsistent(articles: map<ArticleId, Article>, rs: seq<Rating>) {
    forall a :: a in articles ==> AggregateMatches(articles[a], rs, a)
  }

  /** Every pending entry remembers the ledger value it replaces (`None` for a first vote). */
  ghost predicate PendingConsistent(rs: seq<Rating>, ps: seq<PendingRating>) {
    forall p :: p in ps ==> RatingOf(rs, p.article, p.user) == p.lastRate
  }

  class Db {
    var articles: map<ArticleId, Article>
    /** `auth_user`: the username of each user. */
    var users: map<UserId, string>
    var ratings: seq<Rating>
    var pending: seq<PendingRating>

    ghost predicate Valid()
      reads this
    {
      Integrity(articles, users, ratings, pending)
    }

    ghost predicate Consistent()
      reads this
    {
      AggregatesConsistent(articles, ratings) && PendingConsistent(ratings, pending)
    }

    /** An empty database. */
    constructor ()
      ensures Valid() && Consistent()
      ensures articles == map[] && users == map[] && ratings == [] && pending == []
    {
      articles, users, ratings, pending := map[], map[], [], [];
    }

    /** Deleting an article cascades to its ledger rows and its pending entries. */
    method DeleteArticle(a: ArticleId)
      requires Valid()
      modifies this
      ensures Valid()
      ensures articles == old(articles) - {a} && users == old(users)
      ensures ratings == WithoutArticle(old(ratings), a)
      ensures pending == PendingWithoutArticle(old(pending), a)
      ensures old(Consistent()) ==> Consistent()
    {
      ghost var consistent := Consistent();
      FilterUnique(ratings, NotOfArticle(a), RatingKey);
      PendingWithoutArticleEffect(pending, a);
      if consistent {
        DeleteArticleKeepsConsistency(articles, ratings, pending, a);
      }
      articles := articles - {a};
      ratings := WithoutArticle(ratings, a);
      pending := PendingWithoutArticle(pending, a);
    }

    /**
     * Deleting a user cascades to that user's ledger rows and pending
     * entries. The stored aggregates are not touched, so they keep counting
     * the deleted ratings (see DeleteUserLeavesStaleAggregate).
     */
    method DeleteUser(u: UserId)
      requires Valid()
      modifies this
      ensures Valid()
      ensures users == old(users) - {u} && articles == old(articles)
      ensures ratings == WithoutUser(old(ratings), u)
      ensures pending == PendingWithoutUser(old(pending), u)
      ensures old(PendingConsistent(ratings, pending)) ==> PendingConsistent(ratings, pending)
    {
      FilterUnique(ratings, NotOfUser(u), RatingKey);
      PendingWithoutUserEffect(pending, u);
      if PendingConsistent(ratings, pending) {
        DeleteUserKeepsPendingConsistency(ratings, pending, u);
      }
      users := users - {u};
      ratings := WithoutUser(ratings, u);
      pending := PendingWithoutUser(pending, u);
    }
  }

  /** Deleting an article keeps every other article's aggregate and every remaining pending entry consistent. */
  lemma DeleteArticleKeepsConsistency(articles: map<ArticleId, Article>, rs: seq<Rating>,
                                      ps: seq<PendingRating>, a: ArticleId)
    requires AggregatesConsistent(articles, rs) && PendingConsistent(rs, ps)
    ensures AggregatesConsistent(articles - {a}, WithoutArticle(rs, a))
    ensures PendingConsistent(WithoutArticle(rs, a), PendingWithoutArticle(ps, a))
  {
    forall b | b in articles - {a} ensures AggregateMatches((articles - {a})[b], WithoutArticle(rs, a), b) {
      WithoutArticleAggregates(rs, a, b);
    }
    forall p | p in PendingWithoutArticle(ps, a)
      ensures RatingOf(WithoutArticle(rs, a), p.article, p.user) == p.lastRate
    {
      WithoutArticleEffect(rs, a, p.article, p.user);
    }
  }

  /** Deleting a user keeps every remaining pending entry consistent with the ledger. */
  lemma DeleteUserKeepsPendingConsistency(rs: seq<Rating>, ps: seq<PendingRating>, u: UserId)
    requires PendingConsistent(rs, ps)
    ensures PendingConsistent(WithoutUser(rs, u), PendingWithoutUser(ps, u))
  {
    forall p | p in PendingWithoutUser(ps, u)
      ensures RatingOf(WithoutUser(rs, u), p.article, p.user) == p.lastRate
    {
      WithoutUserEffect(rs, u, p.article, p.user);
    }
  }

  /**
   * The user cascade removes ledger rows without adjusting the stored
   * aggregate: one article rated 4 by one user is consistent before the
   * user is deleted and inconsistent after.
   */
  lemma DeleteUserLeavesStaleAggregate()
    ensures var articles := map[1 := Article("t", "c", 1, 4.0)];
            var rs := [Rating(1, 7, 4, 0)];
            AggregatesConsistent(articles, rs) && !AggregatesConsistent(articles, WithoutUser(rs, 7))
  {
    var articles := map[1 := Article("t", "c", 1, 4.0)];
    var rs := [Rating(1, 7, 4, 0)];
    assert rs[..0] == [];
    assert Count(rs, 1) == 1 && Sum(rs, 1) == 4;
    assert AggregateMatches(articles[1], rs, 1);
    assert WithoutUser(rs, 7) == [] by {
      FilterSnoc([], Rating(1, 7, 4, 0), NotOfUser(7));
      assert rs == [] + [Rating(1, 7, 4, 0)];
    }
    assert !AggregateMatches(articles[1], WithoutUser(rs, 7), 1);
  }

  /**
   * A new article with the migration defaults summarises no ratings (count 0,
   * average 0), and so matches its ledger while that has no rows of it.
   */
  lemma {:induction false} NewArticleMatches(rs: seq<Rating>, id: ArticleId, title: string, content: string)
    requires forall r :: r in rs ==> r.article != id
    ensures Summarises(NewArticle(title, content), 0, 0)
    ensures AggregateMatches(NewArticle(title, content), rs, id)
  {
    if rs != [] {
      var init := rs[..|rs| - 1];
      assert forall r :: r in init ==> r in rs;
      NewArticleMatches(init, id, title, content);
      assert rs[|rs| - 1] in rs;
    }
  }
}
