/**
 * The `PendingRating` entity (articles/migrations/0004_pendingrating.py):
 * a vote staged for the next flush, at most one per (article, user).
 * `lastRate` is the column the flush reads in articles/tasks.py: the
 * user's ledger value when the vote was staged, or `None` for a first vote.
 */
module PendingRatings {
  import opened Wrappers
  import opened Tables
  import opened Models

  datatype PendingRating = PendingRating(
    article: ArticleId,
    user: UserId,
    rating: int,
    lastRate: Option<int>,
    createdAt: Timestamp)

  /** The `unique_together` key of the pending table. */
  function PendingKey(p: PendingRating): (ArticleId, UserId) {
    (p.article, p.user)
  }

  function PendingNotOfArticle(a: ArticleId): PendingRating -> bool {
    (p: PendingRating) => p.article != a
  }

  function PendingNotOfUser(u: UserId): PendingRating -> bool {
    (p: PendingRating) => p.user != u
  }

  /** `on_delete=CASCADE` from `Article`: the pending table without the entries of article `a`. */
  function PendingWithoutArticle(ps: seq<PendingRating>, a: ArticleId): seq<PendingRating> {
    Filter(ps, PendingNotOfArticle(a))
  }

  /** `on_delete=CASCADE` from `User`: the pending table without the entries of user `u`. */
  function PendingWithoutUser(ps: seq<PendingRating>, u: UserId): seq<PendingRating> {
    Filter(ps, PendingNotOfUser(u))
  }

  /** Deleting an article removes exactly its pending entries and keeps the key unique. */
  lemma PendingWithoutArticleEffect(ps: seq<PendingRating>, a: ArticleId)
    requires Unique(ps, PendingKey)
    ensures forall p :: p in PendingWithoutArticle(ps, a) <==> p in ps && p.article != a
    ensures Unique(PendingWithoutArticle(ps, a), PendingKey)
  {
    FilterUnique(ps, PendingNotOfArticle(a), PendingKey);
  }

  /** Deleting a user removes exactly that user's pending entries and keeps the key unique. */
  lemma PendingWithoutUserEffect(ps: seq<PendingRating>, u: UserId)
    requires Unique(ps, PendingKey)
    ensures forall p :: p in PendingWithoutUser(ps, u) <==> p in ps && p.user != u
    ensures Unique(PendingWithoutUser(ps, u), PendingKey)
  {
    FilterUnique(ps, PendingNotOfUser(u), PendingKey);
  }
}
