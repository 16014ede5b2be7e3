# Article rating: a verified model of the rating flush and the rating views

The Django application `articles` lets authenticated users rate articles from
0 to 5. Ratings live in two tables:

- the ledger, `Rating`, which holds at most one row per (article, user);
- the stage, `PendingRating`, which holds votes waiting to be applied. Each
  pending vote remembers `last_rate`, the value it replaces in the ledger
  (`None` for a user's first vote on the article).

Every article stores a running aggregate, `num_ratings` and `avg_rating`. The
periodic task `process_pending_ratings` groups the pending votes by article.
For each article it applies the batch to the aggregate incrementally:

- the new sum is the old sum plus the batch size times the difference of the
  two batch averages;
- the count grows by the number of first votes.

It then upserts every pending vote into the ledger and empties the stage, all
in one transaction.

The model has one module per concern:

- `Models`: articles and ledger rows, with their `__str__` forms.
- `PendingRatings`: the staged vote.
- `Tables` and `Ledger`: tables as sequences of rows in primary-key order, the
  `unique_together` keys, the ledger's per-article count and sum, and
  `update_or_create`.
- `Database`: the `Db` class, the integrity the schema and its writers keep,
  and the cascading deletes.
- `Tasks`: the flush. It is a per-article loop over the grouped batches that
  updates the aggregate and then upserts the batch's rows.
- `Views`: the synchronous submit endpoint and the article listing.

The central result is `Tasks.ProcessPendingRatings`. Suppose that before the
flush:

- every stored aggregate describes its article's ledger rows exactly (count =
  number of rows, count × average = sum of ratings);
- every pending `last_rate` is the ledger's current value.

Then the flush succeeds, and afterwards every aggregate again describes the
updated ledger. The average is kept exact, as a `real`. When the stored
aggregate is inconsistent, the count can reach 0 and the division at
tasks.py:40 fails. The model reports that as a rolled-back transaction: the
database is unchanged.

Two writers change the ledger without touching the aggregates:

- the submit view;
- the user cascade.

`Views.SubmitLeavesStaleAggregate` and `Database.DeleteUserLeavesStaleAggregate`
each exhibit a concrete database on which consistency is lost.

`models.py` declares neither the `PendingRating` class nor the aggregate
fields, yet `tasks.py` imports and uses them. Migration 0004 has no `last_rate`
column. The model follows the code that uses them:

- the aggregate fields come from migration 0003, with default 0;
- `last_rate` is taken from tasks.py:19-21.

`ArticleListView.get` annotates `num_ratings` and `avg_rating`, the same names
as the stored fields. With the fields declared, as migration 0003 and
`tasks.py` require, Django rejects an annotation named after a model field,
so the view could not run. The listing is modelled for `models.py` as it
stands, without those fields: the entries carry the annotation, that is the
ledger's count and mean.

## Model

| member | source | states |
|---|---|---|
| Models.RatingStr | article_rating/articles/models.py:9-24 | the printed rating is, position by position, "Rating ", the rating's decimal form, " by ", the rating user's username, " for " and the printed form (the title) of the rated article |
| Models.RatingStrShowsRating | article_rating/articles/models.py:16-24 | for a rating in 0..5 the character after "Rating " is its digit, followed by " by " and the username |
| Models.RatingStrReadsBack | article_rating/articles/models.py:24 | the digits printed for a non-negative rating parse back to the rating |
| Models.NatToStringRoundTrip | article_rating/articles/models.py:24 | the decimal digits printed for a number read back as that number |
| Tables.Filter | article_rating/articles/tasks.py:46 | a filtered table is no longer than the table and holds exactly its rows that pass the test |
| Tables.FilterUnique | article_rating/articles/models.py:21 | deleting rows keeps a unique key unique |
| Ledger.Find | article_rating/articles/views.py:131 | `.first()`: the index found has the key and no earlier row has it; none is found only when no row has the key |
| Ledger.Lookup | article_rating/articles/views.py:90-91 | the row found is in the table and has the key; none is found exactly when no row has the key |
| Ledger.LookupUpsert | article_rating/articles/tasks.py:48-52 | after `update_or_create` the key reads the new row and every other key reads as before |
| Ledger.UpsertInPlace | article_rating/articles/tasks.py:48-52 | on a unique ledger an upsert keeps the key unique, grows the table only for a new key, leaves one row for the key with the new value and the refreshed `created_at`, and changes no other row |
| Ledger.UpsertAggregates | article_rating/articles/tasks.py:48-52 | an upsert moves the article's count by one only for a new key, and its sum by the new value minus the old |
| Ledger.UpsertRows | article_rating/articles/tasks.py:48-52 | every row after an upsert is an old row or the new one |
| Ledger.CountZeroNoRows | article_rating/articles/models.py:14-21 | an article with count 0 has no rating by any user |
| Ledger.CountZeroSumZero | article_rating/articles/views.py:84 | an article with no ledger rows has sum 0 |
| Ledger.SumBounds | article_rating/articles/models.py:16 | with every rating in 0..5, an article's sum lies between 0 and 5 times its count |
| Ledger.WithoutArticleEffect | article_rating/articles/models.py:14 | the article cascade keeps exactly the rows of other articles, and every other article's keys read as before |
| Ledger.WithoutUserEffect | article_rating/articles/models.py:15 | the user cascade keeps exactly the rows of other users, and every other user's keys read as before |
| Ledger.WithoutArticleAggregates | article_rating/articles/models.py:14 | the article cascade zeroes the deleted article's count and sum and keeps every other article's |
| PendingRatings.PendingWithoutArticleEffect | article_rating/articles/migrations/0004_pendingrating.py:22 | deleting an article keeps exactly the other articles' pending votes, still unique per (article, user) |
| PendingRatings.PendingWithoutUserEffect | article_rating/articles/migrations/0004_pendingrating.py:23 | deleting a user keeps exactly the other users' pending votes, still unique per (article, user) |
| Database.Db.constructor | article_rating/articles/models.py:5-21 | an empty database is valid and consistent |
| Database.Db.DeleteArticle | article_rating/articles/models.py:14 | deleting an article removes it, its ledger rows and its pending votes, keeps the database valid, and keeps a consistent database consistent |
| Database.Db.DeleteUser | article_rating/articles/models.py:15 | deleting a user removes the user, the user's ledger rows and pending votes, keeps the database valid and keeps every pending `last_rate` matching the ledger |
| Database.DeleteArticleKeepsConsistency | article_rating/articles/migrations/0004_pendingrating.py:22 | after the article cascade every remaining aggregate and every remaining `last_rate` still matches the ledger |
| Database.DeleteUserKeepsPendingConsistency | article_rating/articles/migrations/0004_pendingrating.py:23 | after the user cascade every remaining `last_rate` still matches the ledger |
| Database.DeleteUserLeavesStaleAggregate | article_rating/articles/models.py:15 | a consistent database on which the user cascade leaves a stored aggregate counting a deleted rating |
| Database.NewArticleMatches | article_rating/articles/migrations/0003_article_avg_rating_article_num_ratings.py:13-22 | an article with the defaults of migration 0003 summarises no ratings (count 0, average 0.0), and so matches its ledger while that holds no rows of it |
| Tasks.CountNew | article_rating/articles/tasks.py:21 | the number of first votes never exceeds the batch size |
| Tasks.StatsAppend | article_rating/articles/tasks.py:17-22 | the new-vote count, the sum of ratings and the sum of `Coalesce(last_rate, 0)` of two batches together are the sums of each |
| Tasks.AllNewCount | article_rating/articles/tasks.py:21 | a batch of first votes only counts every vote as new |
| Tasks.RevisionsCountNoNew | article_rating/articles/tasks.py:21 | a batch of revisions only counts no new vote |
| Tasks.PendingArticles | article_rating/articles/tasks.py:17 | `values('article')`: the grouped articles are distinct, and an article is grouped exactly when it has pending votes |
| Tasks.StatsOf | article_rating/articles/tasks.py:17-22 | a group's size is its number of votes, its new count counts the `last_rate` None votes, and size × (current average − last average) is the sum of ratings minus the sum of non-null `last_rate` |
| Tasks.UpdateAggregate | article_rating/articles/tasks.py:37-40 | the update fails exactly when the new count is 0; otherwise it keeps title and content, adds the new votes to the count, and makes count × average the old count × average plus the batch delta |
| Tasks.ApplyUpdates | article_rating/articles/tasks.py:27-41 | applying the per-article updates keeps the set of articles and leaves every article outside the groups unchanged |
| Tasks.ApplyUpdatesStep | article_rating/articles/tasks.py:27-41 | one more group fails for a missing article or a zero divisor, and otherwise replaces exactly that article |
| Tasks.ApplyUpdatesEffect | article_rating/articles/tasks.py:27-41 | over distinct articles whose updates all succeed, the result holds each article's own update |
| Tasks.ApplyRowsLookupOn | article_rating/articles/tasks.py:46-52 | after promotion each pending vote's key reads its promoted ledger row |
| Tasks.ApplyRowsLookupOff | article_rating/articles/tasks.py:46-52 | promotion leaves every key without a pending vote as it was |
| Tasks.ApplyRowsAggregates | article_rating/articles/tasks.py:46-52 | promoting votes whose `last_rate` is the ledger value adds the new votes to each article's count and the batch delta to its sum |
| Tasks.ApplyRowsUnique | article_rating/articles/tasks.py:46-52 | promotion keeps (article, user) unique in the ledger |
| Tasks.ApplyRowsRows | article_rating/articles/tasks.py:46-52 | every ledger row after promotion is an old row or a promoted vote |
| Tasks.OrderedBatch | article_rating/articles/tasks.py:27-52 | visiting the pending table article by article yields, for each grouped article, exactly its batch |
| Tasks.OrderedUnique | article_rating/articles/tasks.py:27-52 | the votes visited article by article are still unique per (article, user) |
| Tasks.PendingVisited | article_rating/articles/tasks.py:27-52 | every pending vote is visited by the per-article loop |
| Tasks.GroupedFacts | article_rating/articles/tasks.py:17-22 | there is one group per grouped article, each with that article's batch statistics |
| Tasks.DivisorNonZero | article_rating/articles/tasks.py:39-40 | on a consistent database the count after a non-empty batch is positive, so the division cannot fail |
| Tasks.FlushSucceeds | article_rating/articles/tasks.py:27-41 | on a consistent database every per-article update succeeds and the flushed article holds its own update |
| Tasks.FlushedArticleMatches | article_rating/articles/tasks.py:37-52 | on a consistent database each article's flushed aggregate describes its rows in the updated ledger |
| Tasks.FlushKeepsConsistency | article_rating/articles/tasks.py:37-53 | main invariant: a consistent flush succeeds and every aggregate describes the updated ledger |
| Tasks.UpdateMatches | article_rating/articles/tasks.py:37-40 | an aggregate summarising n rows with sum s, updated by a batch with delta d and k new votes, summarises n + k rows with sum s + d |
| Tasks.FlushPromotesPending | article_rating/articles/tasks.py:46-52 | after the flush each pending (article, user, rating) has a ledger row with that rating |
| Tasks.FlushKeepsUntouchedRows | article_rating/articles/tasks.py:46-52 | ledger rows without a pending vote are unchanged by the flush |
| Tasks.RevisionOnlyBatch | article_rating/articles/tasks.py:39 | a batch of revisions only keeps the count and still shifts count × average by the batch delta |
| Tasks.SplitBatch | article_rating/articles/tasks.py:37-40 | applying two batches one after the other gives the same aggregate as applying them together |
| Tasks.StatsPermutation | article_rating/articles/tasks.py:17-22 | any two listings of the same pending entries (equal multisets) have the same number of first votes, the same sum of ratings and the same sum of non-null `last_rate` |
| Tasks.BatchOrderIrrelevant | article_rating/articles/tasks.py:17-22 | two batches holding the same entries in any order (equal multisets) have equal group statistics, so the grouped query does not depend on the order of the votes |
| Tasks.FlushEmptyIsNoOp | article_rating/articles/tasks.py:17-53 | with no pending votes the flush changes no article and no ledger row, so a second run is a no-op |
| Tasks.FlushKeepsIntegrity | article_rating/articles/tasks.py:46-53 | the flush keeps foreign keys, choices and uniqueness, and leaves the stage empty |
| Tasks.PromoteBatch | article_rating/articles/tasks.py:46-52 | the inner loop upserts exactly the article's batch into the ledger |
| Tasks.FlushGroups | article_rating/articles/tasks.py:27-52 | the per-article loop succeeds exactly when every update does, and then yields the updated articles and the ledger with every batch promoted |
| Tasks.ProcessPendingRatings | article_rating/articles/tasks.py:15-53 | the flush keeps the database valid; on success it updates the articles, promotes the votes and empties the stage; on failure nothing changes; a consistent database flushes successfully and stays consistent |
| Views.SubmitRating | article_rating/articles/views.py:114-139 | 400 exactly for a missing or out-of-range rating, 404 exactly for an unknown article, both without change; otherwise 200, the user's single row for the article holds the value, the table grows only for a first vote, no other key changes and the database stays valid |
| Views.SubmitLeavesStaleAggregate | article_rating/articles/views.py:131-139 | a consistent database on which one accepted vote leaves the stored aggregate stale |
| Views.Mean | article_rating/articles/views.py:84-97 | count × mean is the sum, and the mean is 0 without values |
| Views.ListingEntry | article_rating/articles/views.py:89-99 | an entry carries the article's id, title and content, its ledger count, a mean whose product with the count is the ledger sum (0 without rows), and no user rating exactly when the user has no row |
| Views.ArticleList | article_rating/articles/views.py:82-102 | one entry per article, ids distinct and covering the table, each the listing entry of its article |
| Views.ListingMatchesStoredAggregate | article_rating/articles/views.py:82-97 | on a consistent database the listed count and mean are the stored `num_ratings` and `avg_rating` |
| Views.MeanBounds | article_rating/articles/views.py:84-97 | the mean of values from 0 to 5 lies between 0 and 5 |
| Views.SummaryMean | article_rating/articles/views.py:84-97 | a stored aggregate that summarises n values with sum s holds their mean, 0 when there are none |
| Views.ListingAverageInRange | article_rating/articles/views.py:84-97 | with every rating in 0..5 a listed mean lies between 0 and 5 |
| Views.ListingUserRating | article_rating/articles/views.py:90-91 | on a unique ledger the listed user rating is v exactly when the user's row for the article has value v |

## Left out

- `Views.Mean`: the `Avg('ratings__rating')` of views.py:84 is a float in the source; the model lists the exact quotient of the ledger sum by the count.
- `Tasks.StatsOf`: the two `Avg` values of tasks.py:18-19 are floating-point in the source; the model uses exact quotients of the integer sums.
- `Tasks.UpdateAggregate`: the average is kept exact; the `round(..., 2)` and the `FloatField` storage of tasks.py:40 are not modelled, so the consistency invariant holds only for the exact average.
- The Celery task decorator, `transaction.atomic` and `select_for_update`: the flush is one sequential step that either commits or leaves the database unchanged.
- Logging and the commented-out cache of the listing.
- `calculate_weighted_average` and the response bodies: the weighted average depends on the wall clock and floating-point decay, so the submit model returns the status code only.
- `LoginView` and `SignupView`: authentication is a precondition of the views (the user is in the user table).
- The code that creates `PendingRating` rows is not part of this model; the consistency of `last_rate` with the ledger is a precondition (`Database.PendingConsistent`).
- `Views.SubmitRating`: a JSON rating that is not an integer (a float or a string) is not modelled; the request value is an optional integer.
- The `created_at` refresh of a pending vote happens in the staging code, which is not part of this model.
- `Tasks.PendingArticles`: SQL `GROUP BY` returns groups in no fixed order; the model visits articles in order of first pending vote.
- `Views.ArticleList`: models the view for `models.py` as it stands; with the aggregate fields that migration 0003 and the flush use, the annotation at views.py:82-85 collides with them and the request fails, which the model does not capture.
- `Tasks.FlushPromotesPending`: every save of one flush carries the same timestamp `now`, while each `auto_now` save in the source reads the clock afresh, so the exact `created_at` of a promoted row is an abstraction.
- `Views.ArticleList`: the queryset has no ordering; the model takes the articles in an arbitrary order, so the order of the entries is not specified.
- Migration 0002 and the rest of 0003 are schema history; only 0003's defaults are used, for a new article.
