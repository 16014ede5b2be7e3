/**
 * The batched rating flush `process_pending_ratings` (articles/tasks.py).
 *
 * The pending table is grouped by article (count, count of first votes,
 * mean new value, mean prior value with a missing prior read as 0); each
 * article's stored aggregate is moved by the batch delta; every pending
 * value is promoted into the ledger; the pending table is cleared. The
 * whole run is one atomic unit: a division by zero rolls everything back.
 */
module Tasks {
  import opened Wrappers
  import opened Tables
  import opened Models
  import opened Ledger
  import opened PendingRatings
  import opened Database

  function OfArticle(a: ArticleId): PendingRating -> bool {
    (p: PendingRating) => p.article == a
  }

  /** `PendingRating.objects.filter(article=a)`: the batch of article `a`, in table order. */
  function Batch(ps: seq<PendingRating>, a: ArticleId): seq<PendingRating> {
    Filter(ps, OfArticle(a))
  }

  lemma BatchSnoc(ps: seq<PendingRating>, p: PendingRating, a: ArticleId)
    ensures Batch(ps + [p], a) == Batch(ps, a) + (if p.article == a then [p] else [])
  {
    FilterSnoc(ps, p, OfArticle(a));
  }

  /** `Count('rating', filter=Q(last_rate=None))`: entries of users who had no ledger row. */
  function CountNew(ps: seq<PendingRating>): (n: nat)
    ensures n <= |ps|
  {
    if ps == [] then 0
    else CountNew(ps[..|ps| - 1]) + (if ps[|ps| - 1].lastRate.None? then 1 else 0)
  }

  /** The sum behind `Avg('rating')`. */
  function SumCurrent(ps: seq<PendingRating>): int {
    if ps == [] then 0 else SumCurrent(ps[..|ps| - 1]) + ps[|ps| - 1].rating
  }

  /** The sum behind `Avg(Coalesce('last_rate', 0))`. */
  function SumLast(ps: seq<PendingRating>): int {
    if ps == [] then 0 else SumLast(ps[..|ps| - 1]) + ps[|ps| - 1].lastRate.GetOr(0)
  }

  lemma StatsSnoc(ps: seq<PendingRating>, p: PendingRating)
    ensures CountNew(ps + [p]) == CountNew(ps) + (if p.lastRate.None? then 1 else 0)
    ensures SumCurrent(ps + [p]) == SumCurrent(ps) + p.rating
    ensures SumLast(ps + [p]) == SumLast(ps) + p.lastRate.GetOr(0)
  {
    assert (ps + [p])[..|ps|] == ps;
  }

  /** The batch statistics add up over two parts of a batch. */
  lemma {:induction false} StatsAppend(xs: seq<PendingRating>, ys: seq<PendingRating>)
    ensures CountNew(xs + ys) == CountNew(xs) + CountNew(ys)
    ensures SumCurrent(xs + ys) == SumCurrent(xs) + SumCurrent(ys)
    ensures SumLast(xs + ys) == SumLast(xs) + SumLast(ys)
  {
    if ys == [] {
      assert xs + ys == xs;
    } else {
      var init, y := ys[..|ys| - 1], ys[|ys| - 1];
      assert ys == init + [y];
      assert xs + ys == (xs + init) + [y];
      StatsAppend(xs, init);
      StatsSnoc(xs + init, y);
      StatsSnoc(init, y);
    }
  }

  /** A batch made only of first votes counts every entry as a new rater. */
  lemma {:induction false} AllNewCount(ps: seq<PendingRating>)
    requires forall p :: p in ps ==> p.lastRate.None?
    ensures CountNew(ps) == |ps|
  {
    if ps != [] {
      assert forall p :: p in ps[..|ps| - 1] ==> p in ps;
      AllNewCount(ps[..|ps| - 1]);
    }
  }

  /** A batch made only of revisions has no new rater. */
  lemma {:induction false} RevisionsCountNoNew(ps: seq<PendingRating>)
    requires forall p :: p in ps ==> p.lastRate.Some?
    ensures CountNew(ps) == 0
  {
    if ps != [] {
      assert forall p :: p in ps[..|ps| - 1] ==> p in ps;
      RevisionsCountNoNew(ps[..|ps| - 1]);
    }
  }

  predicate Distinct(ids: seq<ArticleId>) {
    forall i, j :: 0 <= i < j < |ids| ==> ids[i] != ids[j]
  }

  /**
   * The articles that have pending entries, each once, in the order their
   * first entry appears: the groups of `values('article').annotate(...)`.
   */
  function PendingArticles(ps: seq<PendingRating>): (ids: seq<ArticleId>)
    ensures Distinct(ids)
    ensures forall a :: a in ids <==> Batch(ps, a) != []
  {
    if ps == [] then []
    else
      var init, p := ps[..|ps| - 1], ps[|ps| - 1];
      var ids := PendingArticles(init);
      PendingArticlesStep(init, p, ids);
      assert ps == init + [p];
      if p.article in ids then ids else ids + [p.article]
  }

  /** One more entry adds its article to the groups unless it is already there. */
  lemma PendingArticlesStep(init: seq<PendingRating>, p: PendingRating, ids: seq<ArticleId>)
    requires Distinct(ids) && forall a :: a in ids <==> Batch(init, a) != []
    ensures Distinct(if p.article in ids then ids else ids + [p.article])
    ensures forall a :: a in (if p.article in ids then ids else ids + [p.article]) <==> Batch(init + [p], a) != []
  {
    forall a ensures Batch(init + [p], a) == Batch(init, a) + (if p.article == a then [p] else []) {
      BatchSnoc(init, p, a);
    }
  }

  /** One row of the grouped query: the source's per-article annotations. */
  datatype GroupStats = GroupStats(
    article: ArticleId,
    avgCurrentRating: real,
    avgLastRating: real,
    numAllPendingRatings: nat,
    numNewRatings: nat)

  /** The net change a batch makes to the ledger sum: its count times the difference of the two means. */
  function NetOf(g: GroupStats): real {
    g.numAllPendingRatings as real * (g.avgCurrentRating - g.avgLastRating)
  }

  /**
   * The statistics of article `a`'s batch. The count times the difference
   * of the two means is the batch's net change to the ledger sum: the new
   * values minus the priors they replace, a missing prior counting 0.
   */
  function StatsOf(a: ArticleId, rows: seq<PendingRating>): (g: GroupStats)
    requires rows != []
    ensures g.article == a && g.numAllPendingRatings == |rows| > 0
    ensures g.numNewRatings == CountNew(rows)
    ensures NetOf(g) == (SumCurrent(rows) - SumLast(rows)) as real
  {
    var n := |rows| as real;
    var g := GroupStats(a, SumCurrent(rows) as real / n, SumLast(rows) as real / n, |rows|, CountNew(rows));
    assert n * (SumCurrent(rows) as real / n) == SumCurrent(rows) as real;
    assert n * (SumLast(rows) as real / n) == SumLast(rows) as real;
    g
  }

  /** The grouped query of `process_pending_ratings`, one entry per article with pending entries. */
  function Grouped(ps: seq<PendingRating>): seq<GroupStats> {
    var ids := PendingArticles(ps);
    seq(|ids|, i requires 0 <= i < |ids| => StatsOf(ids[i], Batch(ps, ids[i])))
  }

  /**
   * The aggregate update of one article: the sum is rebuilt as count times
   * average, moved by the batch delta, and divided by the count grown by the
   * new raters. `None` is the `ZeroDivisionError` of a count that stays 0.
   */
  function UpdateAggregate(art: Article, g: GroupStats): (r: Option<Article>)
    ensures r.None? <==> art.numRatings + g.numNewRatings == 0
    ensures r.Some? ==> r.value.title == art.title && r.value.content == art.content
    ensures r.Some? ==> r.value.numRatings == art.numRatings + g.numNewRatings
    ensures r.Some? ==> r.value.numRatings as real * r.value.avgRating ==
                        art.numRatings as real * art.avgRating
                        + g.numAllPendingRatings as real * (g.avgCurrentRating - g.avgLastRating)
  {
    var currentSum := art.numRatings as real * art.avgRating;
    var newSum := currentSum + g.numAllPendingRatings as real * (g.avgCurrentRating - g.avgLastRating);
    var n := art.numRatings + g.numNewRatings;
    if n == 0 then None
    else
      assert n as real * (newSum / n as real) == newSum;
      Some(art.(numRatings := n, avgRating := newSum / n as real))
  }

  /**
   * A run of per-article updates over the groups, in order: `step` turns a
   * stored article and its group into the updated article, or fails. `None`
   * when an article is missing or a step fails.
   */
  function ApplyUpdates(arts: map<ArticleId, Article>, gs: seq<GroupStats>,
                        step: (Article, GroupStats) -> Option<Article>): (r: Option<map<ArticleId, Article>>)
    ensures r.Some? ==> r.value.Keys == arts.Keys
    ensures r.Some? ==> forall a :: a in arts && (forall i :: 0 <= i < |gs| ==> gs[i].article != a) ==> r.value[a] == arts[a]
  {
    if gs == [] then Some(arts)
    else
      var init, g := gs[..|gs| - 1], gs[|gs| - 1];
      assert forall i :: 0 <= i < |init| ==> init[i] == gs[i];
      match ApplyUpdates(arts, init, step)
      case None => None
      case Some(m) =>
        if g.article !in m then None
        else
          match step(m[g.article], g)
          case None => None
          case Some(x) => Some(m[g.article := x])
  }

  /**
   * The aggregate updates of a run. `None` when an article is missing
   * (`Article.DoesNotExist`) or a count stays 0 (`ZeroDivisionError`): the
   * atomic block then rolls every update back.
   */
  function FlushArticles(arts: map<ArticleId, Article>, gs: seq<GroupStats>): Option<map<ArticleId, Article>> {
    ApplyUpdates(arts, gs, UpdateAggregate)
  }

  /** The rows of the pending table in the order the nested loop visits them: batch after batch. */
  function Ordered(ps: seq<PendingRating>, ids: seq<ArticleId>): seq<PendingRating> {
    if ids == [] then [] else Ordered(ps, ids[..|ids| - 1]) + Batch(ps, ids[|ids| - 1])
  }

  /** The ledger row a pending entry becomes. */
  function Promoted(p: PendingRating, now: Timestamp): Rating {
    Rating(p.article, p.user, p.rating, now)
  }

  /** The ledger after `update_or_create` of each of `rows`, in order. */
  function ApplyRows(rs: seq<Rating>, rows: seq<PendingRating>, now: Timestamp): seq<Rating> {
    if rows == [] then rs
    else
      var p := rows[|rows| - 1];
      Upsert(ApplyRows(rs, rows[..|rows| - 1], now), p.article, p.user, p.rating, now)
  }

  lemma ApplyRowsSnoc(rs: seq<Rating>, rows: seq<PendingRating>, p: PendingRating, now: Timestamp)
    ensures ApplyRows(rs, rows + [p], now) == Upsert(ApplyRows(rs, rows, now), p.article, p.user, p.rating, now)
  {
    assert (rows + [p])[..|rows|] == rows;
  }

  /** Keys that no promoted row carries keep their ledger row, timestamp included. */
  lemma {:induction false} ApplyRowsLookupOff(rs: seq<Rating>, rows: seq<PendingRating>, now: Timestamp, b: ArticleId, w: UserId)
    requires forall p :: p in rows ==> PendingKey(p) != (b, w)
    ensures Lookup(ApplyRows(rs, rows, now), b, w) == Lookup(rs, b, w)
  {
    if rows != [] {
      var init, p := rows[..|rows| - 1], rows[|rows| - 1];
      assert rows == init + [p];
      assert forall q :: q in init ==> q in rows;
      assert p in rows;
      ApplyRowsLookupOff(rs, init, now, b, w);
      LookupUpsert(ApplyRows(rs, init, now), p.article, p.user, p.rating, now, b, w);
    }
  }

  /** With one row per key, every promoted row ends up in the ledger with its value and a fresh timestamp. */
  lemma {:induction false} ApplyRowsLookupOn(rs: seq<Rating>, rows: seq<PendingRating>, now: Timestamp, p: PendingRating)
    requires Unique(rows, PendingKey) && p in rows
    ensures Lookup(ApplyRows(rs, rows, now), p.article, p.user) == Some(Promoted(p, now))
  {
    var init, q := rows[..|rows| - 1], rows[|rows| - 1];
    assert rows == init + [q];
    UniqueInit(rows, PendingKey);
    LookupUpsert(ApplyRows(rs, init, now), q.article, q.user, q.rating, now, p.article, p.user);
    if p != q {
      assert p in init;
      ApplyRowsLookupOn(rs, init, now, p);
    }
  }

  /**
   * Promoting rows whose priors match the ledger moves the count of each
   * article by its first votes and its sum by new values minus priors.
   */
  lemma {:induction false} ApplyRowsAggregates(rs: seq<Rating>, rows: seq<PendingRating>, now: Timestamp, b: ArticleId)
    requires Unique(rows, PendingKey)
    requires forall p :: p in rows ==> RatingOf(rs, p.article, p.user) == p.lastRate
    ensures Count(ApplyRows(rs, rows, now), b) == Count(rs, b) + CountNew(Batch(rows, b))
    ensures Sum(ApplyRows(rs, rows, now), b) == Sum(rs, b) + SumCurrent(Batch(rows, b)) - SumLast(Batch(rows, b))
  {
    if rows != [] {
      var init, p := rows[..|rows| - 1], rows[|rows| - 1];
      assert rows == init + [p];
      UniqueInit(rows, PendingKey);
      assert forall q :: q in init ==> q in rows;
      ApplyRowsAggregates(rs, init, now, b);
      var mid := ApplyRows(rs, init, now);
      assert ApplyRows(rs, rows, now) == Upsert(mid, p.article, p.user, p.rating, now);
      assert RatingOf(mid, p.article, p.user) == p.lastRate by {
        ApplyRowsLookupOff(rs, init, now, p.article, p.user);
        assert p in rows;
      }
      UpsertAggregates(mid, p.article, p.user, p.rating, now, b);
      BatchSnoc(init, p, b);
      if p.article == b {
        StatsSnoc(Batch(init, b), p);
      } else {
        assert Batch(rows, b) == Batch(init, b);
      }
    }
  }

  /** Promotion keeps the ledger key unique. */
  lemma {:induction false} ApplyRowsUnique(rs: seq<Rating>, rows: seq<PendingRating>, now: Timestamp)
    requires Unique(rs, RatingKey)
    ensures Unique(ApplyRows(rs, rows, now), RatingKey)
  {
    if rows != [] {
      var p := rows[|rows| - 1];
      ApplyRowsUnique(rs, rows[..|rows| - 1], now);
      UpsertInPlace(ApplyRows(rs, rows[..|rows| - 1], now), p.article, p.user, p.rating, now);
    }
  }

  /** Every row of the promoted ledger is an old row or a promoted pending entry. */
  lemma {:induction false} ApplyRowsRows(rs: seq<Rating>, rows: seq<PendingRating>, now: Timestamp)
    ensures forall r :: r in ApplyRows(rs, rows, now) ==> r in rs || exists p :: p in rows && r == Promoted(p, now)
  {
    if rows != [] {
      var init, p := rows[..|rows| - 1], rows[|rows| - 1];
      assert rows == init + [p];
      ApplyRowsRows(rs, init, now);
      UpsertRows(ApplyRows(rs, init, now), p.article, p.user, p.rating, now);
      forall r | r in ApplyRows(rs, rows, now) ensures r in rs || exists q :: q in rows && r == Promoted(q, now) {
        if r == Promoted(p, now) {
          assert p in rows;
        } else {
          assert r in ApplyRows(rs, init, now);
          if r !in rs {
            var q :| q in init && r == Promoted(q, now);
            assert q in rows;
          }
        }
      }
    }
  }

  /** Filtering a batch by article keeps it whole or empties it. */
  lemma {:induction false} BatchOfBatch(ps: seq<PendingRating>, a: ArticleId, b: ArticleId)
    ensures Batch(Batch(ps, a), b) == if a == b then Batch(ps, a) else []
  {
    if ps != [] {
      var init, p := ps[..|ps| - 1], ps[|ps| - 1];
      assert ps == init + [p];
      BatchOfBatch(init, a, b);
      BatchSnoc(init, p, a);
      if p.article == a {
        assert Batch(ps, a) == Batch(init, a) + [p];
        BatchSnoc(Batch(init, a), p, b);
        if a == b {
          assert Batch(Batch(ps, a), b) == Batch(Batch(init, a), b) + [p];
        } else {
          assert Batch(Batch(ps, a), b) == Batch(Batch(init, a), b);
        }
      } else {
        assert Batch(ps, a) == Batch(init, a);
      }
    }
  }

  lemma {:induction false} OrderedRows(ps: seq<PendingRating>, ids: seq<ArticleId>)
    ensures forall p :: p in Ordered(ps, ids) ==> p in ps && p.article in ids
  {
    if ids != [] {
      var init, a := ids[..|ids| - 1], ids[|ids| - 1];
      assert ids == init + [a];
      OrderedRows(ps, init);
    }
  }

  /** Visiting distinct articles batch after batch regroups each article's batch unchanged. */
  lemma {:induction false} OrderedBatch(ps: seq<PendingRating>, ids: seq<ArticleId>, b: ArticleId)
    requires Distinct(ids)
    ensures Batch(Ordered(ps, ids), b) == if b in ids then Batch(ps, b) else []
  {
    if ids != [] {
      var init, a := ids[..|ids| - 1], ids[|ids| - 1];
      assert ids == init + [a];
      assert Distinct(init);
      assert a !in init;
      OrderedBatch(ps, init, b);
      FilterAppend(Ordered(ps, init), Batch(ps, a), OfArticle(b));
      BatchOfBatch(ps, a, b);
    }
  }

  /** Visiting distinct articles batch after batch keeps the pending key unique. */
  lemma {:induction false} OrderedUnique(ps: seq<PendingRating>, ids: seq<ArticleId>)
    requires Unique(ps, PendingKey) && Distinct(ids)
    ensures Unique(Ordered(ps, ids), PendingKey)
  {
    if ids != [] {
      var init, a := ids[..|ids| - 1], ids[|ids| - 1];
      assert ids == init + [a];
      assert Distinct(init);
      assert a !in init;
      OrderedUnique(ps, init);
      OrderedRows(ps, init);
      FilterUnique(ps, OfArticle(a), PendingKey);
      UniqueAppend(Ordered(ps, init), Batch(ps, a), PendingKey);
    }
  }

  /** Every pending entry is visited by the run. */
  lemma PendingVisited(ps: seq<PendingRating>, p: PendingRating)
    requires p in ps
    ensures p in Ordered(ps, PendingArticles(ps))
  {
    var ids := PendingArticles(ps);
    assert p in Batch(ps, p.article);
    OrderedBatch(ps, ids, p.article);
    assert p in Batch(Ordered(ps, ids), p.article);
  }

  /**
   * The grouped query lists the pending articles in order, one row each,
   * holding the statistics of that article's non-empty batch.
   */
  lemma GroupedFacts(ps: seq<PendingRating>)
    ensures |Grouped(ps)| == |PendingArticles(ps)|
    ensures forall i :: 0 <= i < |Grouped(ps)| ==>
              Grouped(ps)[i].article == PendingArticles(ps)[i] &&
              Batch(ps, PendingArticles(ps)[i]) != [] &&
              Grouped(ps)[i] == StatsOf(PendingArticles(ps)[i], Batch(ps, PendingArticles(ps)[i]))
  {
    var ids := PendingArticles(ps);
    forall i | 0 <= i < |ids| ensures Batch(ps, ids[i]) != [] {
      assert ids[i] in ids;
    }
  }

  /** A run that fails on a prefix of the groups fails as a whole. */
  lemma {:induction false} ApplyUpdatesFailsFrom(arts: map<ArticleId, Article>, gs: seq<GroupStats>,
                                                 step: (Article, GroupStats) -> Option<Article>, k: nat)
    requires k <= |gs| && ApplyUpdates(arts, gs[..k], step).None?
    ensures ApplyUpdates(arts, gs, step).None?
    decreases |gs| - k
  {
    if k < |gs| {
      var init := gs[..|gs| - 1];
      assert init[..k] == gs[..k];
      ApplyUpdatesFailsFrom(arts, init, step, k);
    } else {
      assert gs[..k] == gs;
    }
  }

  /**
   * One group of the run: when its article is missing or its step fails
   * the whole run fails; otherwise the run's prefix grows by that article's
   * update.
   */
  lemma ApplyUpdatesStep(arts: map<ArticleId, Article>, gs: seq<GroupStats>,
                         step: (Article, GroupStats) -> Option<Article>, i: nat, m: map<ArticleId, Article>)
    requires i < |gs| && ApplyUpdates(arts, gs[..i], step) == Some(m)
    ensures gs[i].article !in m ==> ApplyUpdates(arts, gs, step).None?
    ensures gs[i].article in m && step(m[gs[i].article], gs[i]).None? ==> ApplyUpdates(arts, gs, step).None?
    ensures gs[i].article in m && step(m[gs[i].article], gs[i]).Some? ==>
              ApplyUpdates(arts, gs[..i + 1], step) == Some(m[gs[i].article := step(m[gs[i].article], gs[i]).value])
  {
    assert gs[..i + 1][..i] == gs[..i];
    if gs[i].article !in m || step(m[gs[i].article], gs[i]).None? {
      ApplyUpdatesFailsFrom(arts, gs, step, i + 1);
    }
  }

  /**
   * With distinct articles, each present and none whose step fails, the run
   * succeeds and gives each grouped article its own update.
   */
  lemma {:induction false} ApplyUpdatesEffect(arts: map<ArticleId, Article>, gs: seq<GroupStats>,
                                              step: (Article, GroupStats) -> Option<Article>)
    requires forall i, j :: 0 <= i < j < |gs| ==> gs[i].article != gs[j].article
    requires forall i :: 0 <= i < |gs| ==> gs[i].article in arts && step(arts[gs[i].article], gs[i]).Some?
    ensures ApplyUpdates(arts, gs, step).Some?
    ensures forall i :: 0 <= i < |gs| ==>
              ApplyUpdates(arts, gs, step).value[gs[i].article] == step(arts[gs[i].article], gs[i]).value
  {
    if gs != [] {
      var init, g := gs[..|gs| - 1], gs[|gs| - 1];
      assert forall i :: 0 <= i < |init| ==> init[i] == gs[i];
      ApplyUpdatesEffect(arts, init, step);
      var m := ApplyUpdates(arts, init, step).value;
      assert forall i :: 0 <= i < |init| ==> init[i].article != g.article;
      assert m[g.article] == arts[g.article];
      ApplyUpdatesStep(arts, gs, step, |gs| - 1, m);
      assert gs[..|gs|] == gs;
    }
  }

  /**
   * On a consistent database the divisor of the update is never 0: an
   * article whose count is 0 has no ledger rows, so each of its pending
   * entries is a first vote.
   */
  lemma DivisorNonZero(articles: map<ArticleId, Article>, rs: seq<Rating>, ps: seq<PendingRating>, a: ArticleId)
    requires AggregatesConsistent(articles, rs) && PendingConsistent(rs, ps)
    requires a in articles && Batch(ps, a) != []
    ensures articles[a].numRatings + CountNew(Batch(ps, a)) > 0
  {
    if articles[a].numRatings == 0 {
      forall p | p in Batch(ps, a) ensures p.lastRate.None? {
        CountZeroNoRows(rs, a, p.user);
      }
      AllNewCount(Batch(ps, a));
    }
  }

  /**
   * The main invariant. If before the run each stored count is the number
   * of the article's ledger rows and count times average is their sum, and
   * each pending entry's prior is that user's ledger value, then the run
   * succeeds and the same holds of the updated aggregates and ledger.
   */
  lemma FlushKeepsConsistency(articles: map<ArticleId, Article>, rs: seq<Rating>, ps: seq<PendingRating>, now: Timestamp)
    requires Unique(ps, PendingKey)
    requires forall p :: p in ps ==> p.article in articles
    requires AggregatesConsistent(articles, rs) && PendingConsistent(rs, ps)
    ensures FlushArticles(articles, Grouped(ps)).Some?
    ensures AggregatesConsistent(FlushArticles(articles, Grouped(ps)).value,
                                 ApplyRows(rs, Ordered(ps, PendingArticles(ps)), now))
  {
    FlushSucceeds(articles, rs, ps);
    var m := FlushArticles(articles, Grouped(ps)).value;
    forall a | a in m ensures AggregateMatches(m[a], ApplyRows(rs, Ordered(ps, PendingArticles(ps)), now), a) {
      FlushedArticleMatches(articles, rs, ps, now, a);
    }
  }

  /** On a consistent database every grouped article gets its own update and none divides by zero. */
  lemma FlushSucceeds(articles: map<ArticleId, Article>, rs: seq<Rating>, ps: seq<PendingRating>)
    requires forall p :: p in ps ==> p.article in articles
    requires AggregatesConsistent(articles, rs) && PendingConsistent(rs, ps)
    ensures FlushArticles(articles, Grouped(ps)).Some?
    ensures forall i :: 0 <= i < |Grouped(ps)| ==>
              && Grouped(ps)[i].article in articles
              && UpdateAggregate(articles[Grouped(ps)[i].article], Grouped(ps)[i]).Some?
              && FlushArticles(articles, Grouped(ps)).value[Grouped(ps)[i].article]
                 == UpdateAggregate(articles[Grouped(ps)[i].article], Grouped(ps)[i]).value
  {
    var ids := PendingArticles(ps);
    var gs := Grouped(ps);
    GroupedFacts(ps);
    forall i | 0 <= i < |gs|
      ensures gs[i].article in articles && UpdateAggregate(articles[gs[i].article], gs[i]).Some?
    {
      var p := Batch(ps, ids[i])[0];
      assert p in Batch(ps, ids[i]);
      DivisorNonZero(articles, rs, ps, ids[i]);
    }
    ApplyUpdatesEffect(articles, gs, UpdateAggregate);
  }

  /** One article's part of the main invariant. */
  lemma FlushedArticleMatches(articles: map<ArticleId, Article>, rs: seq<Rating>, ps: seq<PendingRating>,
                              now: Timestamp, a: ArticleId)
    requires Unique(ps, PendingKey)
    requires forall p :: p in ps ==> p.article in articles
    requires AggregatesConsistent(articles, rs) && PendingConsistent(rs, ps)
    requires a in articles
    ensures FlushArticles(articles, Grouped(ps)).Some?
    ensures AggregateMatches(FlushArticles(articles, Grouped(ps)).value[a],
                             ApplyRows(rs, Ordered(ps, PendingArticles(ps)), now), a)
  {
    var ids := PendingArticles(ps);
    var gs := Grouped(ps);
    var rows := Ordered(ps, ids);
    FlushSucceeds(articles, rs, ps);
    GroupedFacts(ps);
    var m := FlushArticles(articles, gs).value;
    var after := ApplyRows(rs, rows, now);
    OrderedUnique(ps, ids);
    OrderedRows(ps, ids);
    ApplyRowsAggregates(rs, rows, now, a);
    OrderedBatch(ps, ids, a);
    assert AggregateMatches(articles[a], rs, a);
    if a in ids {
      var i :| 0 <= i < |ids| && ids[i] == a;
      var batch := Batch(ps, a);
      assert m[a] == UpdateAggregate(articles[a], gs[i]).value;
      assert gs[i] == StatsOf(a, batch);
      DivisorNonZero(articles, rs, ps, a);
      BatchKeepsMatch(articles[a], rs, after, a, batch);
      assert AggregateMatches(m[a], after, a);
    } else {
      assert Batch(rows, a) == [];
      forall i | 0 <= i < |gs| ensures gs[i].article != a {
        assert gs[i].article == ids[i];
      }
      assert m[a] == articles[a];
      assert Count(after, a) == Count(rs, a) && Sum(after, a) == Sum(rs, a);
      SameTotalsMatch(articles[a], rs, after, a);
    }
  }

  lemma SameTotalsMatch(art: Article, rs: seq<Rating>, after: seq<Rating>, a: ArticleId)
    requires AggregateMatches(art, rs, a)
    requires Count(after, a) == Count(rs, a) && Sum(after, a) == Sum(rs, a)
    ensures AggregateMatches(art, after, a)
  {
  }

  /**
   * An update by a batch whose first votes and net change are what the
   * ledger gained keeps the stored aggregate in step with the ledger.
   */
  lemma BatchKeepsMatch(art: Article, rs: seq<Rating>, after: seq<Rating>, a: ArticleId, batch: seq<PendingRating>)
    requires batch != [] && AggregateMatches(art, rs, a)
    requires Count(after, a) == Count(rs, a) + CountNew(batch) && Count(after, a) != 0
    requires Sum(after, a) == Sum(rs, a) + SumCurrent(batch) - SumLast(batch)
    ensures UpdateAggregate(art, StatsOf(a, batch)).Some?
    ensures AggregateMatches(UpdateAggregate(art, StatsOf(a, batch)).value, after, a)
  {
    UpdateMatches(art, StatsOf(a, batch), Count(rs, a), Sum(rs, a), SumCurrent(batch) - SumLast(batch),
                  Count(after, a), Sum(after, a));
  }

  /** The count-and-sum form of BatchKeepsMatch, free of the tables. */
  lemma UpdateMatches(art: Article, g: GroupStats, n0: nat, s0: int, d: int, n1: nat, s1: int)
    requires Summarises(art, n0, s0) && NetOf(g) == d as real
    requires n1 == n0 + g.numNewRatings && n1 != 0 && s1 == s0 + d
    ensures UpdateAggregate(art, g).Some?
    ensures Summarises(UpdateAggregate(art, g).value, n1, s1)
  {
  }

  /** After a run every pending value is the ledger value of its (article, user). */
  lemma FlushPromotesPending(rs: seq<Rating>, ps: seq<PendingRating>, now: Timestamp, p: PendingRating)
    requires Unique(ps, PendingKey) && p in ps
    ensures Lookup(ApplyRows(rs, Ordered(ps, PendingArticles(ps)), now), p.article, p.user) == Some(Promoted(p, now))
  {
    OrderedUnique(ps, PendingArticles(ps));
    PendingVisited(ps, p);
    ApplyRowsLookupOn(rs, Ordered(ps, PendingArticles(ps)), now, p);
  }

  /** A ledger row with no pending entry survives a run unchanged. */
  lemma FlushKeepsUntouchedRows(rs: seq<Rating>, ps: seq<PendingRating>, now: Timestamp, b: ArticleId, w: UserId)
    requires forall p :: p in ps ==> PendingKey(p) != (b, w)
    ensures Lookup(ApplyRows(rs, Ordered(ps, PendingArticles(ps)), now), b, w) == Lookup(rs, b, w)
  {
    OrderedRows(ps, PendingArticles(ps));
    ApplyRowsLookupOff(rs, Ordered(ps, PendingArticles(ps)), now, b, w);
  }

  /**
   * A batch of revisions only leaves the count unchanged and still moves
   * the sum by new values minus priors.
   */
  lemma RevisionOnlyBatch(art: Article, a: ArticleId, rows: seq<PendingRating>)
    requires rows != [] && art.numRatings > 0
    requires forall p :: p in rows ==> p.lastRate.Some?
    ensures UpdateAggregate(art, StatsOf(a, rows)).Some?
    ensures UpdateAggregate(art, StatsOf(a, rows)).value.numRatings == art.numRatings
    ensures art.numRatings as real * UpdateAggregate(art, StatsOf(a, rows)).value.avgRating ==
            art.numRatings as real * art.avgRating + (SumCurrent(rows) - SumLast(rows)) as real
  {
    RevisionsCountNoNew(rows);
  }

  /**
   * Folding one batch in at once gives the same aggregate as folding its
   * two parts in one after the other, provided the first part leaves a
   * non-zero count.
   */
  lemma SplitBatch(art: Article, a: ArticleId, xs: seq<PendingRating>, ys: seq<PendingRating>)
    requires xs != [] && ys != []
    requires art.numRatings + CountNew(xs) != 0
    ensures UpdateAggregate(art, StatsOf(a, xs)).Some?
    ensures UpdateAggregate(UpdateAggregate(art, StatsOf(a, xs)).value, StatsOf(a, ys)) ==
            UpdateAggregate(art, StatsOf(a, xs + ys))
  {
    NetChangeAppend(a, xs, ys);
    SplitStats(art, StatsOf(a, xs), StatsOf(a, ys), StatsOf(a, xs + ys));
  }

  /** Two updates in a row equal one update by statistics whose new raters and net change add up. */
  lemma SplitStats(art: Article, g1: GroupStats, g2: GroupStats, g3: GroupStats)
    requires art.numRatings + g1.numNewRatings != 0
    requires g3.numNewRatings == g1.numNewRatings + g2.numNewRatings
    requires NetOf(g3) == NetOf(g1) + NetOf(g2)
    ensures UpdateAggregate(art, g1).Some?
    ensures UpdateAggregate(UpdateAggregate(art, g1).value, g2) == UpdateAggregate(art, g3)
  {
    var first := UpdateAggregate(art, g1).value;
    var second := UpdateAggregate(first, g2).value;
    var both := UpdateAggregate(art, g3).value;
    AverageChain(art.numRatings as real, art.avgRating, first.numRatings as real, first.avgRating,
                 second.numRatings as real, second.avgRating, both.numRatings as real, both.avgRating,
                 NetOf(g1), NetOf(g2));
  }

  /** Two folds of sums that reach the same total over the same positive count agree on the average. */
  lemma AverageChain(n0: real, a0: real, n1: real, a1: real, n2: real, a2: real, nz: real, az: real, dx: real, dy: real)
    requires n1 * a1 == n0 * a0 + dx && n2 * a2 == n1 * a1 + dy
    requires nz * az == n0 * a0 + (dx + dy) && nz == n2 && n2 != 0.0
    ensures az == a2
  {
    assert nz * az == n2 * a2;
  }

  /** The statistics of a concatenated batch add up: first votes and net change. */
  lemma NetChangeAppend(a: ArticleId, xs: seq<PendingRating>, ys: seq<PendingRating>)
    requires xs != [] && ys != []
    ensures StatsOf(a, xs + ys).numNewRatings == StatsOf(a, xs).numNewRatings + StatsOf(a, ys).numNewRatings
    ensures NetOf(StatsOf(a, xs + ys)) == NetOf(StatsOf(a, xs)) + NetOf(StatsOf(a, ys))
  {
    StatsAppend(xs, ys);
  }

  /** The counts and sums of a batch split around its entry `k`. */
  lemma StatsRemoveAt(ys: seq<PendingRating>, k: nat)
    requires k < |ys|
    ensures var rest, y := ys[..k] + ys[k + 1..], ys[k];
      && CountNew(ys) == CountNew(rest) + (if y.lastRate.None? then 1 else 0)
      && SumCurrent(ys) == SumCurrent(rest) + y.rating
      && SumLast(ys) == SumLast(rest) + y.lastRate.GetOr(0)
  {
    var front, back := ys[..k], ys[k + 1..];
    assert ys == front + ([ys[k]] + back);
    StatsAppend(front, [ys[k]] + back);
    StatsAppend([ys[k]], back);
    StatsAppend(front, back);
    StatsSnoc([], ys[k]);
    assert [] + [ys[k]] == [ys[k]];
  }

  /** Two listings of the same entries have the same counts and sums. */
  lemma {:induction false} StatsPermutation(xs: seq<PendingRating>, ys: seq<PendingRating>)
    requires multiset(xs) == multiset(ys)
    ensures CountNew(xs) == CountNew(ys) && SumCurrent(xs) == SumCurrent(ys) && SumLast(xs) == SumLast(ys)
  {
    if xs == [] {
      assert |ys| == |multiset(ys)| == 0;
    } else {
      var init, x := xs[..|xs| - 1], xs[|xs| - 1];
      assert xs == init + [x];
      assert x in multiset(ys);
      var k :| 0 <= k < |ys| && ys[k] == x;
      var rest := ys[..k] + ys[k + 1..];
      RemoveMatching(xs, ys, k);
      StatsPermutation(init, rest);
      StatsRemoveAt(ys, k);
      StatsSnoc(init, x);
    }
  }

  /** The order in which entries of one batch are listed does not change its statistics. */
  lemma BatchOrderIrrelevant(a: ArticleId, xs: seq<PendingRating>, ys: seq<PendingRating>)
    requires xs != [] && ys != [] && multiset(xs) == multiset(ys)
    ensures StatsOf(a, xs) == StatsOf(a, ys)
  {
    StatsPermutation(xs, ys);
    assert |xs| == |multiset(xs)| == |multiset(ys)| == |ys|;
  }

  /** A run over an empty pending table changes nothing. */
  lemma FlushEmptyIsNoOp(articles: map<ArticleId, Article>, rs: seq<Rating>, now: Timestamp)
    ensures FlushArticles(articles, Grouped([])) == Some(articles)
    ensures ApplyRows(rs, Ordered([], PendingArticles([])), now) == rs
  {
    assert Grouped([]) == [];
  }

  /**
   * A run keeps the schema's integrity: the promoted rows point at existing
   * articles and users, carry a declared choice and keep the key unique.
   */
  lemma FlushKeepsIntegrity(articles: map<ArticleId, Article>, users: map<UserId, string>,
                            rs: seq<Rating>, ps: seq<PendingRating>, m: map<ArticleId, Article>, now: Timestamp)
    requires Integrity(articles, users, rs, ps) && m.Keys == articles.Keys
    ensures Integrity(m, users, ApplyRows(rs, Ordered(ps, PendingArticles(ps)), now), [])
  {
    var rows := Ordered(ps, PendingArticles(ps));
    var after := ApplyRows(rs, rows, now);
    ApplyRowsUnique(rs, rows, now);
    OrderedRows(ps, PendingArticles(ps));
    PromotedRowsValid(m, users, rs, rows, now);
    var none: seq<PendingRating> := [];
    assert Unique(none, PendingKey);
    assert Integrity(m, users, after, none);
  }

  /** Promoting rows that point at existing articles and users with declared choices keeps the ledger so. */
  lemma PromotedRowsValid(m: map<ArticleId, Article>, users: map<UserId, string>,
                          rs: seq<Rating>, rows: seq<PendingRating>, now: Timestamp)
    requires forall r :: r in rs ==> r.article in m && r.user in users && IsRatingChoice(r.rating)
    requires forall p :: p in rows ==> p.article in m && p.user in users && IsRatingChoice(p.rating)
    ensures forall r :: r in ApplyRows(rs, rows, now) ==> r.article in m && r.user in users && IsRatingChoice(r.rating)
  {
    ApplyRowsRows(rs, rows, now);
    forall r | r in ApplyRows(rs, rows, now) ensures r.article in m && r.user in users && IsRatingChoice(r.rating) {
      if r !in rs {
        var p :| p in rows && r == Promoted(p, now);
      }
    }
  }

  /** Promotion of rows in two parts is promotion of the first part, then of the second. */
  lemma {:induction false} ApplyRowsAppend(rs: seq<Rating>, xs: seq<PendingRating>, ys: seq<PendingRating>, now: Timestamp)
    ensures ApplyRows(rs, xs + ys, now) == ApplyRows(ApplyRows(rs, xs, now), ys, now)
  {
    if ys == [] {
      assert xs + ys == xs;
    } else {
      var init, p := ys[..|ys| - 1], ys[|ys| - 1];
      assert xs + ys == (xs + init) + [p];
      assert ys == init + [p];
      ApplyRowsAppend(rs, xs, init, now);
      ApplyRowsSnoc(rs, xs + init, p, now);
      ApplyRowsSnoc(ApplyRows(rs, xs, now), init, p, now);
    }
  }

  /** Scanning one more pending entry promotes it when it belongs to article `a`. */
  lemma PromoteStep(rs: seq<Rating>, pending: seq<PendingRating>, a: ArticleId, j: nat, now: Timestamp)
    requires j < |pending|
    ensures ApplyRows(rs, Batch(pending[..j + 1], a), now) ==
            if pending[j].article == a
            then Upsert(ApplyRows(rs, Batch(pending[..j], a), now), a, pending[j].user, pending[j].rating, now)
            else ApplyRows(rs, Batch(pending[..j], a), now)
  {
    var p := pending[j];
    assert pending[..j + 1] == pending[..j] + [p];
    BatchSnoc(pending[..j], p, a);
    if p.article == a {
      ApplyRowsSnoc(rs, Batch(pending[..j], a), p, now);
    } else {
      assert Batch(pending[..j + 1], a) == Batch(pending[..j], a);
    }
  }

  /**
   * The inner loop of `process_pending_ratings`: every pending entry of
   * article `a`, in table order, updates its ledger row or creates one.
   */
  method PromoteBatch(ratings: seq<Rating>, pending: seq<PendingRating>, a: ArticleId, now: Timestamp)
    returns (promoted: seq<Rating>)
    ensures promoted == ApplyRows(ratings, Batch(pending, a), now)
  {
    promoted := ratings;
    var j := 0;
    while j < |pending|
      invariant 0 <= j <= |pending|
      invariant promoted == ApplyRows(ratings, Batch(pending[..j], a), now)
    {
      var p := pending[j];
      PromoteStep(ratings, pending, a, j, now);
      if p.article == a {
        promoted := Upsert(promoted, a, p.user, p.rating, now);
      }
      j := j + 1;
    }
    assert pending[..|pending|] == pending;
  }

  /** Visiting one more article promotes its batch after the rows visited so far. */
  lemma OrderedStep(rs: seq<Rating>, ps: seq<PendingRating>, ids: seq<ArticleId>, i: nat, now: Timestamp)
    requires i < |ids|
    ensures ApplyRows(rs, Ordered(ps, ids[..i + 1]), now) == ApplyRows(ApplyRows(rs, Ordered(ps, ids[..i]), now), Batch(ps, ids[i]), now)
  {
    assert ids[..i + 1][..i] == ids[..i];
    ApplyRowsAppend(rs, Ordered(ps, ids[..i]), Batch(ps, ids[i]), now);
  }

  /** The whole run is the prefix of all groups. */
  lemma FlushGroupsDone(arts: map<ArticleId, Article>, pending: seq<PendingRating>)
    ensures |Grouped(pending)| == |PendingArticles(pending)|
    ensures Grouped(pending)[..|Grouped(pending)|] == Grouped(pending)
    ensures PendingArticles(pending)[..|PendingArticles(pending)|] == PendingArticles(pending)
    ensures forall i :: 0 <= i < |Grouped(pending)| ==> Grouped(pending)[i].article == PendingArticles(pending)[i]
  {
    GroupedFacts(pending);
  }

  /**
   * The loop of `process_pending_ratings` over the grouped query, on the
   * tables' contents: each group's aggregate update followed by the
   * promotion of its batch. `ok` is false at the first missing article or
   * zero divisor, and the caller then keeps the old tables.
   */
  method FlushGroups(arts: map<ArticleId, Article>, rs: seq<Rating>, pending: seq<PendingRating>, now: Timestamp)
    returns (ok: bool, articles: map<ArticleId, Article>, ratings: seq<Rating>)
    ensures ok == FlushArticles(arts, Grouped(pending)).Some?
    ensures ok ==> articles == FlushArticles(arts, Grouped(pending)).value
    ensures ok ==> ratings == ApplyRows(rs, Ordered(pending, PendingArticles(pending)), now)
  {
    var groups := Grouped(pending);
    ghost var ids := PendingArticles(pending);
    FlushGroupsDone(arts, pending);
    articles, ratings := arts, rs;
    var i := 0;
    while i < |groups|
      invariant 0 <= i <= |groups|
      invariant FlushArticles(arts, groups[..i]) == Some(articles)
      invariant ratings == ApplyRows(rs, Ordered(pending, ids[..i]), now)
    {
      var entry := groups[i];
      ApplyUpdatesStep(arts, groups, UpdateAggregate, i, articles);
      OrderedStep(rs, pending, ids, i, now);
      if entry.article !in articles {
        return false, articles, ratings;
      }
      var updated := UpdateAggregate(articles[entry.article], entry);
      if updated.None? {
        return false, articles, ratings;
      }
      articles := articles[entry.article := updated.value];
      ratings := PromoteBatch(ratings, pending, entry.article, now);
      i := i + 1;
    }
    ok := true;
  }

  /**
   * `process_pending_ratings` as one atomic run: the flush on the tables'
   * contents, then, when it succeeded, the new aggregates and ledger are
   * stored and the pending table is cleared; a failure leaves the database
   * as it was.
   */
  method ProcessPendingRatings(db: Db, now: Timestamp) returns (ok: bool)
    requires db.Valid()
    modifies db
    ensures db.Valid()
    ensures ok == FlushArticles(old(db.articles), Grouped(old(db.pending))).Some?
    ensures ok ==> db.articles == FlushArticles(old(db.articles), Grouped(old(db.pending))).value
    ensures ok ==> db.ratings == ApplyRows(old(db.ratings), Ordered(old(db.pending), PendingArticles(old(db.pending))), now)
    ensures ok ==> db.pending == [] && db.users == old(db.users)
    ensures !ok ==> unchanged(db)
    ensures old(db.Consistent()) ==> ok && db.Consistent()
  {
    var articles, ratings;
    ok, articles, ratings := FlushGroups(db.articles, db.ratings, db.pending, now);
    if !ok {
      if db.Consistent() {
        FlushSucceeds(db.articles, db.ratings, db.pending);
      }
      return;
    }
    FlushKeepsIntegrity(db.articles, db.users, db.ratings, db.pending, articles, now);
    if db.Consistent() {
      FlushKeepsConsistency(db.articles, db.ratings, db.pending, now);
    }
    db.articles, db.ratings, db.pending := articles, ratings, [];
  }
}
