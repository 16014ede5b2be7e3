/**
 * Queries and updates on the `Rating` table, the ledger of finalised
 * ratings (articles/models.py, used by articles/tasks.py and
 * articles/views.py): `.filter(article, user).first()`, the per-article
 * count and sum, `update_or_create`, and the cascades that remove rows.
 */
module Ledger {
  import opened Wrappers
  import opened Tables
  import opened Models

  predicate HasKey(r: Rating, a: ArticleId, u: UserId) {
    r.article == a && r.user == u
  }

  /** Index of the first row for (`a`, `u`) in primary-key order, if any. */
  function Find(rs: seq<Rating>, a: ArticleId, u: UserId): (k: Option<nat>)
    ensures k.Some? ==> k.value < |rs| && HasKey(rs[k.value], a, u)
    ensures forall i :: 0 <= i < |rs| && HasKey(rs[i], a, u) ==> k.Some? && k.value <= i
  {
    if rs == [] then None
    else
      match Find(rs[..|rs| - 1], a, u)
      case Some(k) => Some(k)
      case None => if HasKey(rs[|rs| - 1], a, u) then Some(|rs| - 1) else None
  }

  /** `Rating.objects.filter(article=a, user=u).first()`. */
  function Lookup(rs: seq<Rating>, a: ArticleId, u: UserId): (r: Option<Rating>)
    ensures r.Some? ==> r.value in rs && HasKey(r.value, a, u)
    ensures r.None? <==> forall x :: x in rs ==> !HasKey(x, a, u)
  {
    match Find(rs, a, u)
    case Some(k) => Some(rs[k])
    case None => None
  }

  /** The rating `u` has in the ledger for `a`, or `None` when there is no row. */
  function RatingOf(rs: seq<Rating>, a: ArticleId, u: UserId): Option<int> {
    match Lookup(rs, a, u)
    case Some(r) => Some(r.rating)
    case None => None
  }

  /** `Count('ratings')`: the number of ledger rows of article `a`. */
  function Count(rs: seq<Rating>, a: ArticleId): nat {
    if rs == [] then 0
    else Count(rs[..|rs| - 1], a) + (if rs[|rs| - 1].article == a then 1 else 0)
  }

  /** The sum of the ratings in the ledger rows of article `a`. */
  function Sum(rs: seq<Rating>, a: ArticleId): int {
    if rs == [] then 0
    else Sum(rs[..|rs| - 1], a) + (if rs[|rs| - 1].article == a then rs[|rs| - 1].rating else 0)
  }

  /**
   * `update_or_create(user=u, article=a, defaults={'rating': v})` and the
   * equivalent branch in the submit view: the first row for the key is
   * overwritten in place (its `auto_now` timestamp refreshed), otherwise a
   * row is appended.
   */
  function Upsert(rs: seq<Rating>, a: ArticleId, u: UserId, v: int, now: Timestamp): seq<Rating> {
    match Find(rs, a, u)
    case Some(k) => rs[k := rs[k].(rating := v, createdAt := now)]
    case None => rs + [Rating(a, u, v, now)]
  }

  function NotOfArticle(a: ArticleId): Rating -> bool {
    (r: Rating) => r.article != a
  }

  function NotOfUser(u: UserId): Rating -> bool {
    (r: Rating) => r.user != u
  }

  /** `on_delete=CASCADE` from `Article`: the ledger without the rows of article `a`. */
  function WithoutArticle(rs: seq<Rating>, a: ArticleId): seq<Rating> {
    Filter(rs, NotOfArticle(a))
  }

  /** `on_delete=CASCADE` from `User`: the ledger without the rows of user `u`. */
  function WithoutUser(rs: seq<Rating>, u: UserId): seq<Rating> {
    Filter(rs, NotOfUser(u))
  }

  lemma CountSnoc(rs: seq<Rating>, x: Rating, b: ArticleId)
    ensures Count(rs + [x], b) == Count(rs, b) + (if x.article == b then 1 else 0)
    ensures Sum(rs + [x], b) == Sum(rs, b) + (if x.article == b then x.rating else 0)
  {
    assert (rs + [x])[..|rs|] == rs;
  }

  lemma FindSnoc(rs: seq<Rating>, x: Rating, a: ArticleId, u: UserId)
    ensures Find(rs + [x], a, u) == if Find(rs, a, u).Some? then Find(rs, a, u)
                                    else if HasKey(x, a, u) then Some(|rs|) else None
  {
    assert (rs + [x])[..|rs|] == rs;
  }

  /** Overwriting a row with one of the same key leaves every `.first()` lookup pointing at the same index. */
  lemma {:induction false} FindUpdate(rs: seq<Rating>, k: nat, x: Rating, a: ArticleId, u: UserId)
    requires k < |rs| && RatingKey(x) == RatingKey(rs[k])
    ensures Find(rs[k := x], a, u) == Find(rs, a, u)
  {
    var n := |rs|;
    var rs' := rs[k := x];
    if k == n - 1 {
      assert rs'[..n - 1] == rs[..n - 1];
    } else {
      assert rs'[..n - 1] == rs[..n - 1][k := x];
      FindUpdate(rs[..n - 1], k, x, a, u);
    }
  }

  /** Overwriting a row changes the per-article count and sum by exactly that row's contribution. */
  lemma {:induction false} CountUpdate(rs: seq<Rating>, k: nat, x: Rating, b: ArticleId)
    requires k < |rs|
    ensures Count(rs[k := x], b) == Count(rs, b) - (if rs[k].article == b then 1 else 0) + (if x.article == b then 1 else 0)
    ensures Sum(rs[k := x], b) == Sum(rs, b) - (if rs[k].article == b then rs[k].rating else 0) + (if x.article == b then x.rating else 0)
  {
    var n := |rs|;
    var rs' := rs[k := x];
    if k == n - 1 {
      assert rs'[..n - 1] == rs[..n - 1];
    } else {
      assert rs'[..n - 1] == rs[..n - 1][k := x];
      CountUpdate(rs[..n - 1], k, x, b);
    }
  }

  /**
   * After an upsert the key (`a`, `u`) finds exactly the row written now,
   * and every other key finds what it found before.
   */
  lemma LookupUpsert(rs: seq<Rating>, a: ArticleId, u: UserId, v: int, now: Timestamp, b: ArticleId, w: UserId)
    ensures Lookup(Upsert(rs, a, u, v, now), b, w) ==
              if (b, w) == (a, u) then Some(Rating(a, u, v, now)) else Lookup(rs, b, w)
  {
    var x := Rating(a, u, v, now);
    match Find(rs, a, u)
    case Some(k) =>
      assert rs[k].(rating := v, createdAt := now) == x;
      FindUpdate(rs, k, x, b, w);
    case None =>
      FindSnoc(rs, x, b, w);
  }

  /**
   * An upsert adds one row to the count of `a` exactly when `u` had no
   * rating for `a`, and moves the sum of `a` from the old value to `v`;
   * other articles keep their count and sum.
   */
  lemma UpsertAggregates(rs: seq<Rating>, a: ArticleId, u: UserId, v: int, now: Timestamp, b: ArticleId)
    ensures Count(Upsert(rs, a, u, v, now), b) ==
              Count(rs, b) + (if b == a && RatingOf(rs, a, u).None? then 1 else 0)
    ensures Sum(Upsert(rs, a, u, v, now), b) ==
              Sum(rs, b) + (if b == a then v - RatingOf(rs, a, u).GetOr(0) else 0)
  {
    var x := Rating(a, u, v, now);
    match Find(rs, a, u)
    case Some(k) =>
      CountUpdate(rs, k, rs[k].(rating := v, createdAt := now), b);
    case None =>
      CountSnoc(rs, x, b);
  }

  /**
   * On a ledger with unique keys, an upsert keeps the keys unique, leaves
   * exactly one row for (`a`, `u`) holding `v`, overwrites an existing row
   * in place rather than adding a second one, and leaves every row of
   * another user or another article as it was.
   */
  lemma UpsertInPlace(rs: seq<Rating>, a: ArticleId, u: UserId, v: int, now: Timestamp)
    requires Unique(rs, RatingKey)
    ensures var rs' := Upsert(rs, a, u, v, now);
      && Unique(rs', RatingKey)
      && |rs'| == |rs| + (if RatingOf(rs, a, u).None? then 1 else 0)
      && Lookup(rs', a, u) == Some(Rating(a, u, v, now))
      && (forall i :: 0 <= i < |rs'| && HasKey(rs'[i], a, u) ==> rs'[i] == Rating(a, u, v, now))
      && (forall i :: 0 <= i < |rs| && !HasKey(rs[i], a, u) ==> rs'[i] == rs[i])
  {
    var rs', x := Upsert(rs, a, u, v, now), Rating(a, u, v, now);
    LookupUpsert(rs, a, u, v, now, a, u);
    match Find(rs, a, u)
    case Some(k) =>
      assert rs[k].(rating := v, createdAt := now) == x;
      assert rs' == rs[k := x];
      assert Lookup(rs, a, u) == Some(rs[k]);
      UniqueUpdate(rs, k, x, RatingKey);
      forall i | 0 <= i < |rs'| && HasKey(rs'[i], a, u) ensures rs'[i] == x {
        assert RatingKey(rs[i]) == RatingKey(x) || i == k;
      }
    case None =>
      assert rs' == rs + [x];
      UniqueSnoc(rs, x, RatingKey);
  }

  /** Each row of an upserted ledger is an old row or the row written now. */
  lemma UpsertRows(rs: seq<Rating>, a: ArticleId, u: UserId, v: int, now: Timestamp)
    ensures forall r :: r in Upsert(rs, a, u, v, now) ==> r in rs || r == Rating(a, u, v, now)
  {
    match Find(rs, a, u)
    case Some(k) =>
      assert rs[k].(rating := v, createdAt := now) == Rating(a, u, v, now);
      forall r | r in Upsert(rs, a, u, v, now) ensures r in rs || r == Rating(a, u, v, now) {
        var i :| 0 <= i < |rs| && rs[k := Rating(a, u, v, now)][i] == r;
        if i != k { assert rs[i] == r; }
      }
    case None =>
  }

  /** An article without ledger rows has no rating from any user. */
  lemma {:induction false} CountZeroNoRows(rs: seq<Rating>, a: ArticleId, u: UserId)
    requires Count(rs, a) == 0
    ensures RatingOf(rs, a, u).None?
  {
    if rs != [] {
      var init, last := rs[..|rs| - 1], rs[|rs| - 1];
      assert rs == init + [last];
      CountZeroNoRows(init, a, u);
      FindSnoc(init, last, a, u);
    }
  }

  /** Ratings in the declared range keep a per-article sum between 0 and 5 times the count. */
  lemma {:induction false} SumBounds(rs: seq<Rating>, a: ArticleId)
    requires forall r :: r in rs ==> IsRatingChoice(r.rating)
    ensures 0 <= Sum(rs, a) <= 5 * Count(rs, a)
  {
    if rs != [] {
      var init := rs[..|rs| - 1];
      assert forall r :: r in init ==> r in rs;
      SumBounds(init, a);
    }
  }

  /** An article without ledger rows has a rating sum of 0. */
  lemma {:induction false} CountZeroSumZero(rs: seq<Rating>, a: ArticleId)
    requires Count(rs, a) == 0
    ensures Sum(rs, a) == 0
  {
    if rs != [] {
      CountZeroSumZero(rs[..|rs| - 1], a);
    }
  }

  lemma LookupSnoc(rs: seq<Rating>, x: Rating, a: ArticleId, u: UserId)
    ensures Lookup(rs + [x], a, u) == if Lookup(rs, a, u).Some? then Lookup(rs, a, u)
                                      else if HasKey(x, a, u) then Some(x) else None
  {
    FindSnoc(rs, x, a, u);
    match Find(rs, a, u)
    case Some(k) => assert (rs + [x])[k] == rs[k];
    case None =>
  }

  /** Filtering out rows that are not of key (`b`, `w`) leaves its lookup unchanged. */
  lemma {:induction false} LookupFilterKept(rs: seq<Rating>, keep: Rating -> bool, b: ArticleId, w: UserId)
    requires forall r :: r in rs && HasKey(r, b, w) ==> keep(r)
    ensures Lookup(Filter(rs, keep), b, w) == Lookup(rs, b, w)
  {
    if rs != [] {
      var init, last := rs[..|rs| - 1], rs[|rs| - 1];
      assert rs == init + [last];
      assert forall r :: r in init ==> r in rs;
      LookupFilterKept(init, keep, b, w);
      FilterSnoc(init, last, keep);
      LookupSnoc(init, last, b, w);
      if keep(last) {
        LookupSnoc(Filter(init, keep), last, b, w);
      } else {
        assert Filter(rs, keep) == Filter(init, keep);
      }
    }
  }

  /** Deleting an article removes every ledger row of it and keeps every other row. */
  lemma WithoutArticleEffect(rs: seq<Rating>, a: ArticleId, b: ArticleId, w: UserId)
    ensures forall r :: r in WithoutArticle(rs, a) <==> r in rs && r.article != a
    ensures Lookup(WithoutArticle(rs, a), b, w) == if b == a then None else Lookup(rs, b, w)
  {
    if b != a {
      LookupFilterKept(rs, NotOfArticle(a), b, w);
    }
  }

  /** Deleting a user removes every ledger row of that user and keeps every other row. */
  lemma WithoutUserEffect(rs: seq<Rating>, u: UserId, b: ArticleId, w: UserId)
    ensures forall r :: r in WithoutUser(rs, u) <==> r in rs && r.user != u
    ensures Lookup(WithoutUser(rs, u), b, w) == if w == u then None else Lookup(rs, b, w)
  {
    if w != u {
      LookupFilterKept(rs, NotOfUser(u), b, w);
    }
  }

  /** Deleting an article leaves the count and sum of every other article unchanged. */
  lemma {:induction false} WithoutArticleAggregates(rs: seq<Rating>, a: ArticleId, b: ArticleId)
    ensures Count(WithoutArticle(rs, a), b) == if b == a then 0 else Count(rs, b)
    ensures Sum(WithoutArticle(rs, a), b) == if b == a then 0 else Sum(rs, b)
  {
    if rs != [] {
      var init, last := rs[..|rs| - 1], rs[|rs| - 1];
      assert rs == init + [last];
      var kept := WithoutArticle(init, a);
      WithoutArticleAggregates(init, a, b);
      FilterSnoc(init, last, NotOfArticle(a));
      CountSnoc(init, last, b);
      if last.article != a {
        assert WithoutArticle(rs, a) == kept + [last];
        CountSnoc(kept, last, b);
      } else {
        assert WithoutArticle(rs, a) == kept;
      }
    }
  }
}
