/**
 * The `Article` and `Rating` entities (articles/models.py), with the two
 * aggregate columns that migration 0003 adds to `Article`.
 */
module Models {

  type ArticleId = nat
  type UserId = nat
  /** A point in time, as seen by `auto_now` date-time fields. */
  type Timestamp = int

  /**
   * An article row. `numRatings` and `avgRating` are the stored aggregate
   * maintained by the rating flush; the average is kept exact (a `real`),
   * without the two-decimal rounding of the source.
   */
  datatype Article = Article(title: string, content: string, numRatings: nat, avgRating: real)

  /** A ledger row: the rating `user` gave `article`, last saved at `createdAt`. */
  datatype Rating = Rating(article: ArticleId, user: UserId, rating: int, createdAt: Timestamp)

  /** The `unique_together` key of the ledger. */
  function RatingKey(r: Rating): (ArticleId, UserId) {
    (r.article, r.user)
  }

  /** The declared choices of a rating column, `range(6)`. */
  predicate IsRatingChoice(v: int) {
    0 <= v <= 5
  }

  /** An article as migration 0003 creates it: no ratings and an average of 0. */
  function NewArticle(title: string, content: string): Article {
    Article(title, content, 0, 0.0)
  }

  /** `Article.__str__`: an article prints as its title. */
  function ArticleStr(a: Article): string {
    a.title
  }

  function DigitChar(d: nat): (c: char)
    requires d < 10
    ensures '0' <= c <= '9'
  {
    "0123456789"[d]
  }

  function DigitValue(c: char): (d: nat)
    requires '0' <= c <= '9'
    ensures d < 10
  {
    c as nat - '0' as nat
  }

  predicate IsDigits(s: string) {
    forall i :: 0 <= i < |s| ==> '0' <= s[i] <= '9'
  }

  /** Decimal digits of `n`, most significant first, as Python's `str` writes them. */
  function NatToString(n: nat): (s: string)
    ensures s != [] && IsDigits(s)
  {
    if n < 10 then [DigitChar(n)] else NatToString(n / 10) + [DigitChar(n % 10)]
  }

  /** Python's `str` on an `int`: a minus sign before the digits of a negative number. */
  function IntToString(i: int): (s: string)
    ensures s != []
    ensures i >= 0 ==> IsDigits(s)
    ensures i < 0 ==> s[0] == '-' && IsDigits(s[1..])
  {
    if i < 0 then "-" + NatToString(-i) else NatToString(i)
  }

  /** Reads decimal digits back into a number. */
  function ParseDigits(s: string): nat
    requires IsDigits(s)
  {
    if s == [] then 0 else ParseDigits(s[..|s| - 1]) * 10 + DigitValue(s[|s| - 1])
  }

  lemma {:induction false} NatToStringRoundTrip(n: nat)
    ensures ParseDigits(NatToString(n)) == n
  {
    var s := NatToString(n);
    if n < 10 {
      assert s[..|s| - 1] == [];
      assert "0123456789"[n] as nat - '0' as nat == n;
    } else {
      var t := NatToString(n / 10);
      assert s == t + [DigitChar(n % 10)];
      assert s[..|s| - 1] == t;
      NatToStringRoundTrip(n / 10);
      assert "0123456789"[n % 10] as nat - '0' as nat == n % 10;
    }
  }

  /**
   * `Rating.__str__`: "Rating {rating} by {username} for {title}", where the
   * username is the rating user's and the title is the printed form of the
   * rated article.
   */
  function RatingStr(r: Rating, users: map<UserId, string>, articles: map<ArticleId, Article>): (s: string)
    requires r.user in users && r.article in articles
    ensures var v, u, t := IntToString(r.rating), users[r.user], ArticleStr(articles[r.article]);
      && |s| == 16 + |v| + |u| + |t|
      && s[..7] == "Rating "
      && s[7..7 + |v|] == v
      && s[7 + |v|..11 + |v|] == " by "
      && s[11 + |v|..11 + |v| + |u|] == u
      && s[11 + |v| + |u|..16 + |v| + |u|] == " for "
      && s[16 + |v| + |u|..] == t
  {
    "Rating " + IntToString(r.rating) + " by " + users[r.user] + " for " + ArticleStr(articles[r.article])
  }

  /**
   * The printed form of a rating in the declared range shows its value as
   * the single digit after "Rating ", and the username right after " by ".
   */
  lemma RatingStrShowsRating(r: Rating, users: map<UserId, string>, articles: map<ArticleId, Article>)
    requires r.user in users && r.article in articles && IsRatingChoice(r.rating)
    ensures |RatingStr(r, users, articles)| > 12 + |users[r.user]|
    ensures DigitValue(RatingStr(r, users, articles)[7]) == r.rating
    ensures RatingStr(r, users, articles)[8..12] == " by "
    ensures RatingStr(r, users, articles)[12..12 + |users[r.user]|] == users[r.user]
  {
    var v := IntToString(r.rating);
    assert v == [DigitChar(r.rating)];
    assert "0123456789"[r.rating] as nat - '0' as nat == r.rating;
  }

  /** The digits printed for a non-negative rating read back as the rating. */
  lemma RatingStrReadsBack(r: Rating, users: map<UserId, string>, articles: map<ArticleId, Article>)
    requires r.user in users && r.article in articles && r.rating >= 0
    ensures var s, k := RatingStr(r, users, articles), |IntToString(r.rating)|;
      && 7 + k <= |s| && IsDigits(s[7..7 + k]) && ParseDigits(s[7..7 + k]) == r.rating
  {
    NatToStringRoundTrip(r.rating);
  }
}
