/**
 * The six reporting endpoints: a user's spending and recommendation rate,
 * reviews inside a date window, a genre's place in the playtime ranking,
 * the top players of a genre, the share of free games per year for one
 * developer, and sentiment counts for one year.
 */
module Queries {
  import opened Tabular
  import opened Datasets

  // ---------------------------------------------------------------------
  // Filters and sums shared by several endpoints
  // ---------------------------------------------------------------------

  /** The library rows of one user, in table order. */
  function UserItems(items: seq<Item>, user: string): (r: seq<Item>)
    ensures forall it :: it in r <==> it in items && it.userId == user
  {
    if |items| == 0 then []
    else
      assert forall i :: 0 < i < |items| ==> items[i] == items[1..][i - 1];
      (if items[0].userId == user then [items[0]] else []) + UserItems(items[1..], user)
  }

  /** The reviews written by one user, in table order. */
  function UserReviews(reviews: seq<Review>, user: string): (r: seq<Review>)
    ensures forall rv :: rv in r <==> rv in reviews && rv.userId == user
  {
    if |reviews| == 0 then []
    else
      assert forall i :: 0 < i < |reviews| ==> reviews[i] == reviews[1..][i - 1];
      (if reviews[0].userId == user then [reviews[0]] else []) + UserReviews(reviews[1..], user)
  }

  /** The sum of the recommend flags: the number of recommending reviews. */
  function CountRecommended(reviews: seq<Review>): (n: nat)
    ensures n <= |reviews|
    ensures n == 0 <==> forall i :: 0 <= i < |reviews| ==> !reviews[i].recommend
    ensures n == |reviews| <==> forall i :: 0 <= i < |reviews| ==> reviews[i].recommend
  {
    if |reviews| == 0 then 0
    else
      assert forall i :: 0 < i < |reviews| ==> reviews[i] == reviews[1..][i - 1];
      (if reviews[0].recommend then 1 else 0) + CountRecommended(reviews[1..])
  }

  /** Recommending reviews as a percentage of all of them, or 0 for no reviews. */
  function RecommendRate(reviews: seq<Review>): real {
    Percent(CountRecommended(reviews), |reviews|)
  }

  /** The rate lies in [0, 100]; it is 0 exactly when no review recommends, 100 exactly when all do. */
  lemma RecommendRateSpec(reviews: seq<Review>)
    ensures 0.0 <= RecommendRate(reviews) <= 100.0
    ensures RecommendRate(reviews) == 0.0 <==> forall i :: 0 <= i < |reviews| ==> !reviews[i].recommend
    ensures RecommendRate(reviews) == 100.0 <==> |reviews| > 0 && forall i :: 0 <= i < |reviews| ==> reviews[i].recommend
  {
  }

  /** Filtering by user keeps every copy of the user's reviews and no other review. */
  lemma {:induction false} UserReviewsMultiset(reviews: seq<Review>, user: string, rv: Review)
    ensures multiset(UserReviews(reviews, user))[rv] == if rv.userId == user then multiset(reviews)[rv] else 0
  {
    if |reviews| > 0 {
      UserReviewsMultiset(reviews[1..], user, rv);
      ConsCount(reviews, rv);
    }
  }

  /** Number of reviews of the table written by `user`. */
  function ReviewsBy(reviews: seq<Review>, user: string): nat {
    if |reviews| == 0 then 0
    else (if reviews[0].userId == user then 1 else 0) + ReviewsBy(reviews[1..], user)
  }

  /** Number of those that recommend the game. */
  function RecommendsBy(reviews: seq<Review>, user: string): nat {
    if |reviews| == 0 then 0
    else (if reviews[0].userId == user && reviews[0].recommend then 1 else 0) + RecommendsBy(reviews[1..], user)
  }

  /**
   * The length and the recommend sum of the user's filtered reviews are the
   * user's review and recommendation counts over the whole table.
   */
  lemma {:induction false} UserReviewsCounts(reviews: seq<Review>, user: string)
    ensures |UserReviews(reviews, user)| == ReviewsBy(reviews, user)
    ensures CountRecommended(UserReviews(reviews, user)) == RecommendsBy(reviews, user)
  {
    if |reviews| > 0 {
      UserReviewsCounts(reviews[1..], user);
      var rest := UserReviews(reviews[1..], user);
      if reviews[0].userId == user {
        assert ([reviews[0]] + rest)[1..] == rest;
      } else {
        assert UserReviews(reviews, user) == rest;
      }
    }
  }

  // ---------------------------------------------------------------------
  // userdata
  // ---------------------------------------------------------------------

  datatype UserSummary = UserSummary(moneySpent: real, recommendPercentage: real, itemsCount: int)

  /** The `item_id` column of some library rows. */
  function ItemIds(items: seq<Item>): (ids: seq<string>)
    ensures |ids| == |items|
    ensures forall i :: 0 <= i < |items| ==> ids[i] == items[i].itemId
  {
    seq(|items|, i requires 0 <= i < |items| => items[i].itemId)
  }

  /** The game rows whose id is one of `ids`, in table order. */
  function GamesIn(games: seq<Game>, ids: seq<string>): seq<Game> {
    if |games| == 0 then []
    else (if games[0].id in ids then [games[0]] else []) + GamesIn(games[1..], ids)
  }

  /** The sum of the prices of some game rows. */
  function SumPrices(games: seq<Game>): real {
    if |games| == 0 then 0.0 else games[0].price + SumPrices(games[1..])
  }

  /** Some library row of `user` holds the game `id`. */
  ghost predicate Owns(items: seq<Item>, user: string, id: string) {
    exists i :: 0 <= i < |items| && items[i].userId == user && items[i].itemId == id
  }

  /**
   * Reference definition of the money spent: every row of the games table
   * adds its price when the user owns that game, and nothing otherwise.
   */
  ghost function Spent(games: seq<Game>, items: seq<Item>, user: string): real {
    if |games| == 0 then 0.0
    else (if Owns(items, user, games[0].id) then games[0].price else 0.0) + Spent(games[1..], items, user)
  }

  /** A game id is among the user's library ids exactly when the user owns that game. */
  lemma OwnedIds(items: seq<Item>, user: string, id: string)
    ensures id in ItemIds(UserItems(items, user)) <==> Owns(items, user, id)
  {
    var owned := UserItems(items, user);
    var ids := ItemIds(owned);
    if id in ids {
      var k :| 0 <= k < |ids| && ids[k] == id;
      assert owned[k] in items;
      var i :| 0 <= i < |items| && items[i] == owned[k];
      assert items[i].userId == user && items[i].itemId == id;
    }
    if Owns(items, user, id) {
      var i :| 0 <= i < |items| && items[i].userId == user && items[i].itemId == id;
      assert items[i] in owned;
      var k :| 0 <= k < |owned| && owned[k] == items[i];
      assert ids[k] == id;
    }
  }

  /** Filtering the games by the user's ids and summing the prices gives the money spent. */
  lemma {:induction false} SpentByFilter(games: seq<Game>, items: seq<Item>, user: string)
    ensures SumPrices(GamesIn(games, ItemIds(UserItems(items, user)))) == Spent(games, items, user)
  {
    if |games| > 0 {
      SpentByFilter(games[1..], items, user);
      var ids := ItemIds(UserItems(items, user));
      var g := games[0];
      var rest := GamesIn(games[1..], ids);
      OwnedIds(items, user, g.id);
      if g.id in ids {
        assert GamesIn(games, ids) == [g] + rest;
        assert ([g] + rest)[1..] == rest;
      } else {
        assert GamesIn(games, ids) == rest;
      }
    }
  }

  /** Rows of other users in front of the first row of `user` do not reach the filter. */
  lemma {:induction false} SkipOtherUsers(items: seq<Item>, user: string, i: nat)
    requires i <= |items| && forall j :: 0 <= j < i ==> items[j].userId != user
    ensures UserItems(items, user) == UserItems(items[i..], user)
  {
    if i > 0 {
      assert items[1..][i - 1..] == items[i..];
      SkipOtherUsers(items[1..], user, i - 1);
    }
  }

  /** The first library row of `user` is the first row of their filtered library. */
  lemma FirstUserItem(items: seq<Item>, user: string)
    requires exists i :: 0 <= i < |items| && items[i].userId == user
    ensures |UserItems(items, user)| > 0
    ensures exists i :: FirstOfUser(items, user, i) && UserItems(items, user)[0] == items[i]
  {
    var i := FirstIndexOfUser(items, user);
    SkipOtherUsers(items, user, i);
    var tail := items[i..];
    assert tail[0] == items[i];
    assert UserItems(tail, user) == [items[i]] + UserItems(tail[1..], user);
  }

  /** Index of the first library row of `user`. */
  function FirstIndexOfUser(items: seq<Item>, user: string): (i: nat)
    requires exists i :: 0 <= i < |items| && items[i].userId == user
    ensures FirstOfUser(items, user, i)
  {
    if items[0].userId == user then 0
    else
      assert exists i :: 0 <= i < |items[1..]| && items[1..][i].userId == user by {
        var k :| 0 <= k < |items| && items[k].userId == user;
        assert items[1..][k - 1].userId == user;
      }
      1 + FirstIndexOfUser(items[1..], user)
  }

  ghost predicate FirstOfUser(items: seq<Item>, user: string, i: int) {
    0 <= i < |items| && items[i].userId == user && forall j :: 0 <= j < i ==> items[j].userId != user
  }

  /**
   * `userdata(user)`. The source only works for a user with at least one
   * library row (it reads `items_count` from the first one).
   */
  function UserData(items: seq<Item>, reviews: seq<Review>, games: seq<Game>, user: string): (r: UserSummary)
    requires exists i :: 0 <= i < |items| && items[i].userId == user
    ensures r.moneySpent == Spent(games, items, user)
    ensures 0.0 <= r.recommendPercentage <= 100.0
    ensures r.recommendPercentage == 0.0 <==>
      forall i :: 0 <= i < |reviews| && reviews[i].userId == user ==> !reviews[i].recommend
    ensures r.recommendPercentage == 100.0 <==>
      (exists i :: 0 <= i < |reviews| && reviews[i].userId == user) &&
      (forall i :: 0 <= i < |reviews| && reviews[i].userId == user ==> reviews[i].recommend)
    ensures r.recommendPercentage == Percent(RecommendsBy(reviews, user), ReviewsBy(reviews, user))
    ensures exists i :: FirstOfUser(items, user, i) && r.itemsCount == items[i].itemsCount
  {
    var userGames := UserItems(items, user);
    var userReviews := UserReviews(reviews, user);
    UserReviewsCounts(reviews, user);
    SpentByFilter(games, items, user);
    FirstUserItem(items, user);
    RecommendRateSpec(userReviews);
    UserReviewsRate(reviews, user);
    UserSummary(SumPrices(GamesIn(games, ItemIds(userGames))), RecommendRate(userReviews), userGames[0].itemsCount)
  }

  lemma UserReviewsRate(reviews: seq<Review>, user: string)
    ensures (forall i :: 0 <= i < |UserReviews(reviews, user)| ==> !UserReviews(reviews, user)[i].recommend)
        <==> forall i :: 0 <= i < |reviews| && reviews[i].userId == user ==> !reviews[i].recommend
    ensures (|UserReviews(reviews, user)| > 0 && forall i :: 0 <= i < |UserReviews(reviews, user)| ==> UserReviews(reviews, user)[i].recommend)
        <==> (exists i :: 0 <= i < |reviews| && reviews[i].userId == user) &&
             (forall i :: 0 <= i < |reviews| && reviews[i].userId == user ==> reviews[i].recommend)
  {
    var ur := UserReviews(reviews, user);
    if |ur| > 0 {
      assert ur[0] in reviews;
    }
    forall i | 0 <= i < |reviews| && reviews[i].userId == user ensures reviews[i] in ur { }
  }

  /** Money spent adds up over a games table split in two. */
  lemma {:induction false} SpentSplit(a: seq<Game>, b: seq<Game>, items: seq<Item>, user: string)
    ensures Spent(a + b, items, user) == Spent(a, items, user) + Spent(b, items, user)
  {
    if |a| > 0 {
      assert (a + b)[1..] == a[1..] + b;
      SpentSplit(a[1..], b, items, user);
    } else {
      assert a + b == b;
    }
  }

  /** With non-negative prices, money spent is non-negative. */
  lemma {:induction false} SpentNonNegative(games: seq<Game>, items: seq<Item>, user: string)
    requires forall i :: 0 <= i < |games| ==> games[i].price >= 0.0
    ensures Spent(games, items, user) >= 0.0
  {
    if |games| > 0 {
      SpentNonNegative(games[1..], items, user);
    }
  }

  // ---------------------------------------------------------------------
  // countreviews
  // ---------------------------------------------------------------------

  datatype ReviewCount = ReviewCount(count: nat, percentage: real)

  /** `fecha` lies strictly between the two bounds, compared as strings. */
  predicate InWindow(r: Review, start: string, end: string) {
    StrLess(start, r.date) && StrLess(r.date, end)
  }

  function WindowReviews(reviews: seq<Review>, start: string, end: string): (w: seq<Review>)
    ensures |w| <= |reviews|
    ensures forall rv :: rv in w <==> rv in reviews && InWindow(rv, start, end)
  {
    if |reviews| == 0 then []
    else
      assert forall i :: 0 < i < |reviews| ==> reviews[i] == reviews[1..][i - 1];
      (if InWindow(reviews[0], start, end) then [reviews[0]] else []) + WindowReviews(reviews[1..], start, end)
  }

  /** `countreviews(start, end)`, without the message text. */
  function CountReviews(reviews: seq<Review>, start: string, end: string): (r: ReviewCount)
    ensures r.count <= |reviews|
    ensures r.count == |WindowReviews(reviews, start, end)|
    ensures 0.0 <= r.percentage <= 100.0
    ensures r.count == 0 ==> r.percentage == 0.0
    ensures r.percentage == RecommendRate(WindowReviews(reviews, start, end))
  {
    var w := WindowReviews(reviews, start, end);
    RecommendRateSpec(w);
    ReviewCount(|w|, RecommendRate(w))
  }

  /** A window whose start is not before its end holds no review. */
  lemma EmptyWindow(reviews: seq<Review>, start: string, end: string)
    requires !StrLess(start, end)
    ensures CountReviews(reviews, start, end) == ReviewCount(0, 0.0)
  {
    var w := WindowReviews(reviews, start, end);
    if |w| > 0 {
      assert w[0] in w;
      StrLessTransitive(start, w[0].date, end);
    }
  }

  /** Review counts add up over a reviews table split in two. */
  lemma {:induction false} WindowSplit(a: seq<Review>, b: seq<Review>, start: string, end: string)
    ensures WindowReviews(a + b, start, end) == WindowReviews(a, start, end) + WindowReviews(b, start, end)
  {
    if |a| > 0 {
      assert (a + b)[1..] == a[1..] + b;
      WindowSplit(a[1..], b, start, end);
    } else {
      assert a + b == b;
    }
  }

  /** Widening the window never loses a review. */
  lemma WindowWiden(reviews: seq<Review>, start: string, end: string, start': string, end': string)
    requires start' == start || StrLess(start', start)
    requires end' == end || StrLess(end, end')
    ensures forall rv :: rv in WindowReviews(reviews, start, end) ==> rv in WindowReviews(reviews, start', end')
  {
    forall rv | rv in WindowReviews(reviews, start, end) ensures rv in WindowReviews(reviews, start', end') {
      if start' != start { StrLessTransitive(start', start, rv.date); }
      if end' != end { StrLessTransitive(rv.date, end, end'); }
    }
  }

  // ---------------------------------------------------------------------
  // genre
  // ---------------------------------------------------------------------

  /** A genre with the playtime summed over its combined rows. */
  datatype GenreHours = GenreHours(genre: string, hours: int)

  function HoursOf(e: GenreHours): real { e.hours as real }

  /** The combined rows of genre `g`, in table order; rows without a genre never match. */
  function RowsOfGenre(rows: seq<Joined>, g: string): (r: seq<Joined>)
    ensures |r| <= |rows|
  {
    if |rows| == 0 then []
    else (if rows[0].row.genre == Some(g) then [rows[0]] else []) + RowsOfGenre(rows[1..], g)
  }

  /** The selection keeps exactly the rows of genre `g`. */
  lemma {:induction false} RowsOfGenreSpec(rows: seq<Joined>, g: string)
    ensures forall j :: j in RowsOfGenre(rows, g) <==> j in rows && j.row.genre == Some(g)
  {
    if |rows| > 0 {
      RowsOfGenreSpec(rows[1..], g);
      assert rows == [rows[0]] + rows[1..];
    }
  }

  /** The selection keeps every copy of each row of genre `g`, and nothing else. */
  lemma {:induction false} RowsOfGenreMultiset(rows: seq<Joined>, g: string, j: Joined)
    ensures multiset(RowsOfGenre(rows, g))[j] == if j.row.genre == Some(g) then multiset(rows)[j] else 0
  {
    if |rows| > 0 {
      RowsOfGenreMultiset(rows[1..], g, j);
      ConsCount(rows, j);
    }
  }

  /** Total playtime of some combined rows. */
  function TotalPlaytime(rows: seq<Joined>): int {
    if |rows| == 0 then 0 else rows[0].item.playtime + TotalPlaytime(rows[1..])
  }

  /** Total playtime of a genre: the group sum. */
  function GenreTotal(rows: seq<Joined>, g: string): int {
    TotalPlaytime(RowsOfGenre(rows, g))
  }

  /** The genres that occur, with repetitions, in row order (genre-less rows dropped). */
  function GenreColumn(rows: seq<Joined>): seq<string> {
    if |rows| == 0 then []
    else
      match rows[0].row.genre
      case None => GenreColumn(rows[1..])
      case Some(x) => [x] + GenreColumn(rows[1..])
  }

  /** A genre is in the column exactly when some combined row carries it. */
  lemma {:induction false} GenreColumnSpec(rows: seq<Joined>, x: string)
    ensures x in GenreColumn(rows) <==> exists k :: 0 <= k < |rows| && rows[k].row.genre == Some(x)
  {
    if |rows| > 0 {
      GenreColumnSpec(rows[1..], x);
      if exists k :: 0 <= k < |rows| && rows[k].row.genre == Some(x) {
        var k :| 0 <= k < |rows| && rows[k].row.genre == Some(x);
        if k > 0 { assert rows[1..][k - 1] == rows[k]; }
      }
      if exists k :: 0 <= k < |rows[1..]| && rows[1..][k].row.genre == Some(x) {
        var k :| 0 <= k < |rows[1..]| && rows[1..][k].row.genre == Some(x);
        assert rows[k + 1] == rows[1..][k];
      }
    }
  }

  /** The group keys: each genre once. */
  function GenreKeys(rows: seq<Joined>): seq<string> {
    Unique(GenreColumn(rows))
  }

  /**
   * `t` is a group table of `rows`: one entry per genre that occurs, each
   * holding that genre's total playtime.
   */
  ghost predicate GroupTable(rows: seq<Joined>, t: seq<GenreHours>) {
    && (forall i, j :: 0 <= i < j < |t| ==> t[i].genre != t[j].genre)
    && (forall i :: 0 <= i < |t| ==> t[i].genre in GenreKeys(rows) && t[i].hours == GenreTotal(rows, t[i].genre))
    && (forall x :: x in GenreKeys(rows) ==> exists i :: 0 <= i < |t| && t[i].genre == x)
  }

  /**
   * The playtime totals grouped by genre, with the genres in order of first
   * appearance. The source's grouping sorts the genres by name instead; the
   * ranking is sorted by total right after, so the two orders differ only in
   * how tied totals end up.
   */
  function GenreTable(rows: seq<Joined>): seq<GenreHours> {
    var keys := GenreKeys(rows);
    seq(|keys|, i requires 0 <= i < |keys| => GenreHours(keys[i], GenreTotal(rows, keys[i])))
  }

  lemma GenreTableSpec(rows: seq<Joined>)
    ensures |GenreTable(rows)| == |GenreKeys(rows)|
    ensures GroupTable(rows, GenreTable(rows))
  {
    var keys := GenreKeys(rows);
    var t := GenreTable(rows);
    forall x | x in keys ensures exists i :: 0 <= i < |t| && t[i].genre == x {
      var i :| 0 <= i < |keys| && keys[i] == x;
      assert t[i].genre == x;
    }
  }

  /** An entry of a group table is a genre paired with its total. */
  lemma GroupEntry(rows: seq<Joined>, t: seq<GenreHours>, k: nat)
    requires GroupTable(rows, t) && k < |t|
    ensures t[k] == GenreHours(t[k].genre, GenreTotal(rows, t[k].genre))
    ensures t[k].genre in GenreKeys(rows)
  {
  }

  /** Any rearrangement of a group table is a group table. */
  lemma GroupTablePermutation(rows: seq<Joined>, t: seq<GenreHours>, r: seq<GenreHours>)
    requires GroupTable(rows, t) && multiset(r) == multiset(t)
    ensures GroupTable(rows, r) && |r| == |t|
  {
    assert |r| == |multiset(r)|;
    forall i | 0 <= i < |r| ensures r[i] in t {
      assert r[i] in multiset(r);
    }
    assert Distinct(t) by {
      forall i, j | 0 <= i < j < |t| ensures t[i] != t[j] {
        assert t[i].genre != t[j].genre;
      }
    }
    PermutationDistinct(r, t);
    forall i, j | 0 <= i < j < |r| ensures r[i].genre != r[j].genre {
      assert r[i] != r[j];
    }
    forall x | x in GenreKeys(rows) ensures exists i :: 0 <= i < |r| && r[i].genre == x {
      var a :| 0 <= a < |t| && t[a].genre == x;
      assert t[a] in multiset(r);
      var i :| 0 <= i < |r| && r[i] == t[a];
    }
  }

  /** The group table sorted by total playtime, largest first. */
  function GenreRanking(rows: seq<Joined>): seq<GenreHours> {
    SortDesc(GenreTable(rows), HoursOf)
  }

  /** The ranking holds each genre once, with its total playtime. */
  lemma GenreRankingSpec(rows: seq<Joined>)
    ensures GroupTable(rows, GenreRanking(rows)) && |GenreRanking(rows)| == |GenreKeys(rows)|
  {
    GenreTableSpec(rows);
    SortDescSpec(GenreTable(rows), HoursOf);
    GroupTablePermutation(rows, GenreTable(rows), GenreRanking(rows));
  }

  /** Entry `i` of the ranking is a genre that occurs, with its total playtime. */
  lemma RankingEntry(rows: seq<Joined>, i: nat)
    requires i < |GenreRanking(rows)|
    ensures GenreRanking(rows)[i] == GenreHours(GenreRanking(rows)[i].genre, GenreTotal(rows, GenreRanking(rows)[i].genre))
    ensures GenreRanking(rows)[i].genre in GenreKeys(rows)
  {
    GenreRankingSpec(rows);
    GroupEntry(rows, GenreRanking(rows), i);
  }

  /** Every genre that occurs has an entry in the ranking. */
  lemma RankingHas(rows: seq<Joined>, x: string)
    requires x in GenreKeys(rows)
    ensures exists q :: 0 <= q < |GenreRanking(rows)| && GenreRanking(rows)[q].genre == x
  {
    GenreRankingSpec(rows);
  }

  /** No genre has two entries in the ranking. */
  lemma RankingDistinct(rows: seq<Joined>, i: nat, j: nat)
    requires i < j < |GenreRanking(rows)|
    ensures GenreRanking(rows)[i].genre != GenreRanking(rows)[j].genre
  {
    GenreRankingSpec(rows);
  }

  /** The ranking is in non-increasing order of total playtime. */
  lemma GenreRankingOrder(rows: seq<Joined>, i: nat, j: nat)
    requires i <= j < |GenreRanking(rows)|
    ensures GenreRanking(rows)[i].hours >= GenreRanking(rows)[j].hours
  {
    SortDescSpec(GenreTable(rows), HoursOf);
    SortedAt(GenreTable(rows), HoursOf, i, j);
  }

  /** First index of genre `g` in a ranking. */
  function IndexOfGenre(r: seq<GenreHours>, g: string): (k: nat)
    requires exists i :: 0 <= i < |r| && r[i].genre == g
    ensures k < |r| && r[k].genre == g
    ensures forall j :: 0 <= j < k ==> r[j].genre != g
  {
    if r[0].genre == g then 0
    else
      assert exists i :: 0 <= i < |r[1..]| && r[1..][i].genre == g by {
        var i :| 0 <= i < |r| && r[i].genre == g;
        assert r[1..][i - 1].genre == g;
      }
      1 + IndexOfGenre(r[1..], g)
  }

  /**
   * `genre(g)`: the 1-based position of `g` in the ranking. The source only
   * works for a genre that occurs in the combined table (`index[0]`).
   */
  function GenrePosition(rows: seq<Joined>, g: string): (pos: nat)
    requires exists k :: 0 <= k < |rows| && rows[k].row.genre == Some(g)
    ensures 1 <= pos <= |GenreKeys(rows)|
    ensures GenreRanking(rows)[pos - 1] == GenreHours(g, GenreTotal(rows, g))
  {
    GenreColumnSpec(rows, g);
    RankingHas(rows, g);
    var r := GenreRanking(rows);
    var k := IndexOfGenre(r, g);
    RankingEntry(rows, k);
    k + 1
  }

  /** A genre with more total playtime is placed strictly before one with less. */
  lemma GenrePositionOrder(rows: seq<Joined>, g1: string, g2: string)
    requires exists k :: 0 <= k < |rows| && rows[k].row.genre == Some(g1)
    requires exists k :: 0 <= k < |rows| && rows[k].row.genre == Some(g2)
    requires GenreTotal(rows, g1) > GenreTotal(rows, g2)
    ensures GenrePosition(rows, g1) < GenrePosition(rows, g2)
  {
    var p1, p2 := GenrePosition(rows, g1) - 1, GenrePosition(rows, g2) - 1;
    if p2 <= p1 {
      GenreRankingOrder(rows, p2, p1);
    }
  }

  /** The genres of the first `n` ranking entries. */
  function RankedGenres(r: seq<GenreHours>, n: nat): (gs: seq<string>)
    requires n <= |r|
    ensures |gs| == n && forall k :: 0 <= k < n ==> gs[k] == r[k].genre
  {
    seq(n, k requires 0 <= k < n => r[k].genre)
  }

  /** The genres with more total playtime than `t`. */
  ghost function GenresAbove(rows: seq<Joined>, t: int): set<string> {
    set x | x in GenreKeys(rows) && GenreTotal(rows, x) > t
  }

  /** The genres with at least `t` total playtime. */
  ghost function GenresAtLeast(rows: seq<Joined>, t: int): set<string> {
    set x | x in GenreKeys(rows) && GenreTotal(rows, x) >= t
  }

  lemma AtLeastMember(rows: seq<Joined>, x: string, t: int)
    requires x in GenreKeys(rows) && GenreTotal(rows, x) >= t
    ensures x in GenresAtLeast(rows, t)
  {
  }

  lemma AboveMember(rows: seq<Joined>, x: string, t: int)
    requires x in GenresAbove(rows, t)
    ensures x in GenreKeys(rows) && GenreTotal(rows, x) > t
  {
  }

  /** Every genre with more playtime than `g` is ranked before it. */
  lemma AboveRankedBefore(rows: seq<Joined>, g: string)
    requires exists k :: 0 <= k < |rows| && rows[k].row.genre == Some(g)
    ensures |GenresAbove(rows, GenreTotal(rows, g))| < GenrePosition(rows, g)
  {
    var r := GenreRanking(rows);
    var p := GenrePosition(rows, g) - 1;
    var ahead := RankedGenres(r, p);
    var above := GenresAbove(rows, GenreTotal(rows, g));
    forall x | x in above ensures x in ahead {
      AboveMember(rows, x, GenreTotal(rows, g));
      RankingHas(rows, x);
      var q :| 0 <= q < |r| && r[q].genre == x;
      RankingEntry(rows, q);
      if p <= q {
        GenreRankingOrder(rows, p, q);
      }
      assert ahead[q] == x;
    }
    SubsetCardinality(above, (set x | x in ahead));
    SetCardinality(ahead);
  }

  /** A genre ranked at or before position `p` has at least the playtime of entry `p`. */
  lemma RankedAtLeast(rows: seq<Joined>, i: nat, p: nat)
    requires i <= p < |GenreRanking(rows)|
    ensures GenreRanking(rows)[i].genre in GenresAtLeast(rows, GenreRanking(rows)[p].hours)
  {
    var r := GenreRanking(rows);
    GenreRankingOrder(rows, i, p);
    RankingEntry(rows, i);
    AtLeastMember(rows, r[i].genre, r[p].hours);
  }

  /** The first `n` ranked genres are all different. */
  lemma RankedGenresDistinct(rows: seq<Joined>, n: nat)
    requires n <= |GenreRanking(rows)|
    ensures Distinct(RankedGenres(GenreRanking(rows), n))
  {
    var upTo := RankedGenres(GenreRanking(rows), n);
    forall i, j | 0 <= i < j < n ensures upTo[i] != upTo[j] {
      RankingDistinct(rows, i, j);
    }
  }

  /** The genres ranked up to and including `g` all have at least its playtime. */
  lemma RankedUpToAtLeast(rows: seq<Joined>, g: string)
    requires exists k :: 0 <= k < |rows| && rows[k].row.genre == Some(g)
    ensures GenrePosition(rows, g) <= |GenresAtLeast(rows, GenreTotal(rows, g))|
  {
    var r := GenreRanking(rows);
    var pos := GenrePosition(rows, g);
    var upTo := RankedGenres(r, pos);
    RankedGenresDistinct(rows, pos);
    DistinctCardinality(upTo);
    var atLeast := GenresAtLeast(rows, r[pos - 1].hours);
    forall x | x in upTo ensures x in atLeast {
      var i :| 0 <= i < pos && upTo[i] == x;
      RankedAtLeast(rows, i, pos - 1);
    }
    SubsetCardinality((set x | x in upTo), atLeast);
  }

  /**
   * The position counts the genres: more than the number with strictly more
   * playtime, at most the number with at least as much. When totals are all
   * different it is exactly one more than the number of genres ahead.
   */
  lemma GenrePositionCount(rows: seq<Joined>, g: string)
    requires exists k :: 0 <= k < |rows| && rows[k].row.genre == Some(g)
    ensures 1 + |GenresAbove(rows, GenreTotal(rows, g))| <= GenrePosition(rows, g)
    ensures GenrePosition(rows, g) <= |GenresAtLeast(rows, GenreTotal(rows, g))|
  {
    AboveRankedBefore(rows, g);
    RankedUpToAtLeast(rows, g);
  }

  /**
   * When no other genre ties with `g`, its position is exactly one more than
   * the number of genres with more playtime.
   */
  lemma GenrePositionUntied(rows: seq<Joined>, g: string)
    requires exists k :: 0 <= k < |rows| && rows[k].row.genre == Some(g)
    requires forall x :: x in GenreKeys(rows) && x != g ==> GenreTotal(rows, x) != GenreTotal(rows, g)
    ensures GenrePosition(rows, g) == 1 + |GenresAbove(rows, GenreTotal(rows, g))|
  {
    var t := GenreTotal(rows, g);
    var above := GenresAbove(rows, t);
    var atLeast := GenresAtLeast(rows, t);
    forall x | x in atLeast ensures x in above + {g} {
      if x != g {
        AboveIntro(rows, x, t);
      }
    }
    SubsetCardinality(atLeast, above + {g});
    GenrePositionCount(rows, g);
  }

  lemma AboveIntro(rows: seq<Joined>, x: string, t: int)
    requires x in GenreKeys(rows) && GenreTotal(rows, x) > t
    ensures x in GenresAbove(rows, t)
  {
  }

  // ---------------------------------------------------------------------
  // userforgenre
  // ---------------------------------------------------------------------

  const TOP_PLAYERS: nat := 5

  function PlaytimeOf(j: Joined): real { j.item.playtime as real }

  /** The first five of the genre's rows once sorted by playtime, largest first. */
  function TopRows(rows: seq<Joined>, g: string): (top: seq<Joined>)
    ensures |top| == Min(TOP_PLAYERS, |RowsOfGenre(rows, g)|)
    ensures SortedDesc(top, PlaytimeOf)
  {
    var ranked := SortDesc(RowsOfGenre(rows, g), PlaytimeOf);
    SortDescSorted(RowsOfGenre(rows, g), PlaytimeOf);
    SortedPrefix(ranked, Min(TOP_PLAYERS, |ranked|), PlaytimeOf);
    ranked[..Min(TOP_PLAYERS, |ranked|)]
  }

  /**
   * The top rows are rows of the genre, taken from its rows without
   * repetition, and every row of the genre left out has no more playtime
   * than any row kept.
   */
  lemma TopRowsSpec(rows: seq<Joined>, g: string)
    ensures forall j :: j in TopRows(rows, g) ==> j in rows && j.row.genre == Some(g)
    ensures multiset(TopRows(rows, g)) <= multiset(RowsOfGenre(rows, g))
    ensures forall x, y :: x in multiset(RowsOfGenre(rows, g)) - multiset(TopRows(rows, g)) && y in TopRows(rows, g) ==>
      x.item.playtime <= y.item.playtime
  {
    var candidates := RowsOfGenre(rows, g);
    var ranked := SortDesc(candidates, PlaytimeOf);
    var n := Min(TOP_PLAYERS, |ranked|);
    var top := TopRows(rows, g);
    assert top == ranked[..n];
    SortDescSpec(candidates, PlaytimeOf);
    RankedSplit(ranked, candidates, n, PlaytimeOf);
    RowsOfGenreSpec(rows, g);
    forall j | j in top ensures j in rows && j.row.genre == Some(g) {
      assert j in multiset(candidates);
    }
  }

  function UserUrlPairs(top: seq<Joined>): (pairs: seq<(string, string)>)
    ensures |pairs| == |top|
    ensures forall k :: 0 <= k < |top| ==> pairs[k] == (top[k].item.userId, top[k].item.userUrl)
  {
    seq(|top|, k requires 0 <= k < |top| => (top[k].item.userId, top[k].item.userUrl))
  }

  /** Row `k` of `top` is the last one of user `u`, and has profile url `url`. */
  ghost predicate LastRowOf(top: seq<Joined>, k: int, u: string, url: string) {
    0 <= k < |top| && top[k].item.userId == u && top[k].item.userUrl == url &&
    forall j :: k < j < |top| ==> top[j].item.userId != u
  }

  /**
   * The user id to profile url dictionary built from some rows: each user once, with the
   * url of their last row.
   */
  lemma TopUsersSpec(top: seq<Joined>)
    ensures |DictOf(UserUrlPairs(top))| <= |top|
    ensures DictOf(UserUrlPairs(top)).Keys == set k | 0 <= k < |top| :: top[k].item.userId
    ensures forall u :: u in DictOf(UserUrlPairs(top)) ==> exists k :: LastRowOf(top, k, u, DictOf(UserUrlPairs(top))[u])
  {
    var pairs := UserUrlPairs(top);
    var m := DictOf(pairs);
    DictOfKeys(pairs);
    DictOfSize(pairs);
    assert (set k | 0 <= k < |pairs| :: pairs[k].0) == (set k | 0 <= k < |top| :: top[k].item.userId);
    forall u | u in m ensures exists k :: LastRowOf(top, k, u, m[u]) {
      LastPairWins(pairs, u);
      var k :| LastPair(pairs, k, u, m[u]);
      assert LastRowOf(top, k, u, m[u]);
    }
  }

  /**
   * `userforgenre(g)`: user id to profile url for the top rows of the genre;
   * a user with several of those rows keeps the url of the last one.
   */
  function UserForGenre(rows: seq<Joined>, g: string): (m: map<string, string>)
    ensures |m| <= TOP_PLAYERS
    ensures m.Keys == set k | 0 <= k < |TopRows(rows, g)| :: TopRows(rows, g)[k].item.userId
    ensures forall u :: u in m ==> exists k :: LastRowOf(TopRows(rows, g), k, u, m[u])
  {
    var top := TopRows(rows, g);
    TopUsersSpec(top);
    DictOf(UserUrlPairs(top))
  }

  /** Row `j` of the combined table is user `u` (profile `url`) playing genre `g`. */
  ghost predicate PlaysAs(j: Joined, g: string, u: string, url: string) {
    j.row.genre == Some(g) && j.item.userId == u && j.item.userUrl == url
  }

  /** Every user returned has a row of the genre with the url returned. */
  lemma UserForGenrePlays(rows: seq<Joined>, g: string, u: string)
    requires u in UserForGenre(rows, g)
    ensures exists k :: 0 <= k < |rows| && PlaysAs(rows[k], g, u, UserForGenre(rows, g)[u])
  {
    var top := TopRows(rows, g);
    TopRowsSpec(rows, g);
    var k :| LastRowOf(top, k, u, UserForGenre(rows, g)[u]);
    var i :| 0 <= i < |rows| && rows[i] == top[k];
  }

  // ---------------------------------------------------------------------
  // developer
  // ---------------------------------------------------------------------

  predicate IsFree(g: Game) { g.price == 0.0 }

  /** `g` is a free game of developer `dev` released in year `y`. */
  predicate FreeGameOf(g: Game, dev: string, y: int) {
    g.developer == dev && IsFree(g) && g.year == y
  }

  /** The `anio` column of the developer's free games. */
  function FreeYearColumn(games: seq<Game>, dev: string): (ys: seq<int>)
    ensures forall y :: y in ys <==> exists g :: g in games && FreeGameOf(g, dev, y)
  {
    if |games| == 0 then []
    else
      var tail := FreeYearColumn(games[1..], dev);
      var ys := (if games[0].developer == dev && IsFree(games[0]) then [games[0].year] else []) + tail;
      assert forall y :: y in ys <==> exists g :: g in games && FreeGameOf(g, dev, y) by {
        forall y ensures y in ys <==> exists g :: g in games && FreeGameOf(g, dev, y) {
          if y in tail {
            var g :| g in games[1..] && FreeGameOf(g, dev, y);
            assert g in games;
          } else if y in ys {
            assert games[0] in games && FreeGameOf(games[0], dev, y);
          }
          if exists g :: g in games && FreeGameOf(g, dev, y) {
            var g :| g in games && FreeGameOf(g, dev, y);
            if g != games[0] {
              var i :| 0 <= i < |games| && games[i] == g;
              assert g in games[1..] by { assert games[1..][i - 1] == g; }
            }
          }
        }
      }
      ys
  }

  /** The distinct years of the developer's free games, in order of first appearance. */
  function FreeYears(games: seq<Game>, dev: string): seq<int> {
    Unique(FreeYearColumn(games, dev))
  }

  /** Number of the developer's games released in year `y`. */
  function YearCount(games: seq<Game>, dev: string, y: int): nat {
    if |games| == 0 then 0
    else (if games[0].developer == dev && games[0].year == y then 1 else 0) + YearCount(games[1..], dev, y)
  }

  /** Number of the developer's free games released in year `y`. */
  function FreeCount(games: seq<Game>, dev: string, y: int): nat {
    if |games| == 0 then 0
    else (if FreeGameOf(games[0], dev, y) then 1 else 0) + FreeCount(games[1..], dev, y)
  }

  /**
   * Free games are among the developer's games of that year; a year with a
   * free game has at least one; and all of them are free exactly when the
   * two counts agree.
   */
  lemma {:induction false} FreeCountBounds(games: seq<Game>, dev: string, y: int)
    ensures FreeCount(games, dev, y) <= YearCount(games, dev, y)
    ensures (exists i :: 0 <= i < |games| && FreeGameOf(games[i], dev, y))
      <==> FreeCount(games, dev, y) >= 1
    ensures FreeCount(games, dev, y) == YearCount(games, dev, y) <==>
      forall i :: 0 <= i < |games| && games[i].developer == dev && games[i].year == y ==> IsFree(games[i])
  {
    if |games| > 0 {
      FreeCountBounds(games[1..], dev, y);
      assert forall i :: 0 < i < |games| ==> games[i] == games[1..][i - 1];
      var rest := games[1..];
      if (exists i :: 0 <= i < |games| && FreeGameOf(games[i], dev, y)) {
        var i :| 0 <= i < |games| && FreeGameOf(games[i], dev, y);
        if i > 0 { assert rest[i - 1] == games[i]; }
      }
      if FreeCount(rest, dev, y) >= 1 {
        var i :| 0 <= i < |rest| && FreeGameOf(rest[i], dev, y);
        assert games[i + 1] == rest[i];
      }
      if forall i :: 0 <= i < |rest| && rest[i].developer == dev && rest[i].year == y ==> IsFree(rest[i]) {
      } else {
        var i :| 0 <= i < |rest| && rest[i].developer == dev && rest[i].year == y && !IsFree(rest[i]);
        assert games[i + 1] == rest[i];
      }
    }
  }

  /** Share of free games in the developer's year `y`, in percent, before rounding. */
  function FreeShare(games: seq<Game>, dev: string, y: int): real {
    Percent(FreeCount(games, dev, y), YearCount(games, dev, y))
  }

  /**
   * For a year with a free game the share lies in (0, 100], and it is 100
   * exactly when every game of that year is free.
   */
  lemma FreeShareSpec(games: seq<Game>, dev: string, y: int)
    requires exists i :: 0 <= i < |games| && FreeGameOf(games[i], dev, y)
    ensures 0.0 < FreeShare(games, dev, y) <= 100.0
    ensures FreeShare(games, dev, y) == 100.0 <==>
      forall i :: 0 <= i < |games| && games[i].developer == dev && games[i].year == y ==> IsFree(games[i])
  {
    FreeCountBounds(games, dev, y);
  }

  /**
   * `developer(dev)`: for each year in which the developer has a free game,
   * the percentage of that year's games that are free (keys are the years
   * themselves, values are not rounded).
   */
  method Developer(games: seq<Game>, dev: string) returns (dicc: map<int, real>)
    ensures forall y :: y in dicc <==>
      exists i :: 0 <= i < |games| && FreeGameOf(games[i], dev, y)
    ensures forall y :: y in dicc ==> dicc[y] == FreeShare(games, dev, y) && 0.0 < dicc[y] <= 100.0
  {
    var years := FreeYears(games, dev);
    dicc := map[];
    var i := 0;
    while i < |years|
      invariant 0 <= i <= |years|
      invariant dicc.Keys == set k | 0 <= k < i :: years[k]
      invariant forall y :: y in dicc ==> dicc[y] == FreeShare(games, dev, y) && 0.0 < dicc[y] <= 100.0
    {
      var y := years[i];
      assert y in FreeYearColumn(games, dev);
      FreeCountBounds(games, dev, y);
      FreeShareSpec(games, dev, y);
      var total := YearCount(games, dev, y);
      var free := FreeCount(games, dev, y);
      var share := (free as real) / (total as real) * 100.0;
      dicc := dicc[y := share];
      i := i + 1;
    }
    forall y ensures y in dicc <==>
      exists i :: 0 <= i < |games| && FreeGameOf(games[i], dev, y) {
      if exists i :: 0 <= i < |games| && FreeGameOf(games[i], dev, y) {
        assert y in FreeYearColumn(games, dev);
        var k :| 0 <= k < |years| && years[k] == y;
      }
      if y in dicc {
        var k :| 0 <= k < |years| && years[k] == y;
        assert y in FreeYearColumn(games, dev);
      }
    }
  }

  // ---------------------------------------------------------------------
  // sentiment_analysis
  // ---------------------------------------------------------------------

  /** Labels of the sentiment scores 0, 1 and 2. */
  const SENTIMENT_LABELS: seq<string> := ["Negative", "Neutral", "Positive"]

  /** Number of reviews of year `year` whose sentiment score is `score`. */
  function SentimentCount(reviews: seq<Review>, year: int, score: int): nat {
    if |reviews| == 0 then 0
    else
      var hit := reviews[0].year == year && reviews[0].sentiment == score;
      (if hit then 1 else 0) + SentimentCount(reviews[1..], year, score)
  }

  /** Number of reviews of year `year`. */
  function YearReviewCount(reviews: seq<Review>, year: int): nat {
    if |reviews| == 0 then 0
    else (if reviews[0].year == year then 1 else 0) + YearReviewCount(reviews[1..], year)
  }

  /**
   * `sentiment_analysis(year)`: the number of that year's reviews with each
   * sentiment score, under the score's label.
   */
  method SentimentAnalysis(reviews: seq<Review>, year: int) returns (dicc: map<string, nat>)
    ensures dicc.Keys == {"Negative", "Neutral", "Positive"}
    ensures dicc["Negative"] == SentimentCount(reviews, year, 0)
    ensures dicc["Neutral"] == SentimentCount(reviews, year, 1)
    ensures dicc["Positive"] == SentimentCount(reviews, year, 2)
  {
    dicc := map[];
    for i := 0 to 3
      invariant dicc.Keys == set k | 0 <= k < i :: SENTIMENT_LABELS[k]
      invariant forall k :: 0 <= k < i ==> dicc[SENTIMENT_LABELS[k]] == SentimentCount(reviews, year, k)
    {
      var count := SentimentCount(reviews, year, i);
      dicc := dicc[SENTIMENT_LABELS[i] := count];
    }
    assert SENTIMENT_LABELS[0] == "Negative" && SENTIMENT_LABELS[1] == "Neutral" && SENTIMENT_LABELS[2] == "Positive";
  }

  /**
   * The three counts never exceed the year's reviews, and account for all of
   * them when every score is 0, 1 or 2.
   */
  lemma {:induction false} SentimentTotal(reviews: seq<Review>, year: int)
    ensures SentimentCount(reviews, year, 0) + SentimentCount(reviews, year, 1) + SentimentCount(reviews, year, 2)
      <= YearReviewCount(reviews, year)
    ensures (forall i :: 0 <= i < |reviews| && reviews[i].year == year ==> 0 <= reviews[i].sentiment <= 2) ==>
      SentimentCount(reviews, year, 0) + SentimentCount(reviews, year, 1) + SentimentCount(reviews, year, 2)
        == YearReviewCount(reviews, year)
  {
    if |reviews| > 0 {
      SentimentTotal(reviews[1..], year);
      assert forall i :: 0 < i < |reviews| ==> reviews[i] == reviews[1..][i - 1];
    }
  }
}
