/**
 * The three tables the endpoints read (games, user libraries, reviews) and
 * the two tables derived from them at start-up: games exploded to one row
 * per genre, and that joined with the library rows on the game id.
 */
module Datasets {
  import opened Tabular

  /** A row of the games table, its genre list already parsed. */
  datatype Game = Game(id: string, title: string, genres: seq<string>, developer: string, year: int, price: real)

  /** A row of the items table: one game in one user's library. */
  datatype Item = Item(userId: string, userUrl: string, itemsCount: int, itemId: string, playtime: int)

  /** A row of the reviews table; `date` is the text of the `fecha` column. */
  datatype Review = Review(userId: string, recommend: bool, date: string, year: int, sentiment: int)

  /**
   * A row of the exploded games table: a game with one of its genres, or with
   * no genre (pandas' NaN) when its genre list is empty.
   */
  datatype GenreRow = GenreRow(game: Game, genre: Option<string>)

  /** A row of the combined table: a library row next to a matching genre row. */
  datatype Joined = Joined(item: Item, row: GenreRow)

  /** One row per listed genre, in list order. */
  function GenreRows(g: Game, gs: seq<string>): (rows: seq<GenreRow>)
    ensures |rows| == |gs|
  {
    if |gs| == 0 then [] else [GenreRow(g, Some(gs[0]))] + GenreRows(g, gs[1..])
  }

  lemma {:induction false} GenreRowsAt(g: Game, gs: seq<string>)
    ensures forall k :: 0 <= k < |gs| ==> GenreRows(g, gs)[k] == GenreRow(g, Some(gs[k]))
  {
    if |gs| > 0 {
      GenreRowsAt(g, gs[1..]);
    }
  }

  /** Exploding one game on its genres: a row per genre, or one genre-less row. */
  function ExplodeGame(g: Game): seq<GenreRow> {
    if |g.genres| == 0 then [GenreRow(g, None)] else GenreRows(g, g.genres)
  }

  /**
   * How many rows `explode` makes of one copy of `r.game` that equal `r`:
   * one per occurrence of the genre in the list, and one genre-less row for
   * an empty list.
   */
  function RowsPerGame(r: GenreRow): nat {
    match r.genre
    case Some(x) => multiset(r.game.genres)[x]
    case None => if r.game.genres == [] then 1 else 0
  }

  /** Number of rows `explode` makes of `games`. */
  function ExplodedSize(games: seq<Game>): nat {
    if |games| == 0 then 0 else Max(1, |games[0].genres|) + ExplodedSize(games[1..])
  }

  /** The games table exploded on its genre lists: each game's rows, games in table order. */
  function Explode(games: seq<Game>): (rows: seq<GenreRow>)
    ensures |rows| == ExplodedSize(games)
    ensures forall i :: 0 <= i < |rows| ==> rows[i].game in games
    ensures forall i :: 0 <= i < |rows| ==>
      if rows[i].genre.Some? then rows[i].genre.value in rows[i].game.genres else rows[i].game.genres == []
    ensures forall i, k :: 0 <= i < |games| && 0 <= k < |games[i].genres| ==>
      GenreRow(games[i], Some(games[i].genres[k])) in rows
    ensures forall i :: 0 <= i < |games| && games[i].genres == [] ==> GenreRow(games[i], None) in rows
  {
    if |games| == 0 then []
    else
      var head := ExplodeGame(games[0]);
      var tail := Explode(games[1..]);
      GenreRowsAt(games[0], games[0].genres);
      assert forall i :: 0 < i < |games| ==> games[i] == games[1..][i - 1];
      head + tail
  }

  /** The genre rows whose game id is the item's, in table order. */
  function Matches(it: Item, rows: seq<GenreRow>): seq<Joined> {
    if |rows| == 0 then []
    else (if rows[0].game.id == it.itemId then [Joined(it, rows[0])] else []) + Matches(it, rows[1..])
  }

  /**
   * The inner merge of the library rows with the genre rows on the game id:
   * every pair of an item and a genre row with equal game ids, in the order
   * of the items.
   */
  function Merge(items: seq<Item>, rows: seq<GenreRow>): (joined: seq<Joined>)
    ensures forall i :: 0 <= i < |joined| ==>
      joined[i].item in items && joined[i].row in rows && joined[i].row.game.id == joined[i].item.itemId
    ensures forall i, k :: 0 <= i < |items| && 0 <= k < |rows| && rows[k].game.id == items[i].itemId ==>
      Joined(items[i], rows[k]) in joined
  {
    if |items| == 0 then []
    else
      MatchesSpec(items[0], rows);
      assert forall i :: 0 < i < |items| ==> items[i] == items[1..][i - 1];
      Matches(items[0], rows) + Merge(items[1..], rows)
  }

  lemma {:induction false} MatchesSpec(it: Item, rows: seq<GenreRow>)
    ensures forall j :: 0 <= j < |Matches(it, rows)| ==>
      Matches(it, rows)[j].item == it && Matches(it, rows)[j].row in rows && Matches(it, rows)[j].row.game.id == it.itemId
    ensures forall k :: 0 <= k < |rows| && rows[k].game.id == it.itemId ==> Joined(it, rows[k]) in Matches(it, rows)
  {
    if |rows| > 0 {
      MatchesSpec(it, rows[1..]);
      assert forall k :: 0 < k < |rows| ==> rows[k] == rows[1..][k - 1];
    }
  }

  /**
   * Exploding a table split in two explodes each half in turn; with
   * `ExplodeGame` this fixes the rows and their order.
   */
  lemma {:induction false} ExplodeSplit(a: seq<Game>, b: seq<Game>)
    ensures Explode(a + b) == Explode(a) + Explode(b)
  {
    if |a| == 0 {
      assert a + b == b;
    } else {
      assert (a + b)[1..] == a[1..] + b;
      ExplodeSplit(a[1..], b);
    }
  }

  lemma {:induction false} GenreRowsMultiset(g: Game, gs: seq<string>, r: GenreRow)
    ensures multiset(GenreRows(g, gs))[r] == if r.game == g && r.genre.Some? then multiset(gs)[r.genre.value] else 0
  {
    if |gs| > 0 {
      GenreRowsMultiset(g, gs[1..], r);
      ConsCount(GenreRows(g, gs), r);
      if r.genre.Some? {
        ConsCount(gs, r.genre.value);
      }
    }
  }

  /**
   * Each exploded row occurs as often as its game occurs in the table, times
   * the rows one copy of that game makes of it.
   */
  lemma {:induction false} ExplodeMultiset(games: seq<Game>, r: GenreRow)
    ensures multiset(Explode(games))[r] == multiset(games)[r.game] * RowsPerGame(r)
  {
    if |games| > 0 {
      var g := games[0];
      var here := if g == r.game then 1 else 0;
      ExplodeMultiset(games[1..], r);
      ExplodeGameMultiset(g, r);
      ExplodeCons(games, r);
      ConsCount(games, r.game);
      Distribute(multiset(Explode(games))[r], here, multiset(games[1..])[r.game], RowsPerGame(r),
        multiset(ExplodeGame(g))[r], multiset(Explode(games[1..]))[r]);
    }
  }

  lemma ExplodeGameMultiset(g: Game, r: GenreRow)
    ensures multiset(ExplodeGame(g))[r] == (if g == r.game then 1 else 0) * RowsPerGame(r)
  {
    if |g.genres| > 0 {
      GenreRowsMultiset(g, g.genres, r);
    }
  }

  lemma ExplodeCons(games: seq<Game>, r: GenreRow)
    requires |games| > 0
    ensures multiset(Explode(games))[r] == multiset(ExplodeGame(games[0]))[r] + multiset(Explode(games[1..]))[r]
  {
  }

  lemma Distribute(total: nat, h: nat, t: nat, c: nat, a: nat, b: nat)
    requires total == a + b && a == h * c && b == t * c
    ensures total == (h + t) * c
  {
  }

  /**
   * A library row meets each genre row with its game id once per copy of
   * that genre row, and meets nothing else.
   */
  lemma {:induction false} MatchesMultiset(it: Item, rows: seq<GenreRow>, j: Joined)
    ensures multiset(Matches(it, rows))[j] ==
      if j.item == it && j.row.game.id == it.itemId then multiset(rows)[j.row] else 0
  {
    if |rows| > 0 {
      MatchesMultiset(it, rows[1..], j);
      ConsCount(rows, j.row);
    }
  }

  /**
   * The inner merge holds each matching (library row, genre row) pair once
   * for every copy of the library row times every copy of the genre row.
   */
  lemma {:induction false} MergeMultiset(items: seq<Item>, rows: seq<GenreRow>, j: Joined)
    ensures multiset(Merge(items, rows))[j] ==
      if j.row.game.id == j.item.itemId then multiset(items)[j.item] * multiset(rows)[j.row] else 0
  {
    if |items| > 0 {
      var here := if items[0] == j.item then 1 else 0;
      MergeMultiset(items[1..], rows, j);
      MatchesMultiset(items[0], rows, j);
      MergeCons(items, rows, j);
      ConsCount(items, j.item);
      if j.row.game.id == j.item.itemId {
        Distribute(multiset(Merge(items, rows))[j], here, multiset(items[1..])[j.item], multiset(rows)[j.row],
          multiset(Matches(items[0], rows))[j], multiset(Merge(items[1..], rows))[j]);
      }
    }
  }

  lemma MergeCons(items: seq<Item>, rows: seq<GenreRow>, j: Joined)
    requires |items| > 0
    ensures multiset(Merge(items, rows))[j] == multiset(Matches(items[0], rows))[j] + multiset(Merge(items[1..], rows))[j]
  {
  }

  /** Merging a library split in two merges each half in turn: the result follows the library's order. */
  lemma {:induction false} MergeSplit(a: seq<Item>, b: seq<Item>, rows: seq<GenreRow>)
    ensures Merge(a + b, rows) == Merge(a, rows) + Merge(b, rows)
  {
    if |a| == 0 {
      assert a + b == b;
    } else {
      assert (a + b)[1..] == a[1..] + b;
      MergeSplit(a[1..], b, rows);
    }
  }

  /** The combined table of the genre queries: library rows joined with exploded games. */
  function Combined(items: seq<Item>, games: seq<Game>): seq<Joined> {
    Merge(items, Explode(games))
  }

  /**
   * A combined row carries genre `x` exactly when it pairs a library row with
   * a game of the same id that lists `x` among its genres.
   */
  lemma CombinedGenre(items: seq<Item>, games: seq<Game>, it: Item, g: Game, x: string)
    ensures Joined(it, GenreRow(g, Some(x))) in Combined(items, games)
        <==> it in items && g in games && g.id == it.itemId && x in g.genres
  {
    var rows := Explode(games);
    if it in items && g in games && g.id == it.itemId && x in g.genres {
      var i :| 0 <= i < |games| && games[i] == g;
      var k :| 0 <= k < |g.genres| && g.genres[k] == x;
      assert GenreRow(games[i], Some(games[i].genres[k])) in rows;
      var n :| 0 <= n < |items| && items[n] == it;
      var m :| 0 <= m < |rows| && rows[m] == GenreRow(g, Some(x));
    }
    if Joined(it, GenreRow(g, Some(x))) in Combined(items, games) {
      var j :| 0 <= j < |Combined(items, games)| && Combined(items, games)[j] == Joined(it, GenreRow(g, Some(x)));
      var m :| 0 <= m < |rows| && rows[m] == GenreRow(g, Some(x));
    }
  }
}
