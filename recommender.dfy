/**
 * The content-based game recommender: the one-hot encoded games table cut
 * to its first rows, the feature columns that the similarity is computed on,
 * and the request that ranks every game against a reference game and returns
 * a page of five, skipping the best-ranked one.
 *
 * The similarity itself (cosine similarity over the feature vectors) is a
 * parameter `sim`: nothing below depends on how it is computed.
 */
module Recommender {
  import opened Tabular

  /** The number of encoded rows the service keeps. */
  const ROW_LIMIT: nat := 15000

  /** The columns dropped before the similarity is computed. */
  const METADATA_COLUMNS: seq<string> :=
    ["genres", "title", "url", "release_date", "reviews_url", "specs", "id", "developer", "anio", "price", "early_access"]

  /** The page of candidates: skip one entry, then take five. */
  const SKIP: nat := 1
  const TAKE: nat := 5

  /** Title given to an id that the id to title dictionary does not hold. */
  const UNKNOWN_TITLE: string := "Desconocido"

  /**
   * A row of the encoded table: its `id` and `title` columns, and the numeric
   * value of every other column by column name.
   */
  datatype EncodedRow = EncodedRow(id: string, title: string, cells: map<string, real>)

  /** The encoded table as loaded: its column names in order, and its rows. */
  datatype EncodedTable = EncodedTable(columns: seq<string>, rows: seq<EncodedRow>)

  /** What the service keeps after start-up: the truncated rows and the feature columns. */
  datatype Model = Model(rows: seq<EncodedRow>, features: seq<string>)

  /** One entry of the similarity series: a row's id and its score. */
  datatype Scored = Scored(id: string, score: real)

  /** One element of the response: a game's title, id and similarity score. */
  datatype Recommendation = Recommendation(title: string, id: string, score: real)

  function ScoreOf(s: Scored): real { s.score }

  // ---------------------------------------------------------------------
  // Start-up
  // ---------------------------------------------------------------------

  /**
   * The columns left once the metadata columns are dropped: the columns that are
   * not metadata, in table order.
   */
  function FeatureColumns(columns: seq<string>): (fs: seq<string>)
    ensures |fs| <= |columns|
    ensures forall c :: c in fs <==> c in columns && c !in METADATA_COLUMNS
  {
    if |columns| == 0 then []
    else
      assert forall k :: 0 < k < |columns| ==> columns[k] == columns[1..][k - 1];
      (if columns[0] in METADATA_COLUMNS then [] else [columns[0]]) + FeatureColumns(columns[1..])
  }

  /**
   * Dropping columns keeps the order of the rest: the feature columns of two
   * column lists put together are the feature columns of each, in turn.
   */
  lemma {:induction false} FeatureColumnsAppend(a: seq<string>, b: seq<string>)
    ensures FeatureColumns(a + b) == FeatureColumns(a) + FeatureColumns(b)
  {
    if |a| == 0 {
      assert a + b == b;
    } else {
      assert (a + b)[1..] == a[1..] + b;
      FeatureColumnsAppend(a[1..], b);
    }
  }

  /** A single column is kept exactly when it is not a metadata column. */
  lemma FeatureColumnsSingle(c: string)
    ensures FeatureColumns([c]) == if c in METADATA_COLUMNS then [] else [c]
  {
    assert [c][1..] == [];
  }

  /** Every non-metadata column of the table has a value in every row. */
  ghost predicate TableWellFormed(t: EncodedTable) {
    forall i, c :: 0 <= i < |t.rows| && c in t.columns && c !in METADATA_COLUMNS ==> c in t.rows[i].cells
  }

  /** Every feature column has a value in every row of the model. */
  ghost predicate WellFormed(m: Model) {
    forall i, c :: 0 <= i < |m.rows| && c in m.features ==> c in m.rows[i].cells
  }

  /**
   * Start-up (the module-level code before the endpoint): keep the first
   * `ROW_LIMIT` rows and compute the feature columns. `drop` fails when a
   * metadata column is missing, so the table must have all of them.
   */
  function Setup(t: EncodedTable): (m: Model)
    requires forall c :: c in METADATA_COLUMNS ==> c in t.columns
    ensures |m.rows| == Min(ROW_LIMIT, |t.rows|)
    ensures forall i :: 0 <= i < |m.rows| ==> m.rows[i] == t.rows[i]
    ensures m.features == FeatureColumns(t.columns)
    ensures TableWellFormed(t) ==> WellFormed(m)
  {
    Model(t.rows[..Min(ROW_LIMIT, |t.rows|)], FeatureColumns(t.columns))
  }

  // ---------------------------------------------------------------------
  // Scoring and ranking
  // ---------------------------------------------------------------------

  /** A row's feature vector: its values in the feature columns. */
  function Features(row: EncodedRow, features: seq<string>): (v: seq<real>)
    requires forall c :: c in features ==> c in row.cells
    ensures |v| == |features|
    ensures forall k :: 0 <= k < |features| ==> v[k] == row.cells[features[k]]
  {
    seq(|features|, k requires 0 <= k < |features| => row.cells[features[k]])
  }

  predicate HasId(rows: seq<EncodedRow>, q: string) {
    exists i :: 0 <= i < |rows| && rows[i].id == q
  }

  /**
   * The reference row: several rows may carry the query id, and the endpoint
   * keeps the scores against the first of them.
   */
  function ReferenceIndex(rows: seq<EncodedRow>, q: string): (i: nat)
    requires HasId(rows, q)
    ensures i < |rows| && rows[i].id == q
    ensures forall j :: 0 <= j < i ==> rows[j].id != q
  {
    if rows[0].id == q then 0
    else
      assert HasId(rows[1..], q) by {
        var k :| 0 <= k < |rows| && rows[k].id == q;
        assert rows[1..][k - 1].id == q;
      }
      1 + ReferenceIndex(rows[1..], q)
  }

  /** Entry `j` of the series is labelled with the id of row `j`. */
  ghost predicate LabelledBy(s: seq<Scored>, rows: seq<EncodedRow>) {
    |s| == |rows| && forall j :: 0 <= j < |s| ==> s[j].id == rows[j].id
  }

  /**
   * The similarity series before sorting: one entry per model row, in row
   * order, labelled with the row's id, scoring the row against the reference.
   */
  function ScoreSeries(m: Model, q: string, sim: (seq<real>, seq<real>) -> real): (s: seq<Scored>)
    requires WellFormed(m) && HasId(m.rows, q)
    ensures LabelledBy(s, m.rows)
    ensures forall j :: 0 <= j < |s| ==>
      s[j].score == sim(Features(m.rows[ReferenceIndex(m.rows, q)], m.features), Features(m.rows[j], m.features))
  {
    var reference := Features(m.rows[ReferenceIndex(m.rows, q)], m.features);
    seq(|m.rows|, j requires 0 <= j < |m.rows| => Scored(m.rows[j].id, sim(reference, Features(m.rows[j], m.features))))
  }

  /** Dropping a label from the series: every entry labelled `q` removed, the rest in order. */
  function DropId(s: seq<Scored>, q: string): (r: seq<Scored>)
    ensures |r| <= |s|
    ensures forall x :: x in r <==> x in s && x.id != q
  {
    if |s| == 0 then []
    else
      assert forall k :: 0 < k < |s| ==> s[k] == s[1..][k - 1];
      (if s[0].id == q then [] else [s[0]]) + DropId(s[1..], q)
  }

  /** Dropping an id removes all of its entries and keeps every other entry as often as it was. */
  lemma {:induction false} DropIdMultiset(s: seq<Scored>, q: string, x: Scored)
    ensures multiset(DropId(s, q))[x] == if x.id == q then 0 else multiset(s)[x]
  {
    if |s| > 0 {
      assert s == [s[0]] + s[1..];
      DropIdMultiset(s[1..], q, x);
    }
  }

  /** Dropping the same id from two rearrangements of one series gives rearrangements of each other. */
  lemma DropIdPermutation(r: seq<Scored>, s: seq<Scored>, q: string)
    requires multiset(r) == multiset(s)
    ensures multiset(DropId(r, q)) == multiset(DropId(s, q))
  {
    forall x ensures multiset(DropId(r, q))[x] == multiset(DropId(s, q))[x] {
      DropIdMultiset(r, q, x);
      DropIdMultiset(s, q, x);
    }
  }

  /** Dropping entries from a descending series leaves it descending. */
  lemma {:induction false} DropIdSorted(s: seq<Scored>, q: string)
    requires SortedDesc(s, ScoreOf)
    ensures SortedDesc(DropId(s, q), ScoreOf)
  {
    if |s| > 0 {
      var t := s[1..];
      assert SortedDesc(t, ScoreOf) by {
        forall i, j | 0 <= i < j < |t| ensures ScoreOf(t[i]) >= ScoreOf(t[j]) {
          assert t[i] == s[i + 1] && t[j] == s[j + 1];
        }
      }
      DropIdSorted(t, q);
      var rest := DropId(t, q);
      if s[0].id != q {
        if |rest| > 0 {
          assert rest[0] in t;
          var k :| 0 <= k < |t| && t[k] == rest[0];
          assert s[k + 1] == rest[0];
        }
        ConsSorted(s[0], rest, ScoreOf);
      }
    }
  }

  /** The rows whose id is not the query id. */
  function OtherRows(rows: seq<EncodedRow>, q: string): (r: seq<EncodedRow>)
    ensures |r| <= |rows|
    ensures forall x :: x in r <==> x in rows && x.id != q
  {
    if |rows| == 0 then []
    else
      assert forall k :: 0 < k < |rows| ==> rows[k] == rows[1..][k - 1];
      (if rows[0].id == q then [] else [rows[0]]) + OtherRows(rows[1..], q)
  }

  /** A series labelled like the rows loses as many entries as the rows that carry the id. */
  lemma {:induction false} DropIdLength(s: seq<Scored>, rows: seq<EncodedRow>, q: string)
    requires LabelledBy(s, rows)
    ensures |DropId(s, q)| == |OtherRows(rows, q)|
  {
    if |s| > 0 {
      DropIdLength(s[1..], rows[1..], q);
    }
  }

  /**
   * The ranking after self-exclusion: the series sorted in descending order
   * (largest score first), then every entry of the query id dropped.
   */
  function Candidates(s: seq<Scored>, q: string): (c: seq<Scored>)
    ensures |c| == |DropId(s, q)|
    ensures forall x :: x in c ==> x.id != q && x in s
    ensures SortedDesc(c, ScoreOf)
  {
    var ranked := SortDesc(s, ScoreOf);
    SortDescSpec(s, ScoreOf);
    DropIdSorted(ranked, q);
    var c := DropId(ranked, q);
    DropIdPermutation(ranked, s, q);
    assert |c| == |multiset(c)| == |multiset(DropId(s, q))| == |DropId(s, q)|;
    assert forall x :: x in c ==> x in s by {
      forall x | x in c ensures x in s {
        assert x in multiset(ranked);
      }
    }
    c
  }

  /**
   * The candidates are exactly the entries of the other ids, in descending
   * order; which of several equal scores comes first is left open.
   */
  lemma CandidatesRanked(s: seq<Scored>, q: string)
    ensures RankedDesc(Candidates(s, q), DropId(s, q), ScoreOf)
  {
    SortDescSpec(s, ScoreOf);
    DropIdPermutation(SortDesc(s, ScoreOf), s, q);
  }

  // ---------------------------------------------------------------------
  // The page and its titles
  // ---------------------------------------------------------------------

  /** The slice of a series after its first `SKIP` entries, at most `TAKE` of them. */
  function Window(c: seq<Scored>): (w: seq<Scored>)
    ensures |w| == Min(TAKE, Max(0, |c| - SKIP))
    ensures forall k :: 0 <= k < |w| ==> w[k] == c[SKIP + k]
  {
    if |c| <= SKIP then [] else c[SKIP..Min(SKIP + TAKE, |c|)]
  }

  /** A window of a descending series is descending. */
  lemma WindowSorted(c: seq<Scored>)
    requires SortedDesc(c, ScoreOf)
    ensures SortedDesc(Window(c), ScoreOf)
  {
    var w := Window(c);
    forall i, j | 0 <= i < j < |w| ensures ScoreOf(w[i]) >= ScoreOf(w[j]) {
      assert ScoreOf(c[SKIP + i]) >= ScoreOf(c[SKIP + j]);
    }
  }

  /**
   * The page ranks in the middle of the candidates: the skipped entries
   * score at least as much as anything on the page, and everything after the
   * page at most as much.
   */
  lemma WindowPlacement(c: seq<Scored>, k: nat)
    requires SortedDesc(c, ScoreOf) && k < |Window(c)|
    ensures forall j :: 0 <= j < SKIP ==> c[j].score >= Window(c)[k].score
    ensures forall j :: SKIP + TAKE <= j < |c| ==> c[j].score <= Window(c)[k].score
  {
    assert Window(c)[k] == c[SKIP + k];
  }

  /** The (id, title) pairs of the model rows, in row order. */
  function TitlePairs(rows: seq<EncodedRow>): (pairs: seq<(string, string)>)
    ensures |pairs| == |rows|
    ensures forall j :: 0 <= j < |rows| ==> pairs[j] == (rows[j].id, rows[j].title)
  {
    seq(|rows|, j requires 0 <= j < |rows| => (rows[j].id, rows[j].title))
  }

  /** The id to title dictionary: a title for every id of the table, and no other key. */
  function TitleMap(rows: seq<EncodedRow>): (names: map<string, string>)
    ensures forall j :: 0 <= j < |rows| ==> rows[j].id in names
    ensures forall id :: id in names ==> HasId(rows, id)
  {
    var pairs := TitlePairs(rows);
    assert forall j :: 0 <= j < |rows| ==> pairs[j].0 == rows[j].id;
    DictOfKeys(pairs);
    DictOf(pairs)
  }

  /** Row `j` is the last row with id `id`, and has title `title`. */
  ghost predicate LastTitleRow(rows: seq<EncodedRow>, j: int, id: string, title: string) {
    0 <= j < |rows| && rows[j].id == id && rows[j].title == title &&
    forall k :: j < k < |rows| ==> rows[k].id != id
  }

  /** An id seen on several rows keeps the title of the last one. */
  lemma TitleMapLastWins(rows: seq<EncodedRow>, id: string)
    requires id in TitleMap(rows)
    ensures exists j :: LastTitleRow(rows, j, id, TitleMap(rows)[id])
  {
    var pairs := TitlePairs(rows);
    LastPairWins(pairs, id);
    var j :| LastPair(pairs, j, id, TitleMap(rows)[id]);
    assert LastTitleRow(rows, j, id, TitleMap(rows)[id]);
  }

  /** The title of an id, or the fallback title when the dictionary has no entry for it. */
  function TitleOr(names: map<string, string>, id: string): (title: string)
    ensures id in names ==> title == names[id]
    ensures id !in names ==> title == UNKNOWN_TITLE
  {
    if id in names then names[id] else UNKNOWN_TITLE
  }

  /** Every entry of a series labelled by the rows has a title: that of the last row with its id. */
  lemma LabelledTitle(rows: seq<EncodedRow>, s: seq<Scored>, x: Scored)
    requires LabelledBy(s, rows) && x in s
    ensures x.id in TitleMap(rows)
    ensures exists j :: LastTitleRow(rows, j, x.id, TitleOr(TitleMap(rows), x.id))
  {
    var names := TitleMap(rows);
    var i :| 0 <= i < |s| && s[i] == x;
    assert rows[i].id == x.id;
    TitleMapLastWins(rows, x.id);
    var j :| LastTitleRow(rows, j, x.id, names[x.id]);
    assert TitleOr(names, x.id) == names[x.id];
  }

  /**
   * The page: the candidates after the first, at most five of
   * them, in descending order, none of the query id.
   */
  function Page(s: seq<Scored>, q: string): (p: seq<Scored>)
    ensures |p| == Min(TAKE, Max(0, |DropId(s, q)| - SKIP))
    ensures forall k :: 0 <= k < |p| ==> p[k] == Candidates(s, q)[SKIP + k]
    ensures SortedDesc(p, ScoreOf)
    ensures forall k :: 0 <= k < |p| ==> p[k].id != q && p[k] in s
  {
    var c := Candidates(s, q);
    WindowSorted(c);
    assert forall k :: 0 <= k < |Window(c)| ==> Window(c)[k] in c;
    Window(c)
  }

  /** The response element for one series entry: its looked-up title, its id and its score. */
  function Entry(names: map<string, string>, s: Scored): Recommendation {
    Recommendation(TitleOr(names, s.id), s.id, s.score)
  }

  /** One response entry per page element, in page order, with its title looked up. */
  function Entries(names: map<string, string>, page: seq<Scored>): (rs: seq<Recommendation>)
    ensures |rs| == |page|
    ensures forall k :: 0 <= k < |page| ==> rs[k] == Entry(names, page[k])
  {
    seq(|page|, k requires 0 <= k < |page| => Entry(names, page[k]))
  }

  /** The response the endpoint builds from the page and the id to title dictionary. */
  function Response(m: Model, q: string, sim: (seq<real>, seq<real>) -> real): seq<Recommendation>
    requires WellFormed(m) && HasId(m.rows, q)
  {
    Entries(TitleMap(m.rows), Page(ScoreSeries(m, q, sim), q))
  }

  /** The loop of the endpoint: append one entry per page element. */
  method BuildResponse(names: map<string, string>, page: seq<Scored>) returns (result: seq<Recommendation>)
    ensures result == Entries(names, page)
  {
    result := [];
    for i := 0 to |page|
      invariant |result| == i
      invariant forall k :: 0 <= k < i ==> result[k] == Entry(names, page[k])
    {
      result := result + [Entry(names, page[i])];
    }
  }

  /**
   * `recomendacion_juego(q)`. The source fails when no row has the id (the
   * similarity gets no reference row), so the id must be present.
   */
  method Recommend(m: Model, q: string, sim: (seq<real>, seq<real>) -> real) returns (result: seq<Recommendation>)
    requires WellFormed(m) && HasId(m.rows, q)
    ensures result == Response(m, q, sim)
  {
    var names := TitleMap(m.rows);
    var scores := ScoreSeries(m, q, sim);
    var page := Page(scores, q);
    result := BuildResponse(names, page);
  }

  /**
   * Skip one, take five: the response has min(5, max(0, n - 1)) entries for
   * the n rows of other ids.
   */
  lemma ResponseLength(m: Model, q: string, sim: (seq<real>, seq<real>) -> real)
    requires WellFormed(m) && HasId(m.rows, q)
    ensures |Response(m, q, sim)| == Min(TAKE, Max(0, |OtherRows(m.rows, q)| - SKIP))
  {
    DropIdLength(ScoreSeries(m, q, sim), m.rows, q);
  }

  /** Entry k of the response is candidate k + 1, with its id and score. */
  lemma ResponseWindow(m: Model, q: string, sim: (seq<real>, seq<real>) -> real)
    requires WellFormed(m) && HasId(m.rows, q)
    ensures forall k :: 0 <= k < |Response(m, q, sim)| ==>
      var c := Candidates(ScoreSeries(m, q, sim), q);
      Response(m, q, sim)[k].id == c[SKIP + k].id && Response(m, q, sim)[k].score == c[SKIP + k].score
  {
  }

  /** The `id` column of some rows. */
  function RowIds(rows: seq<EncodedRow>): (ids: seq<string>)
    ensures |ids| == |rows|
    ensures forall j :: 0 <= j < |rows| ==> ids[j] == rows[j].id
  {
    seq(|rows|, j requires 0 <= j < |rows| => rows[j].id)
  }

  /** The distinct ids of some rows. */
  function IdSet(rows: seq<EncodedRow>): set<string> {
    set x | x in RowIds(rows)
  }

  /** Each distinct id other than `q` has at least one row among the other rows. */
  lemma OtherRowsCount(rows: seq<EncodedRow>, q: string)
    ensures |IdSet(rows)| <= |OtherRows(rows, q)| + 1
  {
    var others := OtherRows(rows, q);
    var ids := IdSet(rows);
    var otherIds := IdSet(others);
    forall x | x in ids ensures x in otherIds + {q} {
      var j :| 0 <= j < |rows| && RowIds(rows)[j] == x;
      if x != q {
        assert rows[j] in others;
        var k :| 0 <= k < |others| && others[k] == rows[j];
        assert RowIds(others)[k] == x;
      }
    }
    SubsetCardinality(ids, otherIds + {q});
    SetCardinality(RowIds(others));
  }

  /** The page length once at least `SKIP + TAKE` candidates remain. */
  lemma FullPage(n: int)
    requires n >= SKIP + TAKE
    ensures Min(TAKE, Max(0, n - SKIP)) == TAKE
  {
  }

  /**
   * With at least seven distinct ids in the model (the query, the skipped
   * candidate and five more) the response is a full page of five.
   */
  lemma ResponseFull(m: Model, q: string, sim: (seq<real>, seq<real>) -> real)
    requires WellFormed(m) && HasId(m.rows, q)
    requires |IdSet(m.rows)| >= SKIP + TAKE + 1
    ensures |Response(m, q, sim)| == TAKE
  {
    OtherRowsCount(m.rows, q);
    ResponseLength(m, q, sim);
    FullPage(|OtherRows(m.rows, q)|);
  }

  /**
   * Row `j` of the model carries `id`, and `score` is the similarity between
   * the reference row's features and row `j`'s.
   */
  ghost predicate ScoredRow(m: Model, q: string, sim: (seq<real>, seq<real>) -> real, j: int, id: string, score: real) {
    WellFormed(m) && HasId(m.rows, q) && 0 <= j < |m.rows| && m.rows[j].id == id &&
    score == sim(Features(m.rows[ReferenceIndex(m.rows, q)], m.features), Features(m.rows[j], m.features))
  }

  /** Some model row carries the entry's id and scores the entry's score. */
  ghost predicate ScoredEntry(m: Model, q: string, sim: (seq<real>, seq<real>) -> real, e: Recommendation) {
    exists j :: ScoredRow(m, q, sim, j, e.id, e.score)
  }

  /**
   * Every entry's score is the similarity between the query game and a
   * model row that carries the entry's id.
   */
  lemma ResponseScores(m: Model, q: string, sim: (seq<real>, seq<real>) -> real)
    requires WellFormed(m) && HasId(m.rows, q)
    ensures forall k :: 0 <= k < |Response(m, q, sim)| ==> ScoredEntry(m, q, sim, Response(m, q, sim)[k])
  {
    var s := ScoreSeries(m, q, sim);
    var page := Page(s, q);
    var r := Response(m, q, sim);
    assert r == Entries(TitleMap(m.rows), page);
    forall k | 0 <= k < |r|
      ensures ScoredEntry(m, q, sim, r[k])
    {
      var j := SeriesRow(m, q, sim, page[k]);
      assert r[k] == Entry(TitleMap(m.rows), page[k]);
      assert ScoredRow(m, q, sim, j, r[k].id, r[k].score);
    }
  }

  /** Every entry of the similarity series is the score of a model row with its id. */
  lemma SeriesRow(m: Model, q: string, sim: (seq<real>, seq<real>) -> real, x: Scored) returns (j: nat)
    requires WellFormed(m) && HasId(m.rows, q) && x in ScoreSeries(m, q, sim)
    ensures ScoredRow(m, q, sim, j, x.id, x.score)
  {
    var s := ScoreSeries(m, q, sim);
    j :| 0 <= j < |s| && s[j] == x;
  }

  /** No entry of the response is the query game. */
  lemma ResponseExcludesQuery(m: Model, q: string, sim: (seq<real>, seq<real>) -> real)
    requires WellFormed(m) && HasId(m.rows, q)
    ensures forall k :: 0 <= k < |Response(m, q, sim)| ==> Response(m, q, sim)[k].id != q
  {
    var page := Page(ScoreSeries(m, q, sim), q);
    assert forall k :: 0 <= k < |page| ==> page[k].id != q;
  }

  /** Scores in the response do not increase. */
  lemma ResponseOrder(m: Model, q: string, sim: (seq<real>, seq<real>) -> real)
    requires WellFormed(m) && HasId(m.rows, q)
    ensures forall i, j :: 0 <= i < j < |Response(m, q, sim)| ==> Response(m, q, sim)[i].score >= Response(m, q, sim)[j].score
  {
    var page := Page(ScoreSeries(m, q, sim), q);
    forall i, j | 0 <= i < j < |page| ensures page[i].score >= page[j].score {
      assert ScoreOf(page[i]) >= ScoreOf(page[j]);
    }
  }

  /**
   * Every entry carries the title of the last model row with its id; the
   * 'Desconocido' fallback cannot occur.
   */
  lemma ResponseTitles(m: Model, q: string, sim: (seq<real>, seq<real>) -> real)
    requires WellFormed(m) && HasId(m.rows, q)
    ensures forall k :: 0 <= k < |Response(m, q, sim)| ==>
      Response(m, q, sim)[k].id in TitleMap(m.rows) &&
      exists j :: LastTitleRow(m.rows, j, Response(m, q, sim)[k].id, Response(m, q, sim)[k].title)
  {
    var s := ScoreSeries(m, q, sim);
    var page := Page(s, q);
    var r := Response(m, q, sim);
    forall k | 0 <= k < |r|
      ensures r[k].id in TitleMap(m.rows) && exists j :: LastTitleRow(m.rows, j, r[k].id, r[k].title)
    {
      LabelledTitle(m.rows, s, page[k]);
    }
  }
}
