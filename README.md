# Steam games API: a verified model of its queries and recommender

This project models `main.py`, the whole service, in Dafny. The service loads
three tables: games, user libraries ("items") and reviews. It explodes each
game into one row per genre and joins those rows with the library rows. It
then answers six reporting queries:

- `userdata`
- `countreviews`
- `genre`
- `userforgenre`
- `developer`
- `sentiment_analysis`

It also serves `recomendacion_juego`, a content-based recommender over a
one-hot encoded games table.

Tables are sequences of datatypes, and percentages are exact `real` values.
Pandas operations are written out as functions over sequences:

- filter;
- `sum` and `count`;
- descending `sort_values`;
- `head` and positional slices;
- `unique`;
- `dict(zip(...))`;
- `explode`;
- inner `merge`.

The three endpoints that build their answer in a loop are methods with loop
invariants. They are `recomendacion_juego`, `developer` and
`sentiment_analysis`, modelled as `Recommender.Recommend` (its loop is in
`Recommender.BuildResponse`), `Queries.Developer` and
`Queries.SentimentAnalysis`. The other endpoints are functions.

The project has four modules:

- `Tabular` (`tabular.dfy`) holds the generic table operations:
  - a descending sort, specified only by "a permutation, in non-increasing order", because pandas' default sort is not stable;
  - `unique` in order of first appearance;
  - dictionaries built from pairs, where the last value wins;
  - the zero-guarded percentage;
  - Python's ordering of strings.
- `Datasets` (`datasets.dfy`) holds the three input tables, `explode` and the inner merge.
- `Queries` (`queries.dfy`) holds the six reporting endpoints.
- `Recommender` (`recommender.dfy`) holds start-up and the recommendation request:
  - Start-up takes the first 15000 rows and the feature columns.
  - The request scores every row, sorts, drops the query id, skips one entry, takes five, and looks up titles.

The similarity function is a parameter `sim`. Nothing proved depends on how it
is computed.

## Model

| member | source | states |
|---|---|---|
| `Datasets.Explode` | main.py:20 | The row count is the sum over games of max(1, number of genres). Every row pairs a game of the table with one of its genres, or with no genre when its list is empty. Every (game, listed genre) pair and every genre-less game has a row. |
| `Datasets.ExplodeMultiset` | main.py:20 | Each exploded row occurs as often as its game occurs in the table, times the number of times its genre is listed; a genre-less row occurs once per copy of a game with an empty list. |
| `Datasets.ExplodeSplit` | main.py:20 | Exploding a table split in two explodes each half in turn, so the rows follow the games' order. |
| `Datasets.Merge` | main.py:23 | Every pair of a library row and a genre row with equal game id is in the result, and nothing else is. How often each pair occurs is stated by `MergeMultiset`. |
| `Datasets.MatchesSpec` | main.py:23 | The matches of one library row are exactly the genre rows with its game id. How often each occurs is stated by `MatchesMultiset`. |
| `Datasets.MatchesMultiset` | main.py:23 | One library row meets each genre row with its game id once per copy of that genre row, and meets nothing else. |
| `Datasets.MergeMultiset` | main.py:23 | Each matching (library row, genre row) pair occurs (copies of the library row) × (copies of the genre row) times; a non-matching pair never occurs. |
| `Datasets.MergeSplit` | main.py:23 | Merging a library split in two merges each half in turn, so the result follows the library's order. |
| `Datasets.CombinedGenre` | main.py:17-23 | A combined row carries genre x exactly when it pairs a library row with a game of the same id that lists x. |
| `Queries.UserItems` | main.py:29 | The user's library rows are exactly the rows with that user id. |
| `Queries.UserReviews` | main.py:30 | The user's reviews are exactly the reviews with that user id. |
| `Queries.UserReviewsMultiset` | main.py:30 | The filter keeps every copy of each of the user's reviews and no other review. |
| `Queries.UserReviewsCounts` | main.py:42-43 | The filtered reviews' length is the number of the user's reviews in the table, and their recommend sum the number of those that recommend. |
| `Queries.CountRecommended` | main.py:43 | The recommend sum is at most the review count. It is 0 exactly when no review recommends, and equal to the count exactly when all do. |
| `Queries.RecommendRateSpec` | main.py:44 | The percentage lies in [0, 100]. It is 0 exactly when no review recommends, including the no-review guard. It is 100 exactly when there is a review and all of them recommend. |
| `Queries.OwnedIds` | main.py:33 | An id is among the user's item ids exactly when some library row of the user holds it. |
| `Queries.SpentByFilter` | main.py:36-39 | Filtering the games by the user's item ids and summing prices gives `Spent`, the reference definition: the price of every game row the user owns. |
| `Queries.SkipOtherUsers` | main.py:29 | Library rows of other users in front of the user's first row do not change the filtered library. |
| `Queries.FirstIndexOfUser` | main.py:47 | Returns the index of the user's first library row. |
| `Queries.FirstUserItem` | main.py:47 | The first row of the filtered library is the user's first library row in the table. |
| `Queries.UserData` | main.py:27-49 | Money spent equals `Spent`. The percentage is 100 · (the user's recommending reviews) / (the user's reviews), counted over the whole table, or 0 when the user has none. It lies in [0, 100], is 0 exactly when none of the user's reviews recommends, and is 100 exactly when the user has reviews and all recommend. The item count is `items_count` of the user's first library row. |
| `Queries.UserReviewsRate` | main.py:42-44 | "No recommending review" and "all reviews recommend" mean the same over the filtered reviews as over the whole table restricted to the user. |
| `Queries.SpentSplit` | main.py:39 | Money spent adds up over a games table split in two. |
| `Queries.SpentNonNegative` | main.py:39 | With non-negative prices, money spent is non-negative. |
| `Queries.WindowReviews` | main.py:55 | A review is kept exactly when its `fecha` is strictly after the start and strictly before the end, compared as strings. |
| `Queries.CountReviews` | main.py:53-61 | The count is the number of reviews in the window. The percentage is the guarded rate over them, so it is 0 for an empty window and lies in [0, 100]. |
| `Queries.EmptyWindow` | main.py:55 | When the start is not before the end, the window is empty and the result is (0, 0). |
| `Queries.WindowSplit` | main.py:55 | The window of a table split in two is the window of each half, in turn. |
| `Queries.WindowWiden` | main.py:55 | Moving the start earlier or the end later never loses a review. |
| `Queries.RowsOfGenreSpec` | main.py:79 | Selecting a genre keeps exactly the combined rows of that genre. Rows without a genre never match. |
| `Queries.RowsOfGenreMultiset` | main.py:68-79 | Selecting a genre keeps every copy of each row of that genre, and no other row, so the group sum counts repeated rows. |
| `Queries.GenreColumnSpec` | main.py:68 | A genre is a group key exactly when some combined row carries it. |
| `Queries.GenreTableSpec` | main.py:68 | The group table holds each genre that occurs, once, with its total playtime. |
| `Queries.GroupTablePermutation` | main.py:70 | Rearranging a group table (as the sort does) keeps it a group table. |
| `Queries.GenreRankingSpec` | main.py:68-72 | The ranking holds each occurring genre once, with its total playtime. |
| `Queries.RankingEntry` | main.py:68-72 | Every ranking entry is an occurring genre paired with its total. |
| `Queries.RankingHas` | main.py:68-72 | Every occurring genre has a ranking entry. |
| `Queries.RankingDistinct` | main.py:68-72 | No genre has two ranking entries. |
| `Queries.GenreRankingOrder` | main.py:70 | Ranking entries are in non-increasing order of total playtime. |
| `Queries.IndexOfGenre` | main.py:73 | Returns the first index holding the genre. No earlier index holds it. |
| `Queries.GenrePosition` | main.py:66-74 | The position lies in 1..#genres. The ranking entry at that position is the genre with its total playtime. |
| `Queries.GenrePositionOrder` | main.py:70-73 | A genre with strictly more total playtime gets a strictly smaller position. |
| `Queries.AboveRankedBefore` | main.py:70-73 | Every genre with more playtime is placed before the given genre, among the genres `RankedGenres` lists ahead of it. So their number is less than its position. |
| `Queries.RankedAtLeast` | main.py:70-73 | A genre ranked at or before entry p has at least entry p's playtime. |
| `Queries.RankedGenresDistinct` | main.py:70-73 | The genres of the first n ranking entries are all different. |
| `Queries.RankedUpToAtLeast` | main.py:70-73 | The position is at most the number of genres with at least as much playtime. |
| `Queries.GenrePositionCount` | main.py:68-73 | 1 + #(genres with more playtime) <= position <= #(genres with at least as much playtime). |
| `Queries.GenrePositionUntied` | main.py:68-73 | When no other genre has the same total, the position is exactly 1 + the number of genres with more playtime. |
| `Queries.TopRows` | main.py:79-82 | The top rows number min(5, rows of the genre) and are in non-increasing playtime order. |
| `Queries.TopRowsSpec` | main.py:79-82 | The top rows are rows of the genre, taken without repetition. Every row of the genre left out has no more playtime than any row kept. |
| `Queries.TopUsersSpec` | main.py:84 | The dictionary built from the rows' (user id, url) pairs (`UserUrlPairs`) has at most one key per row. Its keys are exactly the rows' user ids. Each user maps to the url of their last row. |
| `Queries.UserForGenre` | main.py:77-85 | At most five users. The keys are exactly the users of the top rows. Each user maps to the url of their last top row. |
| `Queries.UserForGenrePlays` | main.py:77-85 | Every returned user has a combined row of the genre with the returned url. |
| `Queries.FreeYearColumn` | main.py:90 | A year is in the column exactly when the developer has a free game of that year. |
| `Queries.FreeCountBounds` | main.py:94-95 | Free games of the year are at most all the year's games. There is at least one exactly when a free game of that year exists. The counts agree exactly when every game of that year is free. |
| `Queries.FreeShareSpec` | main.py:94-96 | For a year with a free game, the share lies in (0, 100]. It is 100 exactly when every game of that year is free. |
| `Queries.Developer` | main.py:88-98 | The keys are exactly the years with a free game of the developer. Each value is 100·free/total for that year, unrounded, and lies in (0, 100]. |
| `Queries.SentimentAnalysis` | main.py:101-110 | The keys are exactly Negative, Neutral and Positive. Each maps to the number of that year's reviews scored 0, 1 and 2 respectively. |
| `Queries.SentimentTotal` | main.py:103-109 | The three counts add up to at most the year's reviews. They add up to exactly that when every score is 0, 1 or 2. |
| `Tabular.InsertMultiset` | main.py:145 | Inserting into a sorted sequence adds exactly that entry. |
| `Tabular.InsertSorted` | main.py:145 | Inserting into a descending sequence keeps it descending. |
| `Tabular.ConsSorted` | main.py:145 | Putting an entry no smaller than the head in front keeps a sequence descending. |
| `Tabular.SortDescSorted` | main.py:145 | The descending sort leaves its input in non-increasing order. |
| `Tabular.SortDescPermutes` | main.py:145 | The descending sort only rearranges its input. |
| `Tabular.SortDescSpec` | main.py:70 | The sort is a permutation of its input in non-increasing order. |
| `Tabular.SortedAt` | main.py:81 | Any two sorted entries, in order, have non-increasing keys. |
| `Tabular.RankedSplit` | main.py:82 | `head(n)` of a ranking comes from the input. Whatever it leaves out ranks no higher than anything it keeps. |
| `Tabular.SplitMultiset` | main.py:82 | A sequence is its first n entries plus the rest. |
| `Tabular.Unique` | main.py:90 | The distinct values are exactly the values of the input, with no repetition. |
| `Tabular.DistinctMultiplicity` | main.py:90 | In a sequence without repetitions every value occurs at most once. |
| `Tabular.PermutationDistinct` | main.py:70 | A rearrangement of a sequence without repetitions has none. |
| `Tabular.DistinctCardinality` | main.py:73 | A sequence without repetitions has as many distinct values as entries. |
| `Tabular.SetCardinality` | main.py:73 | No sequence has more distinct values than entries. |
| `Tabular.SubsetCardinality` | main.py:73 | A subset has no more elements than its superset. |
| `Tabular.DictOfKeys` | main.py:148 | The dictionary's keys are exactly the first components of the pairs. |
| `Tabular.DictOfSize` | main.py:84 | The dictionary has no more keys than there are pairs. |
| `Tabular.LastPairWins` | main.py:148 | Each key maps to the value of its last pair. |
| `Tabular.Percent` | main.py:61 | 0 when there is nothing to divide by. For part <= whole it lies in [0, 100]. With a positive whole it is 100 exactly when part = whole and 0 exactly when part = 0. |
| `Tabular.StrLessIrreflexive` | main.py:55 | No string is before itself. |
| `Tabular.StrLessTransitive` | main.py:55 | String order is transitive. |
| `Tabular.StrLessTotal` | main.py:55 | Any two different strings are ordered one way or the other. |
| `Recommender.FeatureColumns` | main.py:121 | A column is a feature exactly when it is a column of the table and not one of the 11 metadata names. |
| `Recommender.FeatureColumnsAppend` | main.py:121 | Dropping columns keeps the order of the rest: the features of two column lists put together are the features of each, in turn. |
| `Recommender.FeatureColumnsSingle` | main.py:121 | A single column is kept exactly when it is not metadata. |
| `Recommender.Setup` | main.py:118-121 | The model keeps the first min(15000, n) rows unchanged. Its features are the feature columns. A table with values in every feature column gives a well-formed model. All metadata columns must exist, because `drop` fails otherwise. |
| `Recommender.ReferenceIndex` | main.py:136-145 | The reference is the first row with the query id. |
| `Recommender.DropId` | main.py:151-152 | Dropping the query id keeps exactly the entries of other ids. |
| `Recommender.DropIdMultiset` | main.py:152 | Every entry of the query id is removed. Every other entry is kept as often as it was. |
| `Recommender.DropIdPermutation` | main.py:145-152 | Dropping an id from two rearrangements of one series gives rearrangements of each other. |
| `Recommender.DropIdSorted` | main.py:145-152 | Dropping entries from a descending series leaves it descending. |
| `Recommender.OtherRows` | main.py:152 | Keeps exactly the model rows with a different id. |
| `Recommender.DropIdLength` | main.py:142-152 | The series loses exactly as many entries as there are rows with the query id. |
| `Recommender.Candidates` | main.py:145-152 | The sorted, self-excluded series has the size of the self-excluded series. It holds no entry of the query id and only entries of the series. It is descending. |
| `Recommender.CandidatesRanked` | main.py:145-152 | The candidates are a rearrangement, in non-increasing score order, of the entries of other ids. |
| `Recommender.Window` | main.py:158 | `c[1:6]` has min(5, max(0, \|c\| - 1)) entries, and entry k is `c[1 + k]`. |
| `Recommender.WindowSorted` | main.py:158 | A window of a descending series is descending. |
| `Recommender.WindowPlacement` | main.py:158 | The skipped entry scores at least as much as every page entry. Everything after the page scores at most as much. |
| `Recommender.TitleMap` | main.py:148 | Every model id has a title. There is no other key. |
| `Recommender.TitleMapLastWins` | main.py:148 | An id on several rows keeps the title of the last one. |
| `Recommender.LabelledTitle` | main.py:148-159 | Every series entry's id has a title: that of the last row with that id. |
| `Recommender.Page` | main.py:158 | The page has min(5, max(0, n - 1)) entries for the n self-excluded entries. Entry k is candidate k + 1. The page is descending, holds no entry of the query id, and holds only series entries. |
| `Recommender.BuildResponse` | main.py:155-160 | The loop builds `Entries`: exactly one entry per page element, in order, each with the title `TitleOr` looks up (the mapped title, or 'Desconocido' for an id the dictionary lacks), its id and its score. |
| `Recommender.Recommend` | main.py:123-163 | The endpoint returns the titled entries of the page of the ranking. |
| `Recommender.ResponseLength` | main.py:158 | The response has min(5, max(0, n - 1)) entries, where n is the number of rows of other ids. |
| `Recommender.ResponseWindow` | main.py:158 | Response entry k has the id and score of candidate k + 1, so the top candidate is skipped. |
| `Recommender.OtherRowsCount` | main.py:152 | Every distinct id of the rows (`RowIds`) except the query's has a row among the other rows. |
| `Recommender.ResponseFull` | main.py:158 | With at least seven distinct ids in the model, the response has exactly five entries. |
| `Recommender.ResponseExcludesQuery` | main.py:151-158 | No response entry has the query id. |
| `Recommender.ResponseOrder` | main.py:145-158 | Response scores do not increase along the list. |
| `Recommender.ResponseTitles` | main.py:148-160 | Every entry's id is in the title map built from `TitlePairs`, and its title is that of the last model row with that id. So the 'Desconocido' fallback of `TitleOr` never occurs. |
| `Recommender.SeriesRow` | main.py:139-145 | Every entry of the similarity series (`ScoreSeries`) is labelled with the id of a model row and scores `sim` of the reference row's feature vector (`Features`) against that row's. |
| `Recommender.ResponseScores` | main.py:133-160 | Every response entry's score is `sim` of the reference row's feature vector against the feature vector of a model row that carries the entry's id. |

## Left out

- Loading the CSV and parquet files (main.py:12-15, 115) is left out. The tables are given to the model as values.
- Parsing genre strings with `ast.literal_eval` (main.py:17) is left out. Games carry parsed genre lists.
- FastAPI routing and JSON encoding (main.py:6-8 and the decorators) are left out.
- The unused `TextBlob` import (main.py:3) is left out.
- The numeric body of `cosine_similarity` (main.py:139) is not modelled. It is floating-point code in a library that is not shown; it is the parameter `sim`.
- Floating point is not modelled. Prices, scores and percentages are exact reals.
- Tie order of the pandas sorts (main.py:70, 81, 145) is not modelled. `Tabular.SortDesc` is one concrete descending sort, but every property is proved from "permutation in non-increasing order" only. So for tied scores or playtimes, the order the service actually returns is not modelled.
- The group order of `groupby` (main.py:68) is not modelled. The source sorts genres by name; the model keeps them in order of first appearance. The ranking is sorted by total right after, so only the order of tied totals can differ, and no property depends on it.
- The message strings of `countreviews` and `genre` (main.py:63, 74) are not modelled. The model returns the numbers inside them.
- The type-coercion branch (main.py:126-127) is not modelled. The query id is a string.
- The `if id_juego in recommendations` test (main.py:151) always holds under the precondition of `Recommend`, so the model drops the query id without testing it.
- Developer: `round(porcentaje, 2)` (main.py:97) is not modelled. Values are the unrounded shares.
- Developer: keys are the years as integers rather than `str(anio)`. `str` is one-to-one on integers, so nothing is lost.
- Reviews: `recommend` is a boolean, and `fecha` is its text, compared as a string (main.py:55).
- UserData requires a library row of the user, because `iloc[0]` (main.py:47) raises otherwise.
- GenrePosition requires a combined row of the genre, because `index[0]` (main.py:73) raises otherwise.
- Recommend requires the query id to be a model id. Without one, `cosine_similarity` at main.py:139 gets no reference rows and raises. A caller might expect an empty list for an unknown id, but the code has no branch for that case; the model follows the code.
- Setup requires all 11 metadata columns, because `drop` (main.py:121) raises on a missing one.
- Missing values are not modelled. `count()` and `sum()` skip NaN (main.py:43, 57-59, 94-95, 108), and here every cell has a value, apart from the genre-less rows of `explode`.
