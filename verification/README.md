# Steam query endpoints, modelled in Dafny

The system is a small web API over four read-only Steam tables:
- the games catalogue: id, developer, price, release date;
- the user items: one row per game a user owns, with the user's URL, item count and playtime;
- the user reviews: posting date, recommend flag and a sentiment code 0/1/2;
- a genre table with one row per (game, genre).

It answers six queries, each built by joining and filtering those tables:

- `userdata(user_id)`: the user's spend, recommendation rate and item count.
- `countreviews(fecha1, fecha2)`: how many distinct users reviewed within a date range, and their recommendation rate.
- `genero(genre)`: the genre's place in a ranking by total playtime.
- `userforgenre(genre)`: the five users with the most playtime in a genre.
- `desarrollador(developer)`: the number of items of a developer's games, and the share of free games per release year.
- `sentiment_analysis(year)`: the count of each sentiment label among the reviews of the games released in a year.

The model holds the tables as sequences of immutable records (`Tables`). It builds the relational operations the endpoints use from scratch:
- boolean-mask selection, summation and inner join (`Relational`);
- group-by-sum (`Relational`);
- `nlargest` (`Ranking`);
- Python's string order and the year parse of a release date (`Text`).

Each endpoint is a pure function returning an `Answer`. `NotFound` is the endpoint's "not found" message. `Fault` is an exception the endpoint would raise:
- `.iloc[0]` on an empty selection;
- `astype(int)` on a year prefix that is not a number.

`Found` is the result.

Two endpoints do not do what their documentation says (see Findings). For both, the model gives the code as written and the evidently intended version, and proves a property that separates them:
- `genero` always answers rank 1;
- `userforgenre` ranks ownership rows, not users.

Prices are whole cents and playtimes whole minutes. Ratios are kept as (hits, total) pairs rather than floats.

## Model

| member | source | states |
|---|---|---|
| Relational.Filter | main.py:25 | a row is selected exactly when it is in the table and satisfies the mask; the selection is never longer than the table |
| Relational.SumBy | main.py:23-27 | the accumulated `gasto` is never negative when no summed price is |
| Relational.FirstIndex | main.py:37 | `.iloc[0]` takes the first selected row: the index is at most the length, no earlier row satisfies the mask, and the row at the index does when it exists |
| Relational.InnerJoin | main.py:24 | a (left, right) pair is in the merge exactly when both rows are in their tables and their keys are equal |
| Relational.JoinCount | main.py:127 | the selected merge has one row per matching (left index, right index) pair, so it counts ownership combinations, not distinct games |
| Relational.GroupSum | main.py:81 | the grouped table has distinct keys, exactly the keys occurring in the rows, and each key's value is the sum over that key's rows |
| Relational.DistinctKeysCount | main.py:81-84 | the grouped playtime table (per genre, and per owner in the corrected ranking) has exactly one entry per distinct key, so its length is the number of genres or owners |
| Ranking.ArgMax | main.py:107 | the chosen row has the highest score, and every earlier row scores strictly less (`keep='first'`) |
| Ranking.TopK | main.py:107 | `nlargest(k)` returns min(k, n) rows drawn from the table (as a multiset), scores non-increasing, no row left out scoring above a selected one, and no repeated row when the table has none |
| Ranking.TopKTakesAllWhenFew | main.py:107 | asking for at least as many rows as the table has returns every row |
| Text.LexLe | main.py:53 | Python's `<=` on date strings: a prefix sorts no later than the longer string, and a string sorting no later starts with a character no greater |
| Text.LexLeTransitive | main.py:53 | Python's order on date strings is transitive |
| Text.LexLeTotal | main.py:53 | any two date strings are comparable |
| Text.LexLeAntisymmetric | main.py:53 | two strings each at most the other are equal |
| Text.EmptyRange | main.py:53 | with `fecha1 > fecha2` no posting date lies in the range |
| Text.BeforeDash | main.py:136 | `split('-')[0]` is a prefix of the date that holds no dash and stops at the first dash or at the end |
| Text.YearOf | main.py:136 | the year is present exactly when the prefix before the first dash is a non-empty run of digits, and is then non-negative |
| Text.YearOfRoundTrip | main.py:136 | a date written as "YYYY-rest", or as just the digits, reads back as the year YYYY |
| Text.DecimalRoundTrip | main.py:136 | reading back the decimal spelling of a number gives the number |
| Tables.ReleaseYear | main.py:131-136 | a null release date has no year (the row is dropped before the year is parsed) |
| UserQueries.RecommendRatio | main.py:32-33 | the ratio's total is the number of reviews and its hits are the number of positions holding a recommending review, never more than the total |
| UserQueries.UserData | main.py:14-44 | NotFound exactly when the id is in none of `games.id`, `items.user_id` and `reviews.user_id`; Fault exactly when it is found but owns no item row; otherwise the first item row's count, the counts of the user's reviews and recommending reviews, the spend read item by item, spend 0 without purchases and never negative with non-negative prices |
| UserQueries.SpendIsSumOverItems | main.py:23-27 | the spend summed over the games-items merge equals the catalogue price summed over the user's own item rows: the join loses and duplicates no purchase |
| UserQueries.CountReviews | main.py:46-63 | the user count is the number of distinct reviewers in the range, at most the number of reviews in it and zero exactly when there are none; the ratio counts the range's reviews and recommending reviews; an inverted range counts nothing |
| UserQueries.EndsIncluded | main.py:53 | the date mask includes both ends: a review posted exactly on `fecha1` or on `fecha2` is selected when `fecha1 <= fecha2` |
| UserQueries.WindowFacts | main.py:53-59 | the reviews selected by the date mask are counted by position, and their distinct users are the reviewers within the range |
| GenreQueries.GenreRowsEmpty | main.py:72-78 | the genre's merged rows are empty exactly when no tag of the genre joins an item row |
| GenreQueries.GenreRowCount | main.py:72-75 | the genre's merged rows number the joining (tag, item) index pairs of that genre |
| GenreQueries.GenreRank | main.py:65-89 | as written: NotFound exactly when the genre has no merged row, never a fault, and the rank found is always 1 |
| GenreQueries.GenreRankAlwaysFirst | main.py:75-86 | with Action played 30 minutes and Indie 600, the code ranks Action 1 while the ranking among all genres puts it 2nd |
| GenreQueries.RankAmongGenres | main.py:68-69 | corrected: NotFound exactly as before, and the rank is between 1 and the number of genres |
| GenreQueries.RankMonotonic | main.py:83-84 | corrected: a genre with more total playtime ranks strictly ahead |
| GenreQueries.RankOneIsTop | main.py:83-86 | corrected: rank 1 goes exactly to the genres that no genre out-plays |
| GenreQueries.UserForGenre | main.py:91-112 | as written: NotFound exactly when the genre has no merged row, never a fault, else the ranks 1.. of a top-five selection of the genre's merged ROWS by playtime |
| GenreQueries.ListedUsersPlayGenre | main.py:97-107 | every listed user owns an item carrying a tag of the genre |
| GenreQueries.FewRowsAllListed | main.py:107 | with at most five merged rows, every row is listed |
| GenreQueries.TwoRowsOneOwner | main.py:106-110 | as written: two merged rows of one owner list that owner at places 1 and 2 |
| GenreQueries.OwnerListedTwice | main.py:106-110 | as written: one user owning two games of the genre is listed twice |
| GenreQueries.TopOwnersForGenre | main.py:93-95 | corrected: NotFound exactly as before, otherwise min(5, owners) distinct owners of the genre ranked 1.., by summed playtime, non-increasing, no unlisted owner with more playtime than a listed one |
| GenreQueries.OwnerListedOnce | main.py:93-95 | corrected: the owner of two games of the genre is listed once |
| GenreQueries.SampleOwnerListedTwice | main.py:106-110 | on a concrete catalogue, the code lists user "u" at ranks 1 and 2, the corrected ranking lists one user |
| CatalogQueries.PercentBounds | main.py:143 | the truncated percentage of free over total lies in [0, 100] and is 100 exactly when all games are free |
| CatalogQueries.ShareOf | main.py:139-143 | for a year with a free game, the free and total counts are the numbers of distinct free and of distinct game ids of that year (at least 1, free at most total), and the percentage is the free count times 100 divided by the total, truncated, in [0, 100] and 100 exactly when the free ids are all the ids |
| CatalogQueries.Developer | main.py:114-149 | NotFound exactly when no merged row has the developer; Fault exactly when one of them has an unparseable year; otherwise the number of merged index pairs, exactly the years with a free game, and per year the distinct free and total game counts with the percentage of one over the other |
| CatalogQueries.DeveloperYearFacts | main.py:137-142 | the years kept by the inner merge are those with a free dated row, and the per-year distinct ids are the developer's owned (free) games of that year |
| CatalogQueries.YearWithinItemCount | main.py:127-140 | a year's distinct game count never exceeds the item count |
| CatalogQueries.LabelOf | main.py:169-170 | codes 0, 1 and 2 map to negative, neutral and positive, each exactly, and any other code to no label |
| CatalogQueries.LabelTable | main.py:170-171 | `value_counts().to_dict()` holds a label exactly when some row carries it, its count is the number of row positions carrying that label, and the counts add up to the number of labelled rows |
| CatalogQueries.SentimentAnalysis | main.py:152-177 | Fault exactly when some merged row has an unparseable year; NotFound exactly when no merged row is of the year; otherwise a label is present exactly when a review of the year carries it, with the number of such (game, review) pairs, at least 1 |
| CatalogQueries.LabelCount | main.py:168-171 | a label's count is the number of joining index pairs of the year with that label, positive exactly when one exists |
| CatalogQueries.SentimentCountsSum | main.py:169-171 | the label counts add up to the number of the year's joining pairs whose code is 0, 1 or 2 |
| CatalogQueries.LabelSplit | main.py:169-171 | every labelled row carries exactly one of the three labels |
| SampleCatalogue.SampleYear | main.py:136 | the date "2015-04-01" gives the year 2015 |
| SampleCatalogue.OneReviewSentiment | main.py:158-173 | one game, one positive review of it, its year asked: one positive label |
| SampleCatalogue.SampleSentiment | main.py:158-173 | the one-game catalogue's 2015 answer is one positive review |
| SampleCatalogue.OneOwnerUserData | main.py:20-40 | one free game owned and recommended by one user: spend 0, one recommendation out of one, the item row's count |
| SampleCatalogue.SampleUserData | main.py:20-40 | the one-game catalogue's user "u1": spend 0, ratio 1 of 1, one item |

## Left out

- HTTP routing, response strings and `tabulate` formatting are not modelled. Each endpoint returns its values in a datatype instead of formatting them into sentences.
- Reading the parquet files is not modelled. The four tables are parameters.
- UserQueries.UserData: the spend is an exact integer in cents. The source sums floats and applies `round(gasto, 2)`, and null prices (NaN) are not modelled.
- UserQueries.UserData: the recommendation rate is kept as the pair (recommending, total) instead of the float percentage `sum / len * 100`. A user with no reviews gets total 0, where the source yields NaN.
- UserQueries.CountReviews: the rate is kept as a pair as in `userdata`, instead of `round(sum / len * 100, 2)`. An empty range gives total 0, where the source yields NaN.
- CatalogQueries.Developer: the percentage is `free * 100 / total` in exact integer arithmetic. The source computes `free / total * 100` in floating point before `astype(int)`, which can land one lower (57 of 100 gives 56.99999999999999, so 56).
- CatalogQueries.Developer: the per-year table is a map keyed by year. The developer column and the sorted row order of the grouped output are not kept.
- CatalogQueries.SentimentAnalysis: the answer is a map from label to count. The descending-count order of `value_counts().to_dict()` is not kept.
- GenreQueries.UserForGenre: `nlargest` runs on playtime divided by 60 in floating point. The model ranks on whole minutes; the division is monotone, so the same rows are chosen except for ties the rounding could create.
- Ranking.TopK: among rows with equal playtime it takes the earliest. Its contract states the selection properties and not this tie order, which depends on how pandas orders the merged rows.
- Relational.InnerJoin: the merge lists, for each left row in order, its matching right rows. Pandas' row order of a merge is not otherwise modelled.
- Text.YearOf: the parse accepts exactly a non-empty run of ASCII digits. Python's `int()` also accepts surrounding whitespace, a sign, underscores and non-ASCII digits; such dates count here as unparseable.
- Tables.ReleaseYear: the release date is modelled as an optional string. Conversions `astype(str)` performs on other column types (dates, numbers) are not modelled.
- The docstring of `userforgenre` (main.py:94) promises the five users with the most hours played. The code ranks single rows, and GenreQueries.UserForGenre follows the code; the per-user reading is GenreQueries.TopOwnersForGenre.

## Findings

| source | as written | input that shows it | evidently intended | confidence | as-written member | corrected member |
|---|---|---|---|---|---|---|
| main.py:75-86 | the merged rows are filtered to the asked genre before `groupby('genres')`, so the grouped table has one row and the reported place is always 1 | genre tags ("10", Action) and ("20", Indie); user u plays 30 minutes of game 10 and 600 of game 20; `genero("Action")` | the genre's place among all genres ordered by total playtime: Action is 2nd | not executed | GenreQueries.GenreRankAlwaysFirst | GenreQueries.RankAmongGenres |
| main.py:106-110 | `nlargest(5)` runs on single ownership rows, so one user appears once per game owned | genre tags ("10", Action) and ("11", Action); user u owns both games; `userforgenre("Action")` gives [(1, u), (2, u)] | the five users with the most playtime in the genre, each user once with their playtime summed | not executed | GenreQueries.OwnerListedTwice | GenreQueries.TopOwnersForGenre |
