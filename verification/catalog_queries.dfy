/** The two release-year endpoints over the games catalogue: `desarrollador`
    (a developer's item count and free-content share per release year) and
    `sentiment_analysis` (the sentiment labels of the reviews of one year's
    releases). */
module CatalogQueries {
  import opened Outcomes
  import opened Relational
  import opened Tables

  /** A game whose release date is present but whose year prefix does not
      parse: converting the year column to int raises on such a row. */
  predicate BadDate(g: Game)
  {
    g.releaseDate.Some? && ReleaseYear(g).None?
  }

  // ---------------------------------------------------------------------------
  // desarrollador

  /** One row of the per-year table: distinct free games, distinct games, and
      the truncated percentage of the first over the second. */
  datatype YearShare = YearShare(freeCount: nat, totalCount: nat, percentage: int)

  /** The answer of `desarrollador`: the number of ownership rows of the
      developer's games, and the per-year table keyed by release year. */
  datatype DeveloperReport = DeveloperReport(itemCount: nat, byYear: map<int, YearShare>)

  function DevelopedBy(d: string): ((Game, Item)) -> bool
  {
    (row: (Game, Item)) => row.0.developer == d
  }

  /** The joined (game, item) rows of the developer's games. */
  function DeveloperRows(games: seq<Game>, items: seq<Item>, d: string): seq<(Game, Item)>
  {
    Filter(GamesItems(games, items), DevelopedBy(d))
  }

  /** Index pairs (game row, item row) that join and belong to developer `d`. */
  function DeveloperPairs(games: seq<Game>, items: seq<Item>, d: string): set<(int, int)>
  {
    set i, j | 0 <= i < |games| && 0 <= j < |items| && games[i].id == items[j].itemId
                 && games[i].developer == d :: (i, j)
  }

  /** Ids of the developer's games released in year `y` that some item row owns. */
  function OwnedGamesOfYear(games: seq<Game>, items: seq<Item>, d: string, y: int): set<string>
  {
    set g, it | g in games && it in items && g.id == it.itemId && g.developer == d
                && ReleaseYear(g) == Some(y) :: g.id
  }

  /** The free ones among them. */
  function FreeGamesOfYear(games: seq<Game>, items: seq<Item>, d: string, y: int): set<string>
  {
    set g, it | g in games && it in items && g.id == it.itemId && g.developer == d
                && ReleaseYear(g) == Some(y) && g.price == 0 :: g.id
  }

  /** Distinct game ids of the rows released in year `y` (`nunique` per year). */
  function IdsOfYear(rows: seq<(Game, Item)>, y: int): set<string>
  {
    set row | row in rows && ReleaseYear(row.0) == Some(y) :: row.0.id
  }

  function FreeIdsOfYear(rows: seq<(Game, Item)>, y: int): set<string>
  {
    set row | row in rows && ReleaseYear(row.0) == Some(y) && row.0.price == 0 :: row.0.id
  }

  /** The years with at least one free dated row: the inner join of the free
      counts with the total counts keeps exactly these. */
  function FreeYears(rows: seq<(Game, Item)>): set<int>
  {
    set row | row in rows && row.0.price == 0 && ReleaseYear(row.0).Some? :: ReleaseYear(row.0).value
  }

  /** The truncated percentage `free / total * 100` lies in [0, 100], and is
      100 exactly when every game counted is free. */
  lemma PercentBounds(free: nat, total: nat)
    requires 0 < total && free <= total
    ensures 0 <= free * 100 / total <= 100
    ensures free * 100 / total == 100 <==> free == total
  {
    PercentAtLeast(free, total, 0);
    PercentAtMost(free, total, 100);
    if free < total {
      PercentAtMost(free, total, 99);
    } else {
      PercentAtLeast(free, total, 100);
    }
  }

  /** With `free * 100 >= k * total`, the truncated percentage is at least `k`. */
  lemma PercentAtLeast(free: nat, total: nat, k: int)
    requires 0 < total && free * 100 >= k * total
    ensures free * 100 / total >= k
  {
    var q, r := free * 100 / total, free * 100 % total;
    assert q * total + r == free * 100 && r < total;
    assert (q - k + 1) * total == q * total - k * total + total;
    PositiveFactor(q - k + 1, total);
  }

  /** With `free * 100 < (k + 1) * total`, the truncated percentage is at most `k`. */
  lemma PercentAtMost(free: nat, total: nat, k: int)
    requires 0 < total && free * 100 < (k + 1) * total
    ensures free * 100 / total <= k
  {
    var q, r := free * 100 / total, free * 100 % total;
    assert q * total + r == free * 100 && 0 <= r;
    assert (q - k - 1) * total == q * total - (k + 1) * total;
    NonPositiveFactor(q - k - 1, total);
  }

  /** A product with a positive factor that is at most 0 has its other factor at most 0. */
  lemma NonPositiveFactor(x: int, t: int)
    requires t > 0 && x * t <= 0
    ensures x <= 0
  {
    assert x > 0 ==> x * t >= t;
  }

  /** A positive product with a positive factor has its other factor positive. */
  lemma PositiveFactor(x: int, t: int)
    requires t > 0 && x * t > 0
    ensures x > 0
  {
    assert x <= 0 ==> (-x) * t >= 0;
  }

  /** The share of year `y`, for a year with a free row. */
  function ShareOf(rows: seq<(Game, Item)>, y: int): (s: YearShare)
    requires y in FreeYears(rows)
    ensures 1 <= s.freeCount <= s.totalCount
    ensures 0 <= s.percentage <= 100
    ensures s.percentage == 100 <==> FreeIdsOfYear(rows, y) == IdsOfYear(rows, y)
    ensures s.freeCount == |FreeIdsOfYear(rows, y)| && s.totalCount == |IdsOfYear(rows, y)|
    ensures s.percentage == s.freeCount * 100 / s.totalCount
  {
    var row :| row in rows && row.0.price == 0 && ReleaseYear(row.0) == Some(y);
    assert row.0.id in FreeIdsOfYear(rows, y);
    var free, total := FreeIdsOfYear(rows, y), IdsOfYear(rows, y);
    assert free <= total;
    SubsetCardinality(free, total);
    PercentBounds(|free|, |total|);
    SameSizeSubset(free, total);
    YearShare(|free|, |total|, |free| * 100 / |total|)
  }

  lemma SameSizeSubset<T>(a: set<T>, b: set<T>)
    requires a <= b
    ensures |a| == |b| <==> a == b
  {
    if |a| == |b| {
      assert |b - a| == |b| - |a|;
      assert b == a + (b - a);
    }
  }

  /** `desarrollador(desarrollador)`: NotFound when no joined (game, item) row
      belongs to the developer; Fault when one of those rows has a release
      date whose year does not parse; otherwise the number of such rows and,
      for every release year with a free game among them, the distinct free
      and total game counts and the truncated percentage. */
  function Developer(games: seq<Game>, items: seq<Item>, d: string): (a: Answer<DeveloperReport>)
    ensures a.NotFound? <==> forall g, it :: g in games && it in items && g.id == it.itemId ==> g.developer != d
    ensures a.Fault? <==> exists g, it :: g in games && it in items && g.id == it.itemId && g.developer == d
                                          && BadDate(g)
    ensures a.Found? ==> a.value.itemCount == |DeveloperPairs(games, items, d)|
    ensures a.Found? ==> forall y :: y in a.value.byYear
                                     <==> exists g, it :: g in games && it in items && g.id == it.itemId
                                                          && g.developer == d && g.price == 0 && ReleaseYear(g) == Some(y)
    ensures a.Found? ==> forall y :: y in a.value.byYear ==>
                           && a.value.byYear[y].freeCount == |FreeGamesOfYear(games, items, d, y)|
                           && a.value.byYear[y].totalCount == |OwnedGamesOfYear(games, items, d, y)|
                           && 1 <= a.value.byYear[y].freeCount <= a.value.byYear[y].totalCount
                           && a.value.byYear[y].percentage == a.value.byYear[y].freeCount * 100 / a.value.byYear[y].totalCount
                           && 0 <= a.value.byYear[y].percentage <= 100
    ensures a.Found? ==> forall y :: y in a.value.byYear ==>
                           (a.value.byYear[y].percentage == 100
                            <==> FreeGamesOfYear(games, items, d, y) == OwnedGamesOfYear(games, items, d, y))
  {
    var rows := DeveloperRows(games, items, d);
    DeveloperRowsFacts(games, items, d);
    if |rows| == 0 then NotFound
    else if exists row :: row in rows && BadDate(row.0) then Fault
    else
      DeveloperYearFacts(games, items, d);
      Found(DeveloperReport(|rows|, map y | y in FreeYears(rows) :: ShareOf(rows, y)))
  }

  lemma DeveloperRowsFacts(games: seq<Game>, items: seq<Item>, d: string)
    ensures |DeveloperRows(games, items, d)| == 0
            <==> forall g, it :: g in games && it in items && g.id == it.itemId ==> g.developer != d
    ensures |DeveloperRows(games, items, d)| == |DeveloperPairs(games, items, d)|
    ensures (exists row :: row in DeveloperRows(games, items, d) && BadDate(row.0))
            <==> exists g, it :: g in games && it in items && g.id == it.itemId && g.developer == d && BadDate(g)
  {
    DeveloperRowsEmpty(games, items, d);
    DeveloperRowCount(games, items, d);
    DeveloperBadDate(games, items, d);
  }

  lemma DeveloperRowsEmpty(games: seq<Game>, items: seq<Item>, d: string)
    ensures |DeveloperRows(games, items, d)| == 0
            <==> forall g, it :: g in games && it in items && g.id == it.itemId ==> g.developer != d
  {
    if forall g, it :: g in games && it in items && g.id == it.itemId ==> g.developer != d {
      FilterNone(GamesItems(games, items), DevelopedBy(d));
    } else {
      var g, it :| g in games && it in items && g.id == it.itemId && g.developer == d;
      assert (g, it) in DeveloperRows(games, items, d);
    }
  }

  lemma DeveloperRowCount(games: seq<Game>, items: seq<Item>, d: string)
    ensures |DeveloperRows(games, items, d)| == |DeveloperPairs(games, items, d)|
  {
    JoinCount(games, items, GameKey, ItemKey, DevelopedBy(d));
    assert MatchingPairs(games, items, GameKey, ItemKey, DevelopedBy(d)) == DeveloperPairs(games, items, d);
  }

  lemma DeveloperBadDate(games: seq<Game>, items: seq<Item>, d: string)
    ensures (exists row :: row in DeveloperRows(games, items, d) && BadDate(row.0))
            <==> exists g, it :: g in games && it in items && g.id == it.itemId && g.developer == d && BadDate(g)
  {
    if exists g, it :: g in games && it in items && g.id == it.itemId && g.developer == d && BadDate(g) {
      var g, it :| g in games && it in items && g.id == it.itemId && g.developer == d && BadDate(g);
      assert (g, it) in DeveloperRows(games, items, d);
    }
  }

  lemma DeveloperYearFacts(games: seq<Game>, items: seq<Item>, d: string)
    ensures forall y :: y in FreeYears(DeveloperRows(games, items, d))
                        <==> exists g, it :: g in games && it in items && g.id == it.itemId
                                             && g.developer == d && g.price == 0 && ReleaseYear(g) == Some(y)
    ensures forall y :: FreeIdsOfYear(DeveloperRows(games, items, d), y) == FreeGamesOfYear(games, items, d, y)
    ensures forall y :: IdsOfYear(DeveloperRows(games, items, d), y) == OwnedGamesOfYear(games, items, d, y)
  {
    var rows := DeveloperRows(games, items, d);
    forall y ensures y in FreeYears(rows)
                     <==> exists g, it :: g in games && it in items && g.id == it.itemId
                                          && g.developer == d && g.price == 0 && ReleaseYear(g) == Some(y)
    {
      if exists g, it :: g in games && it in items && g.id == it.itemId
                         && g.developer == d && g.price == 0 && ReleaseYear(g) == Some(y) {
        var g, it :| g in games && it in items && g.id == it.itemId
                     && g.developer == d && g.price == 0 && ReleaseYear(g) == Some(y);
        assert (g, it) in rows;
      }
    }
    forall y ensures FreeIdsOfYear(rows, y) == FreeGamesOfYear(games, items, d, y)
    {
      forall id | id in FreeGamesOfYear(games, items, d, y)
        ensures id in FreeIdsOfYear(rows, y)
      {
        var g, it :| g in games && it in items && g.id == it.itemId && g.developer == d
                     && ReleaseYear(g) == Some(y) && g.price == 0 && g.id == id;
        assert (g, it) in rows;
      }
    }
    forall y ensures IdsOfYear(rows, y) == OwnedGamesOfYear(games, items, d, y)
    {
      forall id | id in OwnedGamesOfYear(games, items, d, y)
        ensures id in IdsOfYear(rows, y)
      {
        var g, it :| g in games && it in items && g.id == it.itemId && g.developer == d
                     && ReleaseYear(g) == Some(y) && g.id == id;
        assert (g, it) in rows;
      }
    }
  }

  function RowGameId(row: (Game, Item)): string
  {
    row.0.id
  }

  /** The item count counts ownership rows, so it is never below any year's
      number of distinct games. */
  lemma YearWithinItemCount(games: seq<Game>, items: seq<Item>, d: string, y: int)
    requires Developer(games, items, d).Found?
    requires y in Developer(games, items, d).value.byYear
    ensures Developer(games, items, d).value.byYear[y].totalCount <= Developer(games, items, d).value.itemCount
  {
    var rows := DeveloperRows(games, items, d);
    DeveloperRowsFacts(games, items, d);
    DeveloperYearFacts(games, items, d);
    assert IdsOfYear(rows, y) <= Image(rows, RowGameId);
    SubsetCardinality(IdsOfYear(rows, y), Image(rows, RowGameId));
    ImageBound(rows, RowGameId);
  }

  // ---------------------------------------------------------------------------
  // sentiment_analysis

  datatype Sentiment = Negative | Neutral | Positive

  /** The label of a sentiment code: 0, 1 and 2 are labelled, any other code
      maps to no label and drops out of the counts. */
  function LabelOf(code: int): (s: Option<Sentiment>)
    ensures s.Some? <==> 0 <= code <= 2
    ensures s == Some(Negative) <==> code == 0
    ensures s == Some(Neutral) <==> code == 1
    ensures s == Some(Positive) <==> code == 2
  {
    if code == 2 then Some(Positive)
    else if code == 1 then Some(Neutral)
    else if code == 0 then Some(Negative)
    else None
  }

  function ReleasedIn(y: int): ((Game, Review)) -> bool
  {
    (row: (Game, Review)) => ReleaseYear(row.0) == Some(y)
  }

  function LabelledAs(s: Sentiment): ((Game, Review)) -> bool
  {
    (row: (Game, Review)) => LabelOf(row.1.sentiment) == Some(s)
  }

  function Labelled(row: (Game, Review)): bool
  {
    LabelOf(row.1.sentiment).Some?
  }

  /** The joined (game, review) rows of games released in year `y`. */
  function YearRows(games: seq<Game>, reviews: seq<Review>, y: int): seq<(Game, Review)>
  {
    Filter(GamesReviews(games, reviews), ReleasedIn(y))
  }

  /** Index pairs (game row, review row) that join, with the game released in
      `y` and the review labelled `s`. */
  function SentimentPairs(games: seq<Game>, reviews: seq<Review>, y: int, s: Sentiment): set<(int, int)>
  {
    set i, j | 0 <= i < |games| && 0 <= j < |reviews| && games[i].id == reviews[j].itemId
                 && ReleaseYear(games[i]) == Some(y) && LabelOf(reviews[j].sentiment) == Some(s) :: (i, j)
  }

  /** The same pairs with any of the three labels. */
  function LabelledPairs(games: seq<Game>, reviews: seq<Review>, y: int): set<(int, int)>
  {
    set i, j | 0 <= i < |games| && 0 <= j < |reviews| && games[i].id == reviews[j].itemId
                 && ReleaseYear(games[i]) == Some(y) && LabelOf(reviews[j].sentiment).Some? :: (i, j)
  }

  function AllSentiments(): set<Sentiment>
  {
    {Negative, Neutral, Positive}
  }

  /** The count of each label among `rows`, labels that do not occur left out
      (`value_counts` after mapping the codes to labels). */
  function LabelTable(rows: seq<(Game, Review)>): (m: map<Sentiment, nat>)
    ensures forall s :: s in m <==> exists row :: row in rows && LabelOf(row.1.sentiment) == Some(s)
    ensures Tally(m, Negative) + Tally(m, Neutral) + Tally(m, Positive) == |Filter(rows, Labelled)|
    ensures forall s :: s in m ==> m[s] == |Indices(rows, LabelledAs(s))|
  {
    LabelSplit(rows);
    LabelsPresent(rows);
    LabelsByIndex(rows);
    map s | s in AllSentiments() && |Filter(rows, LabelledAs(s))| > 0 :: |Filter(rows, LabelledAs(s))|
  }

  /** `sentiment_analysis(year)`: Fault when any joined (game, review) row has
      a release date whose year does not parse (the year column is converted
      for the whole join before filtering); NotFound when no joined row is of
      that year; otherwise the count of each label among that year's rows,
      with labels that do not occur left out. */
  function SentimentAnalysis(games: seq<Game>, reviews: seq<Review>, y: int): (a: Answer<map<Sentiment, nat>>)
    ensures a.Fault? <==> exists g, r :: g in games && r in reviews && g.id == r.itemId && BadDate(g)
    ensures a.NotFound? <==> (forall g, r :: g in games && r in reviews && g.id == r.itemId ==> !BadDate(g))
                             && forall g, r :: g in games && r in reviews && g.id == r.itemId ==> ReleaseYear(g) != Some(y)
    ensures a.Found? ==> forall s :: s in a.value
                                     <==> exists g, r :: g in games && r in reviews && g.id == r.itemId
                                                         && ReleaseYear(g) == Some(y) && LabelOf(r.sentiment) == Some(s)
    ensures a.Found? ==> forall s :: s in a.value ==> a.value[s] == |SentimentPairs(games, reviews, y, s)| >= 1
  {
    var rows := GamesReviews(games, reviews);
    SentimentRowsFacts(games, reviews, y);
    if exists row :: row in rows && BadDate(row.0) then Fault
    else
      var inYear := YearRows(games, reviews, y);
      if |inYear| == 0 then NotFound
      else
        YearTableFacts(games, reviews, y);
        Found(LabelTable(inYear))
  }

  /** The label table of a year's rows holds exactly the labels of that year's
      joining reviews, each with its number of (game, review) pairs. */
  lemma YearTableFacts(games: seq<Game>, reviews: seq<Review>, y: int)
    ensures var m := LabelTable(YearRows(games, reviews, y));
            forall s :: s in m <==> exists g, r :: g in games && r in reviews && g.id == r.itemId
                                                   && ReleaseYear(g) == Some(y) && LabelOf(r.sentiment) == Some(s)
    ensures var m := LabelTable(YearRows(games, reviews, y));
            forall s :: s in m ==> m[s] == |SentimentPairs(games, reviews, y, s)| >= 1
  {
    LabelCounts(games, reviews, y);
  }

  lemma SentimentRowsFacts(games: seq<Game>, reviews: seq<Review>, y: int)
    ensures (exists row :: row in GamesReviews(games, reviews) && BadDate(row.0))
            <==> exists g, r :: g in games && r in reviews && g.id == r.itemId && BadDate(g)
    ensures |YearRows(games, reviews, y)| == 0
            <==> forall g, r :: g in games && r in reviews && g.id == r.itemId ==> ReleaseYear(g) != Some(y)
  {
    var rows := GamesReviews(games, reviews);
    if exists g, r :: g in games && r in reviews && g.id == r.itemId && BadDate(g) {
      var g, r :| g in games && r in reviews && g.id == r.itemId && BadDate(g);
      assert (g, r) in rows;
    }
    if exists g, r :: g in games && r in reviews && g.id == r.itemId && ReleaseYear(g) == Some(y) {
      var g, r :| g in games && r in reviews && g.id == r.itemId && ReleaseYear(g) == Some(y);
      assert (g, r) in YearRows(games, reviews, y);
    } else {
      FilterNone(rows, ReleasedIn(y));
    }
  }

  /** Each label's count among a year's rows is the number of joining index
      pairs of that year with that label, and it is positive exactly when
      such a pair exists. */
  lemma LabelCount(games: seq<Game>, reviews: seq<Review>, y: int, s: Sentiment)
    ensures |Filter(YearRows(games, reviews, y), LabelledAs(s))| == |SentimentPairs(games, reviews, y, s)|
    ensures |Filter(YearRows(games, reviews, y), LabelledAs(s))| > 0
            <==> exists g, r :: g in games && r in reviews && g.id == r.itemId
                                && ReleaseYear(g) == Some(y) && LabelOf(r.sentiment) == Some(s)
  {
    LabelPairCount(games, reviews, y, s);
    LabelPresent(games, reviews, y, s);
  }

  lemma LabelPairCount(games: seq<Game>, reviews: seq<Review>, y: int, s: Sentiment)
    ensures |Filter(YearRows(games, reviews, y), LabelledAs(s))| == |SentimentPairs(games, reviews, y, s)|
  {
    var rows := GamesReviews(games, reviews);
    FilterFilter(rows, ReleasedIn(y), LabelledAs(s));
    JoinCount(games, reviews, GameKey, ReviewKey, Both(ReleasedIn(y), LabelledAs(s)));
    SentimentPairsMatch(games, reviews, y, s);
  }

  lemma SentimentPairsMatch(games: seq<Game>, reviews: seq<Review>, y: int, s: Sentiment)
    ensures MatchingPairs(games, reviews, GameKey, ReviewKey, Both(ReleasedIn(y), LabelledAs(s)))
         == SentimentPairs(games, reviews, y, s)
  {
  }

  lemma LabelPresent(games: seq<Game>, reviews: seq<Review>, y: int, s: Sentiment)
    ensures |Filter(YearRows(games, reviews, y), LabelledAs(s))| > 0
            <==> exists g, r :: g in games && r in reviews && g.id == r.itemId
                                && ReleaseYear(g) == Some(y) && LabelOf(r.sentiment) == Some(s)
  {
    var rows := GamesReviews(games, reviews);
    var labelled := Filter(YearRows(games, reviews, y), LabelledAs(s));
    if |labelled| > 0 {
      var row := labelled[0];
      assert row in labelled;
      assert row in YearRows(games, reviews, y);
      assert row in rows;
    }
    if exists g, r :: g in games && r in reviews && g.id == r.itemId
                      && ReleaseYear(g) == Some(y) && LabelOf(r.sentiment) == Some(s) {
      var g, r :| g in games && r in reviews && g.id == r.itemId
                  && ReleaseYear(g) == Some(y) && LabelOf(r.sentiment) == Some(s);
      assert (g, r) in rows;
      assert (g, r) in YearRows(games, reviews, y);
      assert (g, r) in labelled;
    }
  }

  lemma LabelCounts(games: seq<Game>, reviews: seq<Review>, y: int)
    ensures forall s :: |Filter(YearRows(games, reviews, y), LabelledAs(s))| == |SentimentPairs(games, reviews, y, s)|
    ensures forall s :: |Filter(YearRows(games, reviews, y), LabelledAs(s))| > 0
                        <==> exists g, r :: g in games && r in reviews && g.id == r.itemId
                                            && ReleaseYear(g) == Some(y) && LabelOf(r.sentiment) == Some(s)
  {
    forall s
      ensures |Filter(YearRows(games, reviews, y), LabelledAs(s))| == |SentimentPairs(games, reviews, y, s)|
      ensures |Filter(YearRows(games, reviews, y), LabelledAs(s))| > 0
              <==> exists g, r :: g in games && r in reviews && g.id == r.itemId
                                  && ReleaseYear(g) == Some(y) && LabelOf(r.sentiment) == Some(s)
    {
      LabelCount(games, reviews, y, s);
    }
  }

  /** A label's count in the answer, 0 when the label is left out. */
  function Tally(m: map<Sentiment, nat>, s: Sentiment): nat
  {
    if s in m then m[s] else 0
  }

  /** A label has a non-empty selection exactly when some row carries it. */
  lemma LabelsPresent(rows: seq<(Game, Review)>)
    ensures forall s :: |Filter(rows, LabelledAs(s))| > 0
                        <==> exists row :: row in rows && LabelOf(row.1.sentiment) == Some(s)
  {
    forall s ensures |Filter(rows, LabelledAs(s))| > 0
                     <==> exists row :: row in rows && LabelOf(row.1.sentiment) == Some(s)
    {
      var labelled := Filter(rows, LabelledAs(s));
      if |labelled| > 0 {
        assert labelled[0] in labelled;
      }
      if exists row :: row in rows && LabelOf(row.1.sentiment) == Some(s) {
        var row :| row in rows && LabelOf(row.1.sentiment) == Some(s);
        assert row in labelled;
      }
    }
  }

  /** Each label's selection has one row per position carrying that label. */
  lemma LabelsByIndex(rows: seq<(Game, Review)>)
    ensures forall s :: |Filter(rows, LabelledAs(s))| == |Indices(rows, LabelledAs(s))|
  {
    forall s ensures |Filter(rows, LabelledAs(s))| == |Indices(rows, LabelledAs(s))| {
      FilterCountByIndex(rows, LabelledAs(s));
    }
  }

  /** Every labelled row carries exactly one of the three labels. */
  lemma {:induction false} LabelSplit(rows: seq<(Game, Review)>)
    ensures |Filter(rows, Labelled)|
         == |Filter(rows, LabelledAs(Negative))| + |Filter(rows, LabelledAs(Neutral))|
            + |Filter(rows, LabelledAs(Positive))|
    decreases |rows|
  {
    if |rows| > 0 {
      LabelSplit(rows[..|rows| - 1]);
    }
  }

  /** The counts add up to the number of joining (game, review) pairs of the
      year whose code is one of the three labelled codes. */
  lemma SentimentCountsSum(games: seq<Game>, reviews: seq<Review>, y: int)
    requires SentimentAnalysis(games, reviews, y).Found?
    ensures var m := SentimentAnalysis(games, reviews, y).value;
            Tally(m, Negative) + Tally(m, Neutral) + Tally(m, Positive) == |LabelledPairs(games, reviews, y)|
  {
    TallyIsCount(games, reviews, y, Negative);
    TallyIsCount(games, reviews, y, Neutral);
    TallyIsCount(games, reviews, y, Positive);
    LabelSplit(YearRows(games, reviews, y));
    LabelledCount(games, reviews, y);
  }

  lemma TallyIsCount(games: seq<Game>, reviews: seq<Review>, y: int, s: Sentiment)
    requires SentimentAnalysis(games, reviews, y).Found?
    ensures Tally(SentimentAnalysis(games, reviews, y).value, s) == |Filter(YearRows(games, reviews, y), LabelledAs(s))|
  {
    SentimentRowsFacts(games, reviews, y);
    SentimentCounts(games, reviews, y);
  }

  lemma LabelledCount(games: seq<Game>, reviews: seq<Review>, y: int)
    ensures |Filter(YearRows(games, reviews, y), Labelled)| == |LabelledPairs(games, reviews, y)|
  {
    var rows := GamesReviews(games, reviews);
    FilterFilter(rows, ReleasedIn(y), Labelled);
    JoinCount(games, reviews, GameKey, ReviewKey, Both(ReleasedIn(y), Labelled));
    LabelledPairsMatch(games, reviews, y);
  }

  lemma LabelledPairsMatch(games: seq<Game>, reviews: seq<Review>, y: int)
    ensures MatchingPairs(games, reviews, GameKey, ReviewKey, Both(ReleasedIn(y), Labelled))
         == LabelledPairs(games, reviews, y)
  {
    var matching := MatchingPairs(games, reviews, GameKey, ReviewKey, Both(ReleasedIn(y), Labelled));
    forall pr | pr in LabelledPairs(games, reviews, y)
      ensures pr in matching
    {
      assert Labelled((games[pr.0], reviews[pr.1]));
    }
    forall pr | pr in matching
      ensures pr in LabelledPairs(games, reviews, y)
    {
      assert Labelled((games[pr.0], reviews[pr.1]));
    }
  }

  lemma SentimentCounts(games: seq<Game>, reviews: seq<Review>, y: int)
    requires forall row :: row in GamesReviews(games, reviews) ==> !BadDate(row.0)
    requires |YearRows(games, reviews, y)| > 0
    ensures SentimentAnalysis(games, reviews, y) == Found(LabelTable(YearRows(games, reviews, y)))
  {
    assert !exists row :: row in GamesReviews(games, reviews) && BadDate(row.0);
  }
}
