/** A one-game catalogue worked through two endpoints: a free game released
    2015-04-01, one user owning it, and one positive review of it. */
module SampleCatalogue {
  import opened Outcomes
  import opened Relational
  import opened Text
  import opened Tables
  import opened UserQueries
  import opened CatalogQueries

  function SampleGames(): seq<Game>
  {
    [Game("1", "Valve", 0, Some("2015-04-01"))]
  }

  function SampleItems(): seq<Item>
  {
    [Item("u1", "http://u1", "1", 1, 120)]
  }

  function SampleReviews(): seq<Review>
  {
    [Review("u1", "1", "2015-05-01", true, 2)]
  }

  lemma SampleYear()
    ensures ReleaseYear(SampleGames()[0]) == Some(2015)
  {
    assert Decimal(2015) == "2015";
    YearOfRoundTrip(2015, "04-01");
    assert "2015" + "-" + "04-01" == "2015-04-01";
  }

  /** One game, one review of it, a positive code, the game's year asked:
      the answer counts one positive review. */
  lemma OneReviewSentiment(g: Game, r: Review, y: int)
    requires g.id == r.itemId && ReleaseYear(g) == Some(y) && r.sentiment == 2
    ensures SentimentAnalysis([g], [r], y) == Found(map[Positive := 1])
  {
    OneRowYear(g, r, y);
    OneRowTable(g, r, YearRows([g], [r], y));
    assert !BadDate(g);
    SentimentCounts([g], [r], y);
  }

  /** A game and a review of it, the game's year asked: the year's joined rows are that one pair. */
  lemma OneRowYear(g: Game, r: Review, y: int)
    requires g.id == r.itemId && ReleaseYear(g) == Some(y)
    ensures GamesReviews([g], [r]) == [(g, r)]
    ensures YearRows([g], [r], y) == [(g, r)]
  {
    assert [r][..0] == [] && [g][..0] == [];
    assert Matches(g, [r], GameKey, ReviewKey) == [(g, r)];
    assert InnerJoin([g], [r], GameKey, ReviewKey)
        == InnerJoin([g][..0], [r], GameKey, ReviewKey) + Matches(g, [r], GameKey, ReviewKey);
    assert GamesReviews([g], [r]) == [(g, r)];
    var rows := [(g, r)];
    assert rows[..0] == [] && ReleasedIn(y)((g, r));
    assert Filter(rows, ReleasedIn(y)) == Filter(rows[..0], ReleasedIn(y)) + [(g, r)];
  }

  /** The label table of one positive row counts that row alone. */
  lemma OneRowTable(g: Game, r: Review, rows: seq<(Game, Review)>)
    requires rows == [(g, r)] && r.sentiment == 2
    ensures LabelTable(rows) == map[Positive := 1]
  {
    OneRowLabels(g, r, rows);
    var m := LabelTable(rows);
    assert m.Keys == {Positive};
    assert m[Positive] == 1;
  }

  lemma OneRowLabels(g: Game, r: Review, rows: seq<(Game, Review)>)
    requires rows == [(g, r)] && r.sentiment == 2
    ensures Filter(rows, LabelledAs(Positive)) == rows
    ensures Filter(rows, LabelledAs(Neutral)) == []
    ensures Filter(rows, LabelledAs(Negative)) == []
  {
    assert rows[..0] == [];
  }

  /** The one-game catalogue's year has one positive review and nothing else. */
  lemma SampleSentiment()
    ensures SentimentAnalysis(SampleGames(), SampleReviews(), 2015) == Found(map[Positive := 1])
  {
    SampleYear();
    OneReviewSentiment(SampleGames()[0], SampleReviews()[0], 2015);
  }

  /** One free game owned and recommended by one user: nothing spent, a
      recommendation ratio of 1 out of 1, and the item row's count. */
  lemma OneOwnerUserData(g: Game, it: Item, r: Review)
    requires g.id == it.itemId && it.userId == r.userId && r.recommend && g.price == 0
    ensures UserData([g], [it], [r], it.userId) == Found(UserStats(0, Ratio(1, 1), it.itemsCount))
  {
    var u := it.userId;
    assert [it][..0] == [] && [g][..0] == [];
    assert CatalogPrice([g], it.itemId) == 0;
    assert SpendByItems([g], [it], u) == 0;
    assert ReviewsOf([r], u) == {0};
    assert RecommendationsOf([r], u) == {0};
    var a := UserData([g], [it], [r], u);
    assert it in [it];
    assert a.Found?;
    assert FirstIndex([it], ItemOf(u)) == 0;
  }

  /** The one-game catalogue's user: nothing spent, every review recommends,
      one item. */
  lemma SampleUserData()
    ensures UserData(SampleGames(), SampleItems(), SampleReviews(), "u1") == Found(UserStats(0, Ratio(1, 1), 1))
  {
    OneOwnerUserData(SampleGames()[0], SampleItems()[0], SampleReviews()[0]);
  }
}
