/** The two user-facing endpoints: `userdata` (spend, recommendation rate and
    item count of one user) and `countreviews` (reviewers and recommendation
    rate over a range of posting dates). */
module UserQueries {
  import opened Outcomes
  import opened Relational
  import opened Text
  import opened Tables

  datatype UserStats = UserStats(spend: int, recommendation: Ratio, itemsCount: int)

  datatype ReviewActivity = ReviewActivity(users: nat, recommendation: Ratio)

  function ReviewBy(u: string): Review -> bool
  {
    (r: Review) => r.userId == u
  }

  function PurchaseBy(u: string): ((Game, Item)) -> bool
  {
    (row: (Game, Item)) => row.1.userId == u
  }

  function PurchasePrice(row: (Game, Item)): int
  {
    row.0.price
  }

  predicate Recommended(r: Review)
  {
    r.recommend
  }

  function ItemUser(it: Item): string
  {
    it.userId
  }

  function ReviewUser(r: Review): string
  {
    r.userId
  }

  /** The positions of `u`'s reviews. */
  function ReviewsOf(reviews: seq<Review>, u: string): set<int>
  {
    set i | 0 <= i < |reviews| && reviews[i].userId == u
  }

  /** The positions of `u`'s reviews that recommend the game. */
  function RecommendationsOf(reviews: seq<Review>, u: string): set<int>
  {
    set i | 0 <= i < |reviews| && reviews[i].userId == u && reviews[i].recommend
  }

  /** The recommendation ratio of some reviews: those recommending over all of them. */
  function RecommendRatio(rs: seq<Review>): (q: Ratio)
    ensures q.total == |rs|
    ensures q.hits == |Indices(rs, Recommended)|
    ensures q.hits <= q.total
  {
    FilterCountByIndex(rs, Recommended);
    Ratio(|Filter(rs, Recommended)|, |rs|)
  }

  /** Item rows owned by user `u`. */
  function ItemOf(u: string): Item -> bool
  {
    (it: Item) => it.userId == u
  }

  /** The joined (game, item) rows of one user's purchases. */
  function Purchases(games: seq<Game>, items: seq<Item>, u: string): seq<(Game, Item)>
  {
    Filter(GamesItems(games, items), PurchaseBy(u))
  }

  /** The user's total spend: the price summed over the user's joined rows. */
  function Spend(games: seq<Game>, items: seq<Item>, u: string): int
  {
    SumBy(Purchases(games, items, u), PurchasePrice)
  }

  /** `userdata(user_id)`: NotFound unless the id occurs in `games.id`,
      `items.user_id` or `reviews.user_id`; Fault when it occurs but has no
      item row (`.iloc[0]` on an empty selection); otherwise spend, the
      recommendation ratio of the user's reviews and the first item row's
      `items_count`. */
  function UserData(games: seq<Game>, items: seq<Item>, reviews: seq<Review>, u: string): (a: Answer<UserStats>)
    ensures a.NotFound? <==> ((forall g :: g in games ==> g.id != u)
                             && (forall it :: it in items ==> it.userId != u)
                             && (forall r :: r in reviews ==> r.userId != u))
    ensures a.Fault? <==> (((exists g :: g in games && g.id == u) || (exists r :: r in reviews && r.userId == u))
                           && forall it :: it in items ==> it.userId != u)
    ensures a.Found? ==> exists i :: 0 <= i < |items| && items[i].userId == u
                                   && a.value.itemsCount == items[i].itemsCount
                                   && forall k :: 0 <= k < i ==> items[k].userId != u
    ensures a.Found? ==> a.value.recommendation.total == |ReviewsOf(reviews, u)|
    ensures a.Found? ==> a.value.recommendation.hits == |RecommendationsOf(reviews, u)|
    ensures a.Found? ==> a.value.recommendation.hits <= a.value.recommendation.total
    ensures a.Found? ==> a.value.spend == SpendByItems(games, items, u)
    ensures a.Found? && (forall g, it :: g in games && it in items && g.id == it.itemId ==> it.userId != u)
            ==> a.value.spend == 0
    ensures a.Found? && (forall g :: g in games ==> g.price >= 0) ==> a.value.spend >= 0
  {
    KnownFacts(games, items, reviews, u);
    if u !in Image(games, GameKey) && u !in Image(items, ItemUser) && u !in Image(reviews, ReviewUser) then
      NotFound
    else
      var first := FirstIndex(items, ItemOf(u));
      if first == |items| then Fault
      else
        ReviewCountFact(reviews, u);
        RecommendCountFact(reviews, u);
        SpendFacts(games, items, u);
        SpendIsSumOverItems(games, items, u);
        Found(UserStats(Spend(games, items, u), RecommendRatio(Filter(reviews, ReviewBy(u))), items[first].itemsCount))
  }

  lemma KnownFacts(games: seq<Game>, items: seq<Item>, reviews: seq<Review>, u: string)
    ensures u !in Image(games, GameKey) <==> forall g :: g in games ==> g.id != u
    ensures u !in Image(items, ItemUser) <==> forall it :: it in items ==> it.userId != u
    ensures u !in Image(reviews, ReviewUser) <==> forall r :: r in reviews ==> r.userId != u
  {
  }

  lemma ReviewCountFact(reviews: seq<Review>, u: string)
    ensures |Filter(reviews, ReviewBy(u))| == |ReviewsOf(reviews, u)|
  {
    FilterCountByIndex(reviews, ReviewBy(u));
    assert Indices(reviews, ReviewBy(u)) == ReviewsOf(reviews, u);
  }

  lemma RecommendCountFact(reviews: seq<Review>, u: string)
    ensures |Filter(Filter(reviews, ReviewBy(u)), Recommended)| == |RecommendationsOf(reviews, u)|
  {
    var both := Both(ReviewBy(u), Recommended);
    FilterFilter(reviews, ReviewBy(u), Recommended);
    FilterCountByIndex(reviews, both);
    assert Indices(reviews, both) == RecommendationsOf(reviews, u);
  }

  lemma SpendFacts(games: seq<Game>, items: seq<Item>, u: string)
    ensures (forall g, it :: g in games && it in items && g.id == it.itemId ==> it.userId != u)
            ==> Spend(games, items, u) == 0
    ensures (forall g :: g in games ==> g.price >= 0) ==> Spend(games, items, u) >= 0
  {
    var rows := Purchases(games, items, u);
    if forall g, it :: g in games && it in items && g.id == it.itemId ==> it.userId != u {
      FilterNone(GamesItems(games, items), PurchaseBy(u));
    }
  }

  /** The summed price of the catalogue rows whose id is `itemId`. */
  function CatalogPrice(games: seq<Game>, itemId: string): int
  {
    if |games| == 0 then 0
    else
      var last := games[|games| - 1];
      CatalogPrice(games[..|games| - 1], itemId) + (if last.id == itemId then last.price else 0)
  }

  /** Spend read item by item: each of the user's item rows adds the price of
      the catalogue rows for its game. */
  function SpendByItems(games: seq<Game>, items: seq<Item>, u: string): int
  {
    if |items| == 0 then 0
    else
      var last := items[|items| - 1];
      SpendByItems(games, items[..|items| - 1], u) + (if last.userId == u then CatalogPrice(games, last.itemId) else 0)
  }

  /** What one catalogue row contributes to the join-based spend. */
  function GameSpend(g: Game, items: seq<Item>, u: string): int
  {
    SumBy(Filter(Matches(g, items, GameKey, ItemKey), PurchaseBy(u)), PurchasePrice)
  }

  lemma GameSpendSnoc(g: Game, items: seq<Item>, u: string)
    requires |items| > 0
    ensures var last := items[|items| - 1];
            GameSpend(g, items, u)
            == GameSpend(g, items[..|items| - 1], u) + (if g.id == last.itemId && last.userId == u then g.price else 0)
  {
    var init, last := items[..|items| - 1], items[|items| - 1];
    var m := if g.id == last.itemId then [(g, last)] else [];
    assert Matches(g, items, GameKey, ItemKey) == Matches(g, init, GameKey, ItemKey) + m;
    FilterAppend(Matches(g, init, GameKey, ItemKey), m, PurchaseBy(u));
    SumByAppend(Filter(Matches(g, init, GameKey, ItemKey), PurchaseBy(u)), Filter(m, PurchaseBy(u)), PurchasePrice);
    if g.id == last.itemId {
      assert m[..0] == [];
      if last.userId == u {
        assert Filter(m, PurchaseBy(u)) == [(g, last)];
        assert [(g, last)][..0] == [];
      } else {
        assert Filter(m, PurchaseBy(u)) == [];
      }
    }
  }

  lemma {:induction false} SpendByItemsWithoutGames(items: seq<Item>, u: string)
    ensures SpendByItems([], items, u) == 0
    decreases |items|
  {
    if |items| > 0 {
      SpendByItemsWithoutGames(items[..|items| - 1], u);
    }
  }

  lemma {:induction false} SpendByItemsSnocGame(games: seq<Game>, g: Game, items: seq<Item>, u: string)
    ensures SpendByItems(games + [g], items, u) == SpendByItems(games, items, u) + GameSpend(g, items, u)
    decreases |items|
  {
    if |items| == 0 {
      assert Filter(Matches(g, items, GameKey, ItemKey), PurchaseBy(u)) == [];
    } else {
      var init, last := items[..|items| - 1], items[|items| - 1];
      SpendByItemsSnocGame(games, g, init, u);
      assert (games + [g])[..|games|] == games;
      GameSpendSnoc(g, items, u);
    }
  }

  /** The spend `userdata` computes over the games-items join equals the spend
      read from the user's own item rows, each adding the price of its game:
      the join neither loses nor duplicates a purchase. */
  lemma {:induction false} SpendIsSumOverItems(games: seq<Game>, items: seq<Item>, u: string)
    ensures Spend(games, items, u) == SpendByItems(games, items, u)
    decreases |games|
  {
    if |games| == 0 {
      SpendByItemsWithoutGames(items, u);
      assert Purchases(games, items, u) == [];
    } else {
      var init, g := games[..|games| - 1], games[|games| - 1];
      SpendIsSumOverItems(init, items, u);
      assert games == init + [g];
      SpendByItemsSnocGame(init, g, items, u);
      assert GamesItems(games, items) == GamesItems(init, items) + Matches(g, items, GameKey, ItemKey);
      FilterAppend(GamesItems(init, items), Matches(g, items, GameKey, ItemKey), PurchaseBy(u));
      SumByAppend(Purchases(init, items, u), Filter(Matches(g, items, GameKey, ItemKey), PurchaseBy(u)), PurchasePrice);
    }
  }

  /** Whether a review was posted within [lo, hi] under Python's string order. */
  function PostedWithin(lo: string, hi: string): Review -> bool
  {
    (r: Review) => LexLe(lo, r.posted) && LexLe(r.posted, hi)
  }

  /** Both ends of the range are inclusive: a review posted exactly on `lo`
      or exactly on `hi` is within it, when `lo` sorts no later than `hi`. */
  lemma EndsIncluded(lo: string, hi: string, r: Review)
    requires LexLe(lo, hi)
    requires r.posted == lo || r.posted == hi
    ensures PostedWithin(lo, hi)(r)
  {
    assert r.posted <= r.posted;
  }

  /** The positions of the reviews posted within [lo, hi]. */
  function PostedIndices(reviews: seq<Review>, lo: string, hi: string): set<int>
  {
    set i | 0 <= i < |reviews| && LexLe(lo, reviews[i].posted) && LexLe(reviews[i].posted, hi)
  }

  /** The positions of the recommending reviews posted within [lo, hi]. */
  function RecommendingIndices(reviews: seq<Review>, lo: string, hi: string): set<int>
  {
    set i | 0 <= i < |reviews| && LexLe(lo, reviews[i].posted) && LexLe(reviews[i].posted, hi) && reviews[i].recommend
  }

  /** The users with a review posted within [lo, hi]. */
  function ReviewersWithin(reviews: seq<Review>, lo: string, hi: string): set<string>
  {
    set r | r in reviews && LexLe(lo, r.posted) && LexLe(r.posted, hi) :: r.userId
  }

  /** `countreviews(fecha1, fecha2)`: the number of distinct users with a review
      posted within [lo, hi], and the recommendation ratio of those same reviews. */
  function CountReviews(reviews: seq<Review>, lo: string, hi: string): (c: ReviewActivity)
    ensures c.users == |ReviewersWithin(reviews, lo, hi)|
    ensures c.recommendation.total == |PostedIndices(reviews, lo, hi)|
    ensures c.recommendation.hits == |RecommendingIndices(reviews, lo, hi)|
    ensures c.users <= c.recommendation.total
    ensures c.recommendation.hits <= c.recommendation.total
    ensures c.users == 0 <==> c.recommendation.total == 0
    ensures !LexLe(lo, hi) ==> c.recommendation.total == 0
  {
    var window := Filter(reviews, PostedWithin(lo, hi));
    WindowFacts(reviews, lo, hi);
    ReviewActivity(|Image(window, ReviewUser)|, RecommendRatio(window))
  }

  lemma WindowCount(reviews: seq<Review>, lo: string, hi: string)
    ensures |Filter(reviews, PostedWithin(lo, hi))| == |PostedIndices(reviews, lo, hi)|
  {
    FilterCountByIndex(reviews, PostedWithin(lo, hi));
    assert Indices(reviews, PostedWithin(lo, hi)) == PostedIndices(reviews, lo, hi);
  }

  lemma WindowRecommendCount(reviews: seq<Review>, lo: string, hi: string)
    ensures |Filter(Filter(reviews, PostedWithin(lo, hi)), Recommended)| == |RecommendingIndices(reviews, lo, hi)|
  {
    var both := Both(PostedWithin(lo, hi), Recommended);
    FilterFilter(reviews, PostedWithin(lo, hi), Recommended);
    FilterCountByIndex(reviews, both);
    assert Indices(reviews, both) == RecommendingIndices(reviews, lo, hi);
  }

  lemma WindowFacts(reviews: seq<Review>, lo: string, hi: string)
    ensures var window := Filter(reviews, PostedWithin(lo, hi));
            && Image(window, ReviewUser) == ReviewersWithin(reviews, lo, hi)
            && |Image(window, ReviewUser)| <= |window|
            && (|Image(window, ReviewUser)| == 0 <==> |window| == 0)
            && |window| == |PostedIndices(reviews, lo, hi)|
            && |Filter(window, Recommended)| == |RecommendingIndices(reviews, lo, hi)|
            && (!LexLe(lo, hi) ==> |window| == 0)
  {
    var window := Filter(reviews, PostedWithin(lo, hi));
    WindowCount(reviews, lo, hi);
    WindowRecommendCount(reviews, lo, hi);
    ImageBound(window, ReviewUser);
    if |window| > 0 {
      assert ReviewUser(window[0]) in Image(window, ReviewUser);
    }
    if !LexLe(lo, hi) {
      forall r | r in reviews
        ensures !PostedWithin(lo, hi)(r)
      {
        EmptyRange(lo, hi, r.posted);
      }
      FilterNone(reviews, PostedWithin(lo, hi));
    }
  }
}
