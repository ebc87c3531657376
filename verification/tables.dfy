/** The four read-only tables the endpoints query, one record type per table,
    and the three joins the endpoints build from them. */
module Tables {
  import opened Outcomes
  import opened Relational
  import opened Text

  /** A catalogue row. `price` is in cents; `releaseDate` may be null. */
  datatype Game = Game(id: string, developer: string, price: int, releaseDate: Option<string>)

  /** One game owned by one user; `itemsCount` repeats the user's total on every row;
      `playtime` is `playtime_forever`, in minutes. */
  datatype Item = Item(userId: string, userUrl: string, itemId: string, itemsCount: int, playtime: int)

  /** One review; `sentiment` is the code 0 (negative), 1 (neutral) or 2 (positive),
      though nothing stops other values from occurring. */
  datatype Review = Review(userId: string, itemId: string, posted: string, recommend: bool, sentiment: int)

  /** One genre label of one game; a game with several genres has several rows. */
  datatype GenreTag = GenreTag(id: string, genre: string)

  function GameKey(g: Game): string { g.id }
  function ItemKey(it: Item): string { it.itemId }
  function ReviewKey(r: Review): string { r.itemId }
  function TagKey(t: GenreTag): string { t.id }

  /** Games joined with items on `id == item_id`. */
  function GamesItems(games: seq<Game>, items: seq<Item>): seq<(Game, Item)>
  {
    InnerJoin(games, items, GameKey, ItemKey)
  }

  /** Games joined with reviews on `id == item_id`. */
  function GamesReviews(games: seq<Game>, reviews: seq<Review>): seq<(Game, Review)>
  {
    InnerJoin(games, reviews, GameKey, ReviewKey)
  }

  /** Genre tags joined with items on `id == item_id`. */
  function TagsItems(tags: seq<GenreTag>, items: seq<Item>): seq<(GenreTag, Item)>
  {
    InnerJoin(tags, items, TagKey, ItemKey)
  }

  /** The year a game was released in: None for a null release date, and None
      when the date's prefix is not a number. */
  function ReleaseYear(g: Game): (y: Option<int>)
    ensures g.releaseDate.None? ==> y.None?
  {
    if g.releaseDate.None? then None else YearOf(g.releaseDate.value)
  }
}
