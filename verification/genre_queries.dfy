/** The two genre endpoints over the genre-tags/items join: `genero` (the
    rank of one genre by total playtime) and `userforgenre` (the five
    highest-playtime rows of one genre), each as written and as evidently
    intended: the rank among all genres, and the top five users by their
    summed playtime. */
module GenreQueries {
  import opened Outcomes
  import opened Relational
  import opened Ranking
  import opened Tables

  /** One entry of the `userforgenre` answer. */
  datatype RankedUser = RankedUser(rank: int, userId: string, userUrl: string)

  function RowGenre(row: (GenreTag, Item)): string
  {
    row.0.genre
  }

  function RowPlaytime(row: (GenreTag, Item)): int
  {
    row.1.playtime
  }

  function OfGenre(g: string): ((GenreTag, Item)) -> bool
  {
    (row: (GenreTag, Item)) => row.0.genre == g
  }

  /** The joined (tag, item) rows of genre `g`. */
  function GenreRows(tags: seq<GenreTag>, items: seq<Item>, g: string): seq<(GenreTag, Item)>
  {
    Filter(TagsItems(tags, items), OfGenre(g))
  }

  /** Index pairs (tag row, item row) that join and carry genre `g`. */
  function GenrePairs(tags: seq<GenreTag>, items: seq<Item>, g: string): set<(int, int)>
  {
    set i, j | 0 <= i < |tags| && 0 <= j < |items| && tags[i].id == items[j].itemId && tags[i].genre == g :: (i, j)
  }

  /** No genre-tag row of genre `g` joins an item row. */
  predicate Unplayed(tags: seq<GenreTag>, items: seq<Item>, g: string)
  {
    forall t, it :: t in tags && it in items && t.id == it.itemId ==> t.genre != g
  }

  lemma GenreRowsEmpty(tags: seq<GenreTag>, items: seq<Item>, g: string)
    ensures |GenreRows(tags, items, g)| == 0 <==> Unplayed(tags, items, g)
  {
    var rows := GenreRows(tags, items, g);
    if Unplayed(tags, items, g) {
      FilterNone(TagsItems(tags, items), OfGenre(g));
    } else {
      var t, it :| t in tags && it in items && t.id == it.itemId && t.genre == g;
      assert (t, it) in rows;
    }
  }

  /** The genre's joined rows are the joining (tag, item) index pairs of that
      genre: one per ownership record, so a game owned by n users counts n times. */
  lemma GenreRowCount(tags: seq<GenreTag>, items: seq<Item>, g: string)
    ensures |GenreRows(tags, items, g)| == |GenrePairs(tags, items, g)|
  {
    JoinCount(tags, items, TagKey, ItemKey, OfGenre(g));
    assert MatchingPairs(tags, items, TagKey, ItemKey, OfGenre(g)) == GenrePairs(tags, items, g);
  }

  /** `genero(genero)`, as written: NotFound when no joined row has the genre;
      otherwise the rows are filtered to the genre BEFORE grouping, so the
      grouped table has a single row and the reported rank is always 1. */
  function GenreRank(tags: seq<GenreTag>, items: seq<Item>, g: string): (a: Answer<int>)
    ensures a.NotFound? <==> Unplayed(tags, items, g)
    ensures a.Found? ==> a.value == 1
    ensures !a.Fault?
  {
    var rows := GenreRows(tags, items, g);
    GenreRowsEmpty(tags, items, g);
    if |rows| == 0 then NotFound
    else
      var groups := GroupSum(rows, RowGenre, RowPlaytime);
      var position := FirstIndex(groups, KeyIs(EntryKey, g));
      SingleGenreGroup(rows, g, groups);
      Found(position + 1)
  }

  lemma SingleGenreGroup(rows: seq<(GenreTag, Item)>, g: string, groups: seq<(string, int)>)
    requires |rows| > 0
    requires forall row :: row in rows ==> row.0.genre == g
    requires IsGroupSum(rows, RowGenre, RowPlaytime, groups)
    ensures |groups| == 1 && groups[0].0 == g
    ensures FirstIndex(groups, KeyIs(EntryKey, g)) == 0
  {
    assert Image(rows, RowGenre) == {g} by {
      assert RowGenre(rows[0]) in Image(rows, RowGenre);
    }
    GroupOfOneKey(groups, g);
    assert KeyIs(EntryKey, g)(groups[0]);
  }

  /** `userforgenre(genero)` lists `top`, a top-five selection of the genre's
      joined rows by playtime, one entry per selected ROW ranked 1, 2, ... */
  ghost predicate ListsTopRows(rows: seq<(GenreTag, Item)>, users: seq<RankedUser>)
  {
    exists top: seq<(GenreTag, Item)> ::
      && |top| == |users| == Min(5, |rows|)
      && IsTopSelection(rows, top, RowPlaytime)
      && forall i :: 0 <= i < |users| ==> users[i] == RankedUser(i + 1, top[i].1.userId, top[i].1.userUrl)
  }

  /** The selected rows' owners, ranked 1, 2, ... in selection order. */
  function RankRows(top: seq<(GenreTag, Item)>): seq<RankedUser>
  {
    seq(|top|, i requires 0 <= i < |top| => RankedUser(i + 1, top[i].1.userId, top[i].1.userUrl))
  }

  lemma RankRowsAt(top: seq<(GenreTag, Item)>)
    ensures |RankRows(top)| == |top|
    ensures forall i :: 0 <= i < |top| ==> RankRows(top)[i] == RankedUser(i + 1, top[i].1.userId, top[i].1.userUrl)
  {
  }

  /** `userforgenre(genero)`: NotFound when no joined row has the genre;
      otherwise the five highest-playtime rows (owner id and profile URL),
      ranked from 1. Rows, not users, are ranked, so one user may be listed
      more than once. */
  function UserForGenre(tags: seq<GenreTag>, items: seq<Item>, g: string): (a: Answer<seq<RankedUser>>)
    ensures a.NotFound? <==> Unplayed(tags, items, g)
    ensures !a.Fault?
    ensures a.Found? ==> ListsTopRows(GenreRows(tags, items, g), a.value)
  {
    var rows := GenreRows(tags, items, g);
    GenreRowsEmpty(tags, items, g);
    if |rows| == 0 then NotFound
    else
      var top := TopK(rows, 5, RowPlaytime);
      var users := RankRows(top);
      RankRowsAt(top);
      assert |top| == |users| == Min(5, |rows|);
      Found(users)
  }

  /** Every listed entry is the owner of an item tagged with the genre. */
  lemma ListedUsersPlayGenre(tags: seq<GenreTag>, items: seq<Item>, g: string, i: int)
    requires UserForGenre(tags, items, g).Found?
    requires 0 <= i < |UserForGenre(tags, items, g).value|
    ensures exists t, it :: t in tags && it in items && t.id == it.itemId && t.genre == g
                            && it.userId == UserForGenre(tags, items, g).value[i].userId
                            && it.userUrl == UserForGenre(tags, items, g).value[i].userUrl
  {
    var rows := GenreRows(tags, items, g);
    var users := UserForGenre(tags, items, g).value;
    var top: seq<(GenreTag, Item)> :| && |top| == |users| == Min(5, |rows|)
               && IsTopSelection(rows, top, RowPlaytime)
               && forall i :: 0 <= i < |users| ==> users[i] == RankedUser(i + 1, top[i].1.userId, top[i].1.userUrl);
    var row := top[i];
    assert row in multiset(top);
    assert row in multiset(rows);
    assert row in TagsItems(tags, items);
  }

  /** With at most five joined rows of the genre, every row is listed. */
  lemma FewRowsAllListed(tags: seq<GenreTag>, items: seq<Item>, g: string)
    requires !Unplayed(tags, items, g)
    requires |GenreRows(tags, items, g)| <= 5
    ensures multiset(TopK(GenreRows(tags, items, g), 5, RowPlaytime)) == multiset(GenreRows(tags, items, g))
    ensures |UserForGenre(tags, items, g).value| == |GenreRows(tags, items, g)|
  {
    TopKTakesAllWhenFew(GenreRows(tags, items, g), 5, RowPlaytime);
  }

  // ---------------------------------------------------------------------------
  // The rank `genero` evidently means: the genre's place among ALL genres of
  // the join ordered by total playtime, highest first. Genres with equal totals
  // share a place.

  /** The total playtime of genre `h` over the joined rows. */
  function GenrePlaytime(rows: seq<(GenreTag, Item)>, h: string): int
  {
    SumBy(Filter(rows, OfGenre(h)), RowPlaytime)
  }

  /** The genres that occur in the joined rows. */
  function Genres(rows: seq<(GenreTag, Item)>): set<string>
  {
    Image(rows, RowGenre)
  }

  function PlaytimeOf(rows: seq<(GenreTag, Item)>): string -> int
  {
    h => GenrePlaytime(rows, h)
  }

  /** The members of `s` scoring strictly above `t`. */
  function Above(s: set<string>, score: string -> int, t: int): set<string>
  {
    set h | h in s && score(h) > t
  }

  /** The genres whose total playtime is strictly higher than `g`'s. */
  function GenresAhead(rows: seq<(GenreTag, Item)>, g: string): set<string>
  {
    Above(Genres(rows), PlaytimeOf(rows), GenrePlaytime(rows, g))
  }

  /** The corrected `genero`: NotFound exactly as before; otherwise one more
      than the number of genres with a strictly higher total playtime. */
  function RankAmongGenres(tags: seq<GenreTag>, items: seq<Item>, g: string): (a: Answer<int>)
    ensures a.NotFound? <==> Unplayed(tags, items, g)
    ensures !a.Fault?
    ensures a.Found? ==> 1 <= a.value <= |Genres(TagsItems(tags, items))|
  {
    var rows := TagsItems(tags, items);
    GenreRowsEmpty(tags, items, g);
    GenreOccurs(tags, items, g);
    if g !in Genres(rows) then NotFound
    else
      assert GenresAhead(rows, g) <= Genres(rows) - {g};
      SubsetCardinality(GenresAhead(rows, g), Genres(rows) - {g});
      Found(1 + |GenresAhead(rows, g)|)
  }

  lemma GenreOccurs(tags: seq<GenreTag>, items: seq<Item>, g: string)
    ensures g in Genres(TagsItems(tags, items)) <==> |GenreRows(tags, items, g)| > 0
  {
    var rows := TagsItems(tags, items);
    if g in Genres(rows) {
      var row :| row in rows && RowGenre(row) == g;
      assert row in GenreRows(tags, items, g);
    }
    if |GenreRows(tags, items, g)| > 0 {
      var row := GenreRows(tags, items, g)[0];
      assert row in rows && RowGenre(row) == g;
      assert RowGenre(row) in Genres(rows);
    }
  }

  /** A genre with more total playtime ranks strictly ahead. */
  lemma RankMonotonic(tags: seq<GenreTag>, items: seq<Item>, a: string, b: string)
    requires !Unplayed(tags, items, a) && !Unplayed(tags, items, b)
    requires GenrePlaytime(TagsItems(tags, items), a) > GenrePlaytime(TagsItems(tags, items), b)
    ensures RankAmongGenres(tags, items, a).value < RankAmongGenres(tags, items, b).value
  {
    RankCountsAhead(tags, items, a);
    RankCountsAhead(tags, items, b);
    GenreRowsEmpty(tags, items, a);
    GenreOccurs(tags, items, a);
    AheadGrows(TagsItems(tags, items), a, b);
  }

  lemma AheadGrows(rows: seq<(GenreTag, Item)>, a: string, b: string)
    requires a in Genres(rows)
    requires GenrePlaytime(rows, a) > GenrePlaytime(rows, b)
    ensures |GenresAhead(rows, a)| < |GenresAhead(rows, b)|
  {
    AboveGrows(Genres(rows), PlaytimeOf(rows), a, b);
  }

  /** Raising the bar to a member scoring above it drops that member and more. */
  lemma AboveGrows(s: set<string>, score: string -> int, a: string, b: string)
    requires a in s && score(a) > score(b)
    ensures |Above(s, score, score(a))| < |Above(s, score, score(b))|
  {
    var aheadA, aheadB := Above(s, score, score(a)), Above(s, score, score(b));
    assert aheadA + {a} <= aheadB;
    SubsetCardinality(aheadA + {a}, aheadB);
  }

  /** Rank 1 goes exactly to the genres no other genre out-plays. */
  lemma RankOneIsTop(tags: seq<GenreTag>, items: seq<Item>, g: string)
    requires !Unplayed(tags, items, g)
    ensures RankAmongGenres(tags, items, g).value == 1
        <==> forall h :: h in Genres(TagsItems(tags, items))
                         ==> GenrePlaytime(TagsItems(tags, items), h) <= GenrePlaytime(TagsItems(tags, items), g)
  {
    var rows := TagsItems(tags, items);
    var ahead := GenresAhead(rows, g);
    GenreRowsEmpty(tags, items, g);
    GenreOccurs(tags, items, g);
    assert RankAmongGenres(tags, items, g).value == 1 + |ahead|;
    if ahead == {} {
      forall h | h in Genres(rows)
        ensures GenrePlaytime(rows, h) <= GenrePlaytime(rows, g)
      {
        assert h !in ahead;
      }
    } else {
      var h :| h in ahead;
      assert h in Genres(rows) && GenrePlaytime(rows, h) > GenrePlaytime(rows, g);
    }
  }

  // A two-genre catalogue owned by one user: Action played 30, Indie 600.

  function SampleTags(): seq<GenreTag>
  {
    [GenreTag("10", "Action"), GenreTag("20", "Indie")]
  }

  function SampleItems(): seq<Item>
  {
    [Item("u", "http://u", "10", 2, 30), Item("u", "http://u", "20", 2, 600)]
  }

  lemma SampleJoin()
    ensures TagsItems(SampleTags(), SampleItems())
         == [(SampleTags()[0], SampleItems()[0]), (SampleTags()[1], SampleItems()[1])]
  {
    PairwiseJoin(SampleTags()[0], SampleTags()[1], SampleItems()[0], SampleItems()[1]);
  }

  /** Two tags, each matching exactly its own item row. */
  lemma PairwiseJoin(t0: GenreTag, t1: GenreTag, i0: Item, i1: Item)
    requires t0.id == i0.itemId && t1.id == i1.itemId && t0.id != t1.id
    ensures TagsItems([t0, t1], [i0, i1]) == [(t0, i0), (t1, i1)]
  {
    var tags, items := [t0, t1], [i0, i1];
    assert items[..1] == [i0] && [i0][..0] == [] && tags[..1] == [t0] && [t0][..0] == [];
    assert Matches(t0, [i0], TagKey, ItemKey) == [(t0, i0)];
    assert Matches(t0, items, TagKey, ItemKey) == [(t0, i0)];
    assert Matches(t1, [i0], TagKey, ItemKey) == [];
    assert Matches(t1, items, TagKey, ItemKey) == [(t1, i1)];
    assert InnerJoin([t0], items, TagKey, ItemKey) == [(t0, i0)];
  }

  lemma SamplePlaytimes()
    ensures GenrePlaytime(TagsItems(SampleTags(), SampleItems()), "Action") == 30
    ensures GenrePlaytime(TagsItems(SampleTags(), SampleItems()), "Indie") == 600
  {
    SampleJoin();
    var rows := TagsItems(SampleTags(), SampleItems());
    TwoGenrePlaytimes(rows[0], rows[1], rows);
  }

  /** Two rows of different genres: each genre's total is its row's playtime. */
  lemma TwoGenrePlaytimes(r0: (GenreTag, Item), r1: (GenreTag, Item), rows: seq<(GenreTag, Item)>)
    requires rows == [r0, r1] && r0.0.genre != r1.0.genre
    ensures GenrePlaytime(rows, r0.0.genre) == r0.1.playtime
    ensures GenrePlaytime(rows, r1.0.genre) == r1.1.playtime
  {
    assert rows == [r0] + [r1];
    OneRowTotal(r0, r1, rows, r0.0.genre);
    OneRowTotal(r1, r0, rows, r1.0.genre);
  }

  lemma OneRowTotal(x: (GenreTag, Item), y: (GenreTag, Item), rows: seq<(GenreTag, Item)>, g: string)
    requires rows == [x] + [y] || rows == [y] + [x]
    requires x.0.genre == g != y.0.genre
    ensures GenrePlaytime(rows, g) == x.1.playtime
  {
    assert [x][..0] == [] && [y][..0] == [];
    assert Filter([x], OfGenre(g)) == [x];
    assert Filter([y], OfGenre(g)) == [];
    FilterAppend([x], [y], OfGenre(g));
    FilterAppend([y], [x], OfGenre(g));
    assert SumBy([x], RowPlaytime) == SumBy([], RowPlaytime) + RowPlaytime(x);
  }

  lemma SampleGenres()
    ensures Genres(TagsItems(SampleTags(), SampleItems())) == {"Action", "Indie"}
  {
    SampleJoin();
    var rows := TagsItems(SampleTags(), SampleItems());
    assert RowGenre(rows[0]) in Genres(rows) && RowGenre(rows[1]) in Genres(rows);
  }

  /** Two genres, the tagged one played less: `genero` as written reports
      rank 1 for the less-played genre, where the corrected rank is 2. */
  lemma GenreRankAlwaysFirst()
    ensures GenreRank(SampleTags(), SampleItems(), "Action") == Found(1)
    ensures RankAmongGenres(SampleTags(), SampleItems(), "Action") == Found(2)
  {
    SamplePlayed();
    SampleCorrectRank();
  }

  lemma SamplePlayed()
    ensures !Unplayed(SampleTags(), SampleItems(), "Action")
  {
    var tags, items := SampleTags(), SampleItems();
    assert tags[0] in tags && items[0] in items;
  }

  lemma SampleCorrectRank()
    ensures RankAmongGenres(SampleTags(), SampleItems(), "Action") == Found(2)
  {
    var tags, items := SampleTags(), SampleItems();
    SamplePlayed();
    SampleAhead();
    RankCountsAhead(tags, items, "Action");
    assert |{"Indie"}| == 1;
  }

  lemma RankCountsAhead(tags: seq<GenreTag>, items: seq<Item>, g: string)
    requires !Unplayed(tags, items, g)
    ensures RankAmongGenres(tags, items, g) == Found(1 + |GenresAhead(TagsItems(tags, items), g)|)
  {
    GenreRowsEmpty(tags, items, g);
    GenreOccurs(tags, items, g);
  }

  lemma SampleAhead()
    ensures GenresAhead(TagsItems(SampleTags(), SampleItems()), "Action") == {"Indie"}
  {
    SamplePlaytimes();
    SampleGenres();
  }

  // ---------------------------------------------------------------------------
  // The ranking `userforgenre` evidently means: users, each with the playtime
  // of all their items of the genre summed, top five by that total.

  /** The (user id, profile URL) owning a joined row. */
  function RowOwner(row: (GenreTag, Item)): (string, string)
  {
    (row.1.userId, row.1.userUrl)
  }

  function EntryTotal(e: ((string, string), int)): int
  {
    e.1
  }

  function ListedOwner(u: RankedUser): (string, string)
  {
    (u.userId, u.userUrl)
  }

  /** The owners of the rows. */
  function Owners(rows: seq<(GenreTag, Item)>): set<(string, string)>
  {
    Image(rows, RowOwner)
  }

  /** The playtime of owner `o` summed over the rows. */
  function OwnerPlaytime(rows: seq<(GenreTag, Item)>, o: (string, string)): int
  {
    SumBy(Filter(rows, KeyIs(RowOwner, o)), RowPlaytime)
  }

  /** `users` ranks the owners of `rows` by total playtime: ranks 1, 2, ...,
      each a distinct owner, as many as five allow, totals non-increasing, and
      no owner left out with a higher total than one listed. */
  ghost predicate ListsTopOwners(rows: seq<(GenreTag, Item)>, users: seq<RankedUser>)
  {
    && |users| == Min(5, |Owners(rows)|)
    && (forall i :: 0 <= i < |users| ==> users[i].rank == i + 1 && ListedOwner(users[i]) in Owners(rows))
    && (forall i, j :: 0 <= i < j < |users| ==> ListedOwner(users[i]) != ListedOwner(users[j]))
    && (forall i, j :: 0 <= i < j < |users|
          ==> OwnerPlaytime(rows, ListedOwner(users[i])) >= OwnerPlaytime(rows, ListedOwner(users[j])))
    && (forall o, i :: o in Owners(rows) && (forall j :: 0 <= j < |users| ==> ListedOwner(users[j]) != o)
                       && 0 <= i < |users|
          ==> OwnerPlaytime(rows, o) <= OwnerPlaytime(rows, ListedOwner(users[i])))
  }

  /** The selected owners, ranked 1, 2, ... in selection order. */
  function RankOwners(top: seq<((string, string), int)>): seq<RankedUser>
  {
    seq(|top|, i requires 0 <= i < |top| => RankedUser(i + 1, top[i].0.0, top[i].0.1))
  }

  lemma RankOwnersAt(top: seq<((string, string), int)>)
    ensures |RankOwners(top)| == |top|
    ensures forall i :: 0 <= i < |top| ==> RankOwners(top)[i] == RankedUser(i + 1, top[i].0.0, top[i].0.1)
  {
  }

  /** The corrected `userforgenre`: NotFound exactly as before; otherwise the
      genre's rows are grouped by owner with playtime summed, and the five
      owners with the highest totals are ranked. */
  function TopOwnersForGenre(tags: seq<GenreTag>, items: seq<Item>, g: string): (a: Answer<seq<RankedUser>>)
    ensures a.NotFound? <==> Unplayed(tags, items, g)
    ensures !a.Fault?
    ensures a.Found? ==> ListsTopOwners(GenreRows(tags, items, g), a.value)
  {
    var rows := GenreRows(tags, items, g);
    GenreRowsEmpty(tags, items, g);
    if |rows| == 0 then NotFound
    else
      var groups := GroupSum(rows, RowOwner, RowPlaytime);
      GroupsRepeatFree(groups);
      var top := TopK(groups, 5, EntryTotal);
      var users := RankOwners(top);
      RankOwnersAt(top);
      TopOwnersRanked(rows, groups, top, users);
      Found(users)
  }

  lemma GroupsRepeatFree(groups: seq<((string, string), int)>)
    requires forall a, b :: 0 <= a < b < |groups| ==> groups[a].0 != groups[b].0
    ensures NoRepeats(groups)
  {
  }

  /** Each group drawn into the selection is an owner with that owner's total. */
  lemma SelectedGroup(rows: seq<(GenreTag, Item)>, groups: seq<((string, string), int)>, e: ((string, string), int))
    requires IsGroupSum(rows, RowOwner, RowPlaytime, groups)
    requires e in groups
    ensures e.0 in Owners(rows) && e.1 == OwnerPlaytime(rows, e.0)
  {
    var p :| 0 <= p < |groups| && groups[p] == e;
    assert e.0 in GroupKeys(groups);
  }

  lemma TopOwnersRanked(rows: seq<(GenreTag, Item)>, groups: seq<((string, string), int)>,
                        top: seq<((string, string), int)>, users: seq<RankedUser>)
    requires IsGroupSum(rows, RowOwner, RowPlaytime, groups)
    requires |top| == Min(5, |groups|) && IsTopSelection(groups, top, EntryTotal) && NoRepeats(top)
    requires |users| == |top|
    requires forall i :: 0 <= i < |top| ==> users[i] == RankedUser(i + 1, top[i].0.0, top[i].0.1)
    ensures ListsTopOwners(rows, users)
  {
    DistinctKeysCount(groups);
    SelectedOwners(rows, groups, top, users);
    DistinctOwners(groups, top, users);
    LeftOutOwners(rows, groups, top, users);
  }

  /** The listed owners are the selected groups' owners, with their totals. */
  lemma SelectedOwners(rows: seq<(GenreTag, Item)>, groups: seq<((string, string), int)>,
                       top: seq<((string, string), int)>, users: seq<RankedUser>)
    requires IsGroupSum(rows, RowOwner, RowPlaytime, groups)
    requires IsTopSelection(groups, top, EntryTotal)
    requires |users| == |top|
    requires forall i :: 0 <= i < |top| ==> users[i] == RankedUser(i + 1, top[i].0.0, top[i].0.1)
    ensures forall i :: 0 <= i < |top| ==> ListedOwner(users[i]) == top[i].0
    ensures forall i :: 0 <= i < |top| ==> top[i].0 in Owners(rows) && top[i].1 == OwnerPlaytime(rows, top[i].0)
  {
    forall i | 0 <= i < |top|
      ensures ListedOwner(users[i]) == top[i].0
      ensures top[i].0 in Owners(rows) && top[i].1 == OwnerPlaytime(rows, top[i].0)
    {
      assert top[i] in multiset(top);
      assert top[i] in multiset(groups);
      SelectedGroup(rows, groups, top[i]);
    }
  }

  /** Distinct groups of a repeat-free grouping carry distinct owners. */
  lemma DistinctOwners(groups: seq<((string, string), int)>,
                       top: seq<((string, string), int)>, users: seq<RankedUser>)
    requires forall a, b :: 0 <= a < b < |groups| ==> groups[a].0 != groups[b].0
    requires IsTopSelection(groups, top, EntryTotal) && NoRepeats(top)
    requires |users| == |top|
    requires forall i :: 0 <= i < |top| ==> users[i] == RankedUser(i + 1, top[i].0.0, top[i].0.1)
    ensures forall i, j :: 0 <= i < j < |users| ==> ListedOwner(users[i]) != ListedOwner(users[j])
  {
    forall i, j | 0 <= i < j < |users|
      ensures ListedOwner(users[i]) != ListedOwner(users[j])
    {
      assert top[i] in multiset(top) && top[j] in multiset(top);
      var p :| 0 <= p < |groups| && groups[p] == top[i];
      var q :| 0 <= q < |groups| && groups[q] == top[j];
      assert top[i] != top[j];
      assert p != q;
    }
  }

  lemma LeftOutOwners(rows: seq<(GenreTag, Item)>, groups: seq<((string, string), int)>,
                      top: seq<((string, string), int)>, users: seq<RankedUser>)
    requires IsGroupSum(rows, RowOwner, RowPlaytime, groups)
    requires IsTopSelection(groups, top, EntryTotal)
    requires |users| == |top|
    requires forall i :: 0 <= i < |top| ==> users[i] == RankedUser(i + 1, top[i].0.0, top[i].0.1)
    requires forall i :: 0 <= i < |top| ==> top[i].1 == OwnerPlaytime(rows, top[i].0)
    ensures forall o, i :: o in Owners(rows) && (forall j :: 0 <= j < |users| ==> ListedOwner(users[j]) != o)
                           && 0 <= i < |users|
              ==> OwnerPlaytime(rows, o) <= OwnerPlaytime(rows, ListedOwner(users[i]))
  {
    forall o, i | o in Owners(rows) && (forall j :: 0 <= j < |users| ==> ListedOwner(users[j]) != o)
                  && 0 <= i < |users|
      ensures OwnerPlaytime(rows, o) <= OwnerPlaytime(rows, ListedOwner(users[i]))
    {
      assert o in GroupKeys(groups);
      var e :| e in groups && e.0 == o;
      SelectedGroup(rows, groups, e);
      UnlistedGroup(groups, top, users, e);
      assert ListedOwner(users[i]) == top[i].0;
    }
  }

  /** A group whose owner is not listed is left out of the selection. */
  lemma UnlistedGroup(groups: seq<((string, string), int)>, top: seq<((string, string), int)>,
                      users: seq<RankedUser>, e: ((string, string), int))
    requires IsTopSelection(groups, top, EntryTotal)
    requires |users| == |top|
    requires forall i :: 0 <= i < |top| ==> users[i] == RankedUser(i + 1, top[i].0.0, top[i].0.1)
    requires e in groups && forall j :: 0 <= j < |users| ==> ListedOwner(users[j]) != e.0
    ensures forall i :: 0 <= i < |top| ==> EntryTotal(e) <= EntryTotal(top[i])
  {
    forall j | 0 <= j < |top|
      ensures top[j] != e
    {
      assert ListedOwner(users[j]) == top[j].0;
    }
    assert e !in multiset(top);
    assert e in multiset(groups) - multiset(top);
  }

  /** A listed entry is the owner of one of the rows. */
  lemma ListedFromRows(rows: seq<(GenreTag, Item)>, users: seq<RankedUser>, k: int)
    requires ListsTopRows(rows, users)
    requires 0 <= k < |users|
    ensures users[k].rank == k + 1
    ensures exists row :: row in rows && users[k].userId == row.1.userId && users[k].userUrl == row.1.userUrl
  {
    var top: seq<(GenreTag, Item)> :| && |top| == |users| == Min(5, |rows|)
               && IsTopSelection(rows, top, RowPlaytime)
               && forall i :: 0 <= i < |users| ==> users[i] == RankedUser(i + 1, top[i].1.userId, top[i].1.userUrl);
    assert top[k] in multiset(top);
    assert top[k] in multiset(rows);
  }

  lemma TwoRowsOfGenre(t0: GenreTag, t1: GenreTag, i0: Item, i1: Item)
    requires t0.id == i0.itemId && t1.id == i1.itemId && t0.id != t1.id
    requires t0.genre == t1.genre
    ensures !Unplayed([t0, t1], [i0, i1], t0.genre)
    ensures GenreRows([t0, t1], [i0, i1], t0.genre) == [(t0, i0), (t1, i1)]
  {
    var tags, items := [t0, t1], [i0, i1];
    PairwiseJoin(t0, t1, i0, i1);
    var joined := TagsItems(tags, items);
    assert t0 in tags && i0 in items;
    assert joined[..1] == [(t0, i0)] && [(t0, i0)][..0] == [];
  }

  /** Two rows of one owner: the row ranking names that owner at places 1 and 2. */
  lemma TwiceListed(rows: seq<(GenreTag, Item)>, users: seq<RankedUser>, u: string, url: string)
    requires ListsTopRows(rows, users)
    requires |rows| == 2
    requires forall row :: row in rows ==> row.1.userId == u && row.1.userUrl == url
    ensures users == [RankedUser(1, u, url), RankedUser(2, u, url)]
  {
    assert |users| == 2;
    ListedFromRows(rows, users, 0);
    ListedFromRows(rows, users, 1);
  }

  /** When the genre has exactly two rows, both of one owner, `userforgenre`
      as written names that owner at places 1 and 2. */
  lemma TwoRowsOneOwner(tags: seq<GenreTag>, items: seq<Item>, g: string, u: string, url: string)
    requires |GenreRows(tags, items, g)| == 2
    requires forall row :: row in GenreRows(tags, items, g) ==> row.1.userId == u && row.1.userUrl == url
    ensures UserForGenre(tags, items, g) == Found([RankedUser(1, u, url), RankedUser(2, u, url)])
  {
    GenreRowsEmpty(tags, items, g);
    var a := UserForGenre(tags, items, g);
    TwiceListed(GenreRows(tags, items, g), a.value, u, url);
  }

  /** One user owning two games of the genre: `userforgenre` as written lists
      that user twice. */
  lemma OwnerListedTwice(t0: GenreTag, t1: GenreTag, i0: Item, i1: Item)
    requires t0.id == i0.itemId && t1.id == i1.itemId && t0.id != t1.id
    requires t0.genre == t1.genre
    requires i0.userId == i1.userId && i0.userUrl == i1.userUrl
    ensures UserForGenre([t0, t1], [i0, i1], t0.genre)
         == Found([RankedUser(1, i0.userId, i0.userUrl), RankedUser(2, i0.userId, i0.userUrl)])
  {
    TwoRowsOfGenre(t0, t1, i0, i1);
    TwoRowsOneOwner([t0, t1], [i0, i1], t0.genre, i0.userId, i0.userUrl);
  }

  /** The same two rows give the per-owner ranking a single entry. */
  lemma OwnerListedOnce(t0: GenreTag, t1: GenreTag, i0: Item, i1: Item)
    requires t0.id == i0.itemId && t1.id == i1.itemId && t0.id != t1.id
    requires t0.genre == t1.genre
    requires i0.userId == i1.userId && i0.userUrl == i1.userUrl
    ensures TopOwnersForGenre([t0, t1], [i0, i1], t0.genre).Found?
    ensures |TopOwnersForGenre([t0, t1], [i0, i1], t0.genre).value| == 1
  {
    TwoRowsOfGenre(t0, t1, i0, i1);
    var rows := GenreRows([t0, t1], [i0, i1], t0.genre);
    assert Owners(rows) == {RowOwner(rows[0])};
  }

  /** The sample: user "u" owns two Action games. */
  lemma SampleOwnerListedTwice()
    ensures UserForGenre([GenreTag("10", "Action"), GenreTag("11", "Action")],
                         [Item("u", "http://u", "10", 2, 30), Item("u", "http://u", "11", 2, 600)], "Action")
         == Found([RankedUser(1, "u", "http://u"), RankedUser(2, "u", "http://u")])
    ensures |TopOwnersForGenre([GenreTag("10", "Action"), GenreTag("11", "Action")],
                               [Item("u", "http://u", "10", 2, 30), Item("u", "http://u", "11", 2, 600)], "Action").value| == 1
  {
    var t0, t1 := GenreTag("10", "Action"), GenreTag("11", "Action");
    var i0, i1 := Item("u", "http://u", "10", 2, 30), Item("u", "http://u", "11", 2, 600);
    OwnerListedTwice(t0, t1, i0, i1);
    OwnerListedOnce(t0, t1, i0, i1);
  }
}
