/** The search form's filter and the sort orders of the catalog list and of
    the favorites list. */
module FilterSort {
  import opened Wrappers
  import opened Text
  import opened Model
  import Catalog

  // ---- handleSubmit: the filter -----------------------------------------------

  /** The title test: the lower-cased title contains the lower-cased query,
      or the two start with the same character (`charAt(0)`, so two empty
      strings count as the same start). */
  predicate TitleMatches(title: string, query: string) {
    var t := Lower(title);
    var q := Lower(query);
    Contains(t, q) || FirstChar(t) == FirstChar(q)
  }

  /** The genre test: no genre selected, or the show lists the selected
      genre's number. A selection that is not a number matches no show. */
  predicate GenreMatches(genres: seq<int>, selected: string) {
    selected == "" || (ParseNat(selected).Some? && ParseNat(selected).value in genres)
  }

  predicate Passes(show: Show, query: string, genre: string) {
    TitleMatches(show.title, query) && GenreMatches(show.genres, genre)
  }

  /** `a` can be had from `b` by deleting elements. */
  predicate IsSubsequence(a: seq<Show>, b: seq<Show>)
    decreases |b|
  {
    |a| == 0 || (|b| > 0 && ((a[0] == b[0] && IsSubsequence(a[1..], b[1..])) || IsSubsequence(a, b[1..])))
  }

  /** `shows.filter(...)` in `handleSubmit`: the catalog's shows that pass
      both tests, in catalog order, and no others. */
  function FilterShows(shows: seq<Show>, query: string, genre: string): (r: seq<Show>)
    ensures forall s :: s in r <==> s in shows && Passes(s, query, genre)
    ensures forall s :: multiset(r)[s] == if Passes(s, query, genre) then multiset(shows)[s] else 0
    ensures IsSubsequence(r, shows)
    ensures |r| <= |shows|
  {
    if |shows| == 0 then []
    else
      var rest := FilterShows(shows[1..], query, genre);
      assert shows == [shows[0]] + shows[1..];
      if Passes(shows[0], query, genre) then [shows[0]] + rest else rest
  }

  /** What the page shows after a search: the whole catalog when no show
      passes, otherwise exactly the passing shows. */
  lemma RenderAfterFilter(shows: seq<Show>, query: string, genre: string)
    ensures (forall k :: 0 <= k < |shows| ==> !Passes(shows[k], query, genre))
            ==> Catalog.ShowsToRender(FilterShows(shows, query, genre), shows) == shows
    ensures (exists k :: 0 <= k < |shows| && Passes(shows[k], query, genre))
            ==> Catalog.ShowsToRender(FilterShows(shows, query, genre), shows) == FilterShows(shows, query, genre)
  {
    var r := FilterShows(shows, query, genre);
    if exists k :: 0 <= k < |shows| && Passes(shows[k], query, genre) {
      var k :| 0 <= k < |shows| && Passes(shows[k], query, genre);
      assert shows[k] in r;
    }
  }

  /** An empty query passes every title, because every string contains "". */
  lemma EmptyQueryMatchesEveryTitle(title: string)
    ensures TitleMatches(title, "")
  {
    EmptyIsContained(Lower(title));
  }

  /** With no query and no genre the filter keeps the whole catalog, in order. */
  lemma {:induction false} EmptyFormKeepsCatalog(shows: seq<Show>)
    ensures FilterShows(shows, "", "") == shows
  {
    if |shows| > 0 {
      EmptyQueryMatchesEveryTitle(shows[0].title);
      EmptyFormKeepsCatalog(shows[1..]);
      assert [shows[0]] + shows[1..] == shows;
    }
  }

  /** The genre drop-down offers each genre's code rendered as text; picking
      the option of code `n` keeps exactly the shows that list `n`. */
  lemma GenreOptionSelects(genres: seq<int>, n: nat)
    ensures GenreMatches(genres, NatToString(n)) <==> n in genres
  {
    NatRoundTrip(n);
  }

  // ---- sort keys and orders -----------------------------------------------------

  /** The `sortBy` values the component distinguishes; every other string is `Unsorted`. */
  datatype SortKey = TitleAsc | TitleDesc | DateAsc | DateDesc | Unsorted

  function ParseSortKey(sortBy: string): (k: SortKey)
    ensures k == TitleAsc <==> sortBy == "titleAsc"
    ensures k == TitleDesc <==> sortBy == "titleDesc"
    ensures k == DateAsc <==> sortBy == "dateAsc"
    ensures k == DateDesc <==> sortBy == "dateDesc"
  {
    if sortBy == "titleAsc" then TitleAsc
    else if sortBy == "titleDesc" then TitleDesc
    else if sortBy == "dateAsc" then DateAsc
    else if sortBy == "dateDesc" then DateDesc
    else Unsorted
  }

  /** `a` may stand before `b` under `key`: the comparator of the key is not
      positive. `Unsorted` allows every order. */
  predicate Before(key: SortKey, a: Show, b: Show) {
    match key
    case TitleAsc => LexLe(a.title, b.title)
    case TitleDesc => LexLe(b.title, a.title)
    case DateAsc => a.updated <= b.updated
    case DateDesc => b.updated <= a.updated
    case Unsorted => true
  }

  lemma BeforeTotal(key: SortKey, a: Show, b: Show)
    ensures Before(key, a, b) || Before(key, b, a)
  {
    if key.TitleAsc? || key.TitleDesc? {
      LexLeTotal(a.title, b.title);
    }
  }

  lemma BeforeTransitive(key: SortKey, a: Show, b: Show, c: Show)
    requires Before(key, a, b) && Before(key, b, c)
    ensures Before(key, a, c)
  {
    match key
    case TitleAsc => LexLeTransitive(a.title, b.title, c.title);
    case TitleDesc => LexLeTransitive(c.title, b.title, a.title);
    case _ =>
  }

  /** Every show stands before every later one. */
  predicate Sorted(key: SortKey, s: seq<Show>) {
    forall i, j :: 0 <= i < j < |s| ==> Before(key, s[i], s[j])
  }

  /** In-place sort of `handleSubmit`'s `filtered` array: an insertion sort
      that leaves the array a sorted permutation of itself, and leaves it as
      it was when the key is not one of the four. */
  method SortShows(a: array<Show>, key: SortKey)
    modifies a
    ensures multiset(a[..]) == multiset(old(a[..]))
    ensures Sorted(key, a[..])
    ensures key == Unsorted ==> a[..] == old(a[..])
  {
    if key == Unsorted {
      return;
    }
    var i := 0;
    while i < a.Length
      invariant 0 <= i <= a.Length
      invariant forall x, y :: 0 <= x < y < i ==> Before(key, a[x], a[y])
      invariant multiset(a[..]) == multiset(old(a[..]))
    {
      InsertLast(a, key, i);
      i := i + 1;
    }
    assert Sorted(key, a[..]);
  }

  /** Moves `a[i]` left into the sorted prefix `a[..i]`. */
  method InsertLast(a: array<Show>, key: SortKey, i: nat)
    requires i < a.Length
    requires forall x, y :: 0 <= x < y < i ==> Before(key, a[x], a[y])
    modifies a
    ensures forall x, y :: 0 <= x < y <= i ==> Before(key, a[x], a[y])
    ensures multiset(a[..]) == multiset(old(a[..]))
    ensures a[i + 1..] == old(a[i + 1..])
  {
    var v := a[i];
    var j := i;
    while 0 < j && !Before(key, a[j - 1], a[j])
      invariant 0 <= j <= i
      invariant a[j] == v
      invariant forall x, y :: 0 <= x < y <= i && x != j && y != j ==> Before(key, a[x], a[y])
      invariant forall y :: j < y <= i ==> Before(key, v, a[y])
      invariant multiset(a[..]) == multiset(old(a[..]))
      invariant forall k :: i < k < a.Length ==> a[k] == old(a[k])
    {
      BeforeTotal(key, a[j - 1], a[j]);
      SwapAdjacent(a, j - 1);
      j := j - 1;
    }
    forall x | 0 <= x < j
      ensures Before(key, a[x], v)
    {
      if x < j - 1 {
        BeforeTransitive(key, a[x], a[j - 1], v);
      }
    }
    assert a[i + 1..] == old(a[i + 1..]);
  }

  /** Exchanges `a[p]` and `a[p + 1]`. */
  method SwapAdjacent(a: array<Show>, p: nat)
    requires p + 1 < a.Length
    modifies a
    ensures a[..] == old(a[..])[p := old(a[p + 1])][p + 1 := old(a[p])]
    ensures multiset(a[..]) == multiset(old(a[..]))
  {
    a[p], a[p + 1] := a[p + 1], a[p];
  }

  // ---- sortFavoriteShows --------------------------------------------------------

  /** Stable insertion of `x` into a list: before the first element it may
      stand before. */
  function Insert(key: SortKey, x: Show, s: seq<Show>): (r: seq<Show>)
    ensures multiset(r) == multiset(s) + multiset{x}
  {
    if |s| == 0 then [x]
    else if Before(key, x, s[0]) then [x] + s
    else
      assert s == [s[0]] + s[1..];
      [s[0]] + Insert(key, x, s[1..])
  }

  /** The array `sort` with `key`'s comparator, as a function. */
  function SortBy(key: SortKey, s: seq<Show>): (r: seq<Show>)
    ensures multiset(r) == multiset(s)
  {
    if |s| == 0 then []
    else
      assert s == [s[0]] + s[1..];
      Insert(key, s[0], SortBy(key, s[1..]))
  }

  lemma {:induction false} InsertSorted(key: SortKey, x: Show, s: seq<Show>)
    requires Sorted(key, s)
    ensures Sorted(key, Insert(key, x, s))
  {
    if |s| > 0 && !Before(key, x, s[0]) {
      var t := Insert(key, x, s[1..]);
      assert Insert(key, x, s) == [s[0]] + t;
      InsertSorted(key, x, s[1..]);
      BeforeTotal(key, x, s[0]);
      InsertKeepsLowerBound(key, s[0], x, s[1..]);
      SortedCons(key, s[0], t);
    } else if |s| > 0 {
      forall k | 0 <= k < |s|
        ensures Before(key, x, s[k])
      {
        if k > 0 {
          BeforeTransitive(key, x, s[0], s[k]);
        }
      }
      SortedCons(key, x, s);
    }
  }

  /** A show ordered before `x` and before every element of `s` stays
      ordered before every element once `x` is inserted. */
  lemma InsertKeepsLowerBound(key: SortKey, y: Show, x: Show, s: seq<Show>)
    requires Before(key, y, x)
    requires forall k :: 0 <= k < |s| ==> Before(key, y, s[k])
    ensures forall k :: 0 <= k < |Insert(key, x, s)| ==> Before(key, y, Insert(key, x, s)[k])
  {
    var r := Insert(key, x, s);
    forall k | 0 <= k < |r|
      ensures Before(key, y, r[k])
    {
      assert r[k] in multiset(r);
      if r[k] != x {
        assert r[k] in multiset(s);
        var i :| 0 <= i < |s| && s[i] == r[k];
      }
    }
  }

  /** A sorted sequence stays sorted with a first element ordered before
      all of it. */
  lemma SortedCons(key: SortKey, y: Show, t: seq<Show>)
    requires Sorted(key, t)
    requires forall k :: 0 <= k < |t| ==> Before(key, y, t[k])
    ensures Sorted(key, [y] + t)
  {
    var r := [y] + t;
    forall i, j | 0 <= i < j < |r|
      ensures Before(key, r[i], r[j])
    {
      assert r[j] == t[j - 1];
      if i > 0 {
        assert r[i] == t[i - 1];
      }
    }
  }

  lemma {:induction false} SortBySorted(key: SortKey, s: seq<Show>)
    ensures Sorted(key, SortBy(key, s))
  {
    if |s| > 0 {
      SortBySorted(key, s[1..]);
      InsertSorted(key, s[0], SortBy(key, s[1..]));
    }
  }

  /** The shows of `s` that tie with `t` under `key` (each may stand before
      the other), in their order in `s`. */
  function TiedWith(key: SortKey, t: Show, s: seq<Show>): (r: seq<Show>)
    ensures forall x :: x in r <==> x in s && Before(key, x, t) && Before(key, t, x)
  {
    if |s| == 0 then []
    else if Before(key, s[0], t) && Before(key, t, s[0]) then [s[0]] + TiedWith(key, t, s[1..])
    else TiedWith(key, t, s[1..])
  }

  /** Insertion puts `x` before every show it ties with, and leaves the
      other tie classes in their order. */
  lemma {:induction false} InsertTies(key: SortKey, x: Show, s: seq<Show>, t: Show)
    ensures TiedWith(key, t, Insert(key, x, s))
            == if Before(key, x, t) && Before(key, t, x) then [x] + TiedWith(key, t, s) else TiedWith(key, t, s)
  {
    if |s| > 0 && !Before(key, x, s[0]) {
      InsertTies(key, x, s[1..], t);
      assert Insert(key, x, s)[1..] == Insert(key, x, s[1..]);
      if Before(key, x, t) && Before(key, t, x) && Before(key, t, s[0]) {
        BeforeTransitive(key, x, t, s[0]);
      }
    } else if |s| > 0 {
      assert ([x] + s)[1..] == s;
    }
  }

  /** The sort is stable: the shows that tie with any show `t` come out in
      the order they went in. */
  lemma {:induction false} SortByStable(key: SortKey, s: seq<Show>, t: Show)
    ensures TiedWith(key, t, SortBy(key, s)) == TiedWith(key, t, s)
  {
    if |s| > 0 {
      SortByStable(key, s[1..], t);
      InsertTies(key, s[0], SortBy(key, s[1..]), t);
    }
  }

  /** Every favorite id names a show of the catalog. */
  predicate AllResolve(favorites: seq<int>, shows: seq<Show>) {
    forall k :: 0 <= k < |favorites| ==> Catalog.FindShow(shows, favorites[k]).Some?
  }

  /** `favorites.map(id => shows.find(...))`, one show per id. */
  function Resolve(favorites: seq<int>, shows: seq<Show>): (r: seq<Show>)
    requires AllResolve(favorites, shows)
    ensures |r| == |favorites|
    ensures forall k :: 0 <= k < |favorites| ==> r[k].id == favorites[k] && r[k] in shows
    ensures forall k :: 0 <= k < |favorites| ==> r[k] == Catalog.FindShow(shows, favorites[k]).value
  {
    if |favorites| == 0 then []
    else [Catalog.FindShow(shows, favorites[0]).value] + Resolve(favorites[1..], shows)
  }

  /** The order the favorites list uses for `sortBy`: any string that is not
      one of the four keys sorts by ascending title. */
  function FavoritesKey(sortBy: string): (k: SortKey)
    ensures k != Unsorted
    ensures ParseSortKey(sortBy) == Unsorted ==> k == TitleAsc
    ensures ParseSortKey(sortBy) != Unsorted ==> k == ParseSortKey(sortBy)
  {
    match ParseSortKey(sortBy)
    case Unsorted => TitleAsc
    case k => k
  }

  /** `sortFavoriteShows(favorites, shows, sortBy)`: the shows the ids name,
      one per id, reordered by the chosen key. */
  function SortFavoriteShows(favorites: seq<int>, shows: seq<Show>, sortBy: string): (r: seq<Show>)
    requires AllResolve(favorites, shows)
    ensures |r| == |favorites|
    ensures multiset(r) == multiset(Resolve(favorites, shows))
    ensures Sorted(FavoritesKey(sortBy), r)
  {
    var r := SortBy(FavoritesKey(sortBy), Resolve(favorites, shows));
    SortBySorted(FavoritesKey(sortBy), Resolve(favorites, shows));
    assert |r| == |multiset(r)|;
    r
  }

  /** The favorites list keeps the order of shows that tie under the key:
      they appear as their ids appear in the favorites list. */
  lemma SortFavoriteShowsStable(favorites: seq<int>, shows: seq<Show>, sortBy: string, t: Show)
    requires AllResolve(favorites, shows)
    ensures TiedWith(FavoritesKey(sortBy), t, SortFavoriteShows(favorites, shows, sortBy))
            == TiedWith(FavoritesKey(sortBy), t, Resolve(favorites, shows))
  {
    SortByStable(FavoritesKey(sortBy), Resolve(favorites, shows), t);
  }

  /** An unknown sort option gives the ascending-title list. */
  lemma UnknownKeySortsByTitle(favorites: seq<int>, shows: seq<Show>, sortBy: string)
    requires AllResolve(favorites, shows)
    requires ParseSortKey(sortBy) == Unsorted
    ensures SortFavoriteShows(favorites, shows, sortBy) == SortFavoriteShows(favorites, shows, "titleAsc")
  {
  }

  // ---- titleDesc against titleAsc -----------------------------------------------

  /** The list read from its last element to its first. */
  function Reversed(s: seq<Show>): (r: seq<Show>)
    ensures |r| == |s|
    ensures forall k :: 0 <= k < |s| ==> r[k] == s[|s| - 1 - k]
    ensures multiset(r) == multiset(s)
  {
    if |s| == 0 then []
    else
      assert s == [s[0]] + s[1..];
      Reversed(s[1..]) + [s[0]]
  }

  /** No two different shows of the list share a title. */
  predicate DistinctTitles(s: seq<Show>) {
    forall i, j :: 0 <= i < |s| && 0 <= j < |s| && s[i].title == s[j].title ==> s[i] == s[j]
  }

  /** Two sorted arrangements of the same shows are one list when the order
      never lets a later show of the first stand before an earlier one unless
      the two are equal. */
  lemma {:induction false} SortedUnique(key: SortKey, p: seq<Show>, q: seq<Show>)
    requires multiset(p) == multiset(q)
    requires Sorted(key, p) && Sorted(key, q)
    requires forall i, j :: 0 <= i < j < |p| && Before(key, p[j], p[i]) ==> p[i] == p[j]
    ensures p == q
  {
    assert |q| == |multiset(q)| == |p|;
    if |p| > 0 {
      SortedSameHead(key, p, q);
      var p', q' := p[1..], q[1..];
      SameTails(p, q);
      assert p == [p[0]] + p' && q == [q[0]] + q';
      forall i, j | 0 <= i < j < |p'| && Before(key, p'[j], p'[i])
        ensures p'[i] == p'[j]
      {
        assert p'[i] == p[i + 1] && p'[j] == p[j + 1];
      }
      SortedUnique(key, p', q');
    }
  }

  lemma SameTails(p: seq<Show>, q: seq<Show>)
    requires 0 < |p| && 0 < |q| && p[0] == q[0] && multiset(p) == multiset(q)
    ensures multiset(p[1..]) == multiset(q[1..])
  {
    assert p == [p[0]] + p[1..] && q == [q[0]] + q[1..];
    assert multiset(p[1..]) == multiset(p) - multiset{p[0]};
    assert multiset(q[1..]) == multiset(q) - multiset{q[0]};
  }

  lemma SortedSameHead(key: SortKey, p: seq<Show>, q: seq<Show>)
    requires 0 < |p| && multiset(p) == multiset(q)
    requires Sorted(key, p) && Sorted(key, q)
    requires forall i, j :: 0 <= i < j < |p| && Before(key, p[j], p[i]) ==> p[i] == p[j]
    ensures 0 < |q| && p[0] == q[0]
  {
    assert p[0] in multiset(q) && q[0] in multiset(p);
    var k :| 0 <= k < |q| && q[k] == p[0];
    var m :| 0 <= m < |p| && p[m] == q[0];
    if k > 0 && m > 0 {
      assert Before(key, q[0], q[k]);
    }
  }

  /** When no two favorites share a title, the `titleDesc` list is the
      `titleAsc` list read backwards. */
  lemma TitleDescReversesTitleAsc(favorites: seq<int>, shows: seq<Show>)
    requires AllResolve(favorites, shows)
    requires DistinctTitles(Resolve(favorites, shows))
    ensures SortFavoriteShows(favorites, shows, "titleDesc") == Reversed(SortFavoriteShows(favorites, shows, "titleAsc"))
  {
    var rs := Resolve(favorites, shows);
    var asc := SortFavoriteShows(favorites, shows, "titleAsc");
    var desc := SortFavoriteShows(favorites, shows, "titleDesc");
    var back := Reversed(asc);
    assert Sorted(TitleDesc, back) by {
      forall i, j | 0 <= i < j < |back|
        ensures Before(TitleDesc, back[i], back[j])
      {
        assert Before(TitleAsc, asc[|asc| - 1 - j], asc[|asc| - 1 - i]);
      }
    }
    forall i, j | 0 <= i < j < |desc| && Before(TitleDesc, desc[j], desc[i])
      ensures desc[i] == desc[j]
    {
      LexLeAntisymmetric(desc[i].title, desc[j].title);
      assert desc[i] in multiset(rs) && desc[j] in multiset(rs);
      var i' :| 0 <= i' < |rs| && rs[i'] == desc[i];
      var j' :| 0 <= j' < |rs| && rs[j'] == desc[j];
    }
    SortedUnique(TitleDesc, desc, back);
  }

  /** Two favorites with the same title keep their list order under both
      title keys, because the sort is stable: `titleDesc` is then not the
      reverse of `titleAsc`. */
  lemma TiedTitlesKeepOrderBothWays(x: Show, y: Show)
    requires x.id != y.id && x.title == y.title
    ensures SortFavoriteShows([x.id, y.id], [x, y], "titleAsc") == [x, y]
    ensures SortFavoriteShows([x.id, y.id], [x, y], "titleDesc") == [x, y]
    ensures Reversed([x, y]) != [x, y]
  {
    LexLeReflexive(x.title);
    ResolvePair(x, y);
    SortPairInOrder(TitleAsc, x, y);
    SortPairInOrder(TitleDesc, x, y);
    assert Reversed([x, y])[0] == y;
  }

  lemma ResolvePair(x: Show, y: Show)
    requires x.id != y.id
    ensures AllResolve([x.id, y.id], [x, y])
    ensures Resolve([x.id, y.id], [x, y]) == [x, y]
  {
    assert Catalog.FindShow([x, y], x.id) == Some(x);
    assert Catalog.FindShow([x, y], y.id) == Some(y);
    assert [x.id, y.id][1..] == [y.id];
  }

  lemma SortPairInOrder(key: SortKey, x: Show, y: Show)
    requires Before(key, x, y)
    ensures SortBy(key, [x, y]) == [x, y]
  {
    assert [x, y][1..] == [y];
    assert SortBy(key, [y]) == [y];
  }
}
