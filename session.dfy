/** The state of the `MainContent` component and the handlers that change it.
    Every `useState` variable the core reads or writes is a field; local
    storage is the field `store`; each handler changes only the fields its
    `modifies` clause names. */
module Session {
  import opened Wrappers
  import opened Model
  import Catalog
  import FilterSort
  import Favorites
  import Progress
  import ShareLink

  /** `getFromLocalStorage("shows") || []`. */
  function StoredShows(store: Store): seq<Show> {
    if ShowsKey in store && store[ShowsKey].Shows? then store[ShowsKey].shows else []
  }

  /** `getFromLocalStorage("favoriteShows") || []`. */
  function StoredIds(store: Store): seq<int> {
    if FavoritesKey in store && store[FavoritesKey].Ids? then store[FavoritesKey].ids else []
  }

  /** `getFromLocalStorage("favoriteShowsTime") || {}`. */
  function StoredTimes(store: Store): map<int, string> {
    if FavoriteTimesKey in store && store[FavoriteTimesKey].Times? then store[FavoriteTimesKey].times else map[]
  }

  /** Writing the favorites list and then the timestamp map leaves both
      readable: the two keys differ. */
  lemma StoredAfterFavoriteWrite(store: Store, ids: seq<int>, times: map<int, string>)
    ensures var s := store[FavoritesKey := Ids(ids)][FavoriteTimesKey := Times(times)];
            StoredIds(s) == ids && StoredTimes(s) == times
  {
    assert |FavoritesKey| != |FavoriteTimesKey|;
  }

  class MainContent {
    var shows: seq<Show>
    var filtered: seq<Show>
    var searchValue: string
    var selectedGenre: string
    var favorites: seq<int>
    var favoriteTimes: map<int, string>
    var episodes: seq<Episode>
    var seasonLabels: seq<string>
    var dialogOpen: bool
    /** `showEpisodesDescription`: the index of the open description, `None` for `false`. */
    var openDescription: Option<nat>
    var publicUrl: string
    var publicUrlOpen: bool
    /** The browser's local storage. */
    var store: Store

    /** The component's first render: catalog and favorites come from storage,
        everything else starts empty. */
    constructor (initial: Store)
      ensures store == initial
      ensures shows == StoredShows(initial)
      ensures favorites == StoredIds(initial) && favoriteTimes == StoredTimes(initial)
      ensures filtered == [] && searchValue == "" && selectedGenre == ""
      ensures episodes == [] && seasonLabels == [] && !dialogOpen && openDescription == None
      ensures publicUrl == "" && !publicUrlOpen
    {
      store := initial;
      shows := StoredShows(initial);
      favorites := StoredIds(initial);
      favoriteTimes := StoredTimes(initial);
      filtered, searchValue, selectedGenre := [], "", "";
      episodes, seasonLabels, dialogOpen, openDescription := [], [], false, None;
      publicUrl, publicUrlOpen := "", false;
    }

    /** The catalog request succeeded: the catalog becomes the response. It is
        not written to storage. */
    method ReceiveCatalog(data: seq<Show>)
      modifies this`shows
      ensures shows == data
    {
      shows := data;
    }

    /** `toggleShowMore(id)`: flip the flag of the show in the catalog and in
        the filtered list, and store the new catalog. */
    method ToggleShowMore(id: int)
      modifies this`shows, this`filtered, this`store
      ensures shows == Catalog.ToggleShowMore(old(shows), id)
      ensures filtered == Catalog.ToggleShowMore(old(filtered), id)
      ensures store == old(store)[ShowsKey := Shows(shows)]
      ensures StoredShows(store) == shows
    {
      shows := Catalog.ToggleShowMore(shows, id);
      filtered := Catalog.ToggleShowMore(filtered, id);
      store := store[ShowsKey := Shows(shows)];
    }

    /** `handleShowClick` once the detail request has answered: a successful
        answer replaces the episodes and season labels and opens the dialog;
        an error status changes nothing. */
    method ShowClick(response: DetailResponse)
      modifies this`episodes, this`seasonLabels, this`dialogOpen
      ensures response.Detail? ==> episodes == Catalog.Flattened(response.seasons)
                                   && seasonLabels == Catalog.SeasonLabels(|response.seasons|)
                                   && dialogOpen
      ensures response.HttpError? ==> episodes == old(episodes) && seasonLabels == old(seasonLabels)
                                      && dialogOpen == old(dialogOpen)
    {
      match response
      case Detail(seasons) =>
        episodes, seasonLabels := Catalog.FlattenSeasons(seasons);
        dialogOpen := true;
      case HttpError(_) =>
    }

    /** `handleInputChange`: the search box replaces the filtered list with
        the fuzzy matcher's answer for `value` (computed outside this model and
        passed in) and records the query; the genre box records the genre. */
    method InputChange(name: string, value: string, fuzzyMatches: seq<Show>)
      modifies this`filtered, this`searchValue, this`selectedGenre
      ensures name == "search" ==> filtered == fuzzyMatches && searchValue == value
                                   && selectedGenre == old(selectedGenre)
      ensures name != "search" ==> filtered == old(filtered) && searchValue == old(searchValue)
      ensures name != "search" ==> selectedGenre == if name == "genre" then value else old(selectedGenre)
    {
      if name == "search" {
        filtered, searchValue := fuzzyMatches, value;
      } else if name == "genre" {
        selectedGenre := value;
      }
    }

    /** `handleSubmit(sortBy)`: the catalog's shows that pass the query and the
        genre, sorted in place by the key; an unknown key keeps catalog order. */
    method Submit(sortBy: string)
      modifies this`filtered
      ensures var passing := FilterSort.FilterShows(shows, searchValue, selectedGenre);
              && multiset(filtered) == multiset(passing)
              && FilterSort.Sorted(FilterSort.ParseSortKey(sortBy), filtered)
              && (FilterSort.ParseSortKey(sortBy) == FilterSort.Unsorted ==> filtered == passing)
      ensures forall s :: s in filtered <==> s in shows && FilterSort.Passes(s, searchValue, selectedGenre)
    {
      var passing := FilterSort.FilterShows(shows, searchValue, selectedGenre);
      var a := new Show[|passing|](i requires 0 <= i < |passing| => passing[i]);
      assert a[..] == passing;
      FilterSort.SortShows(a, FilterSort.ParseSortKey(sortBy));
      filtered := a[..];
      assert forall s :: s in filtered <==> s in multiset(passing);
    }

    /** `handleToggleFavorite(id)` with `now` the formatted clock time. The
        list and the map change as the toggle says; storage receives the new
        list beside the map as it was BEFORE the toggle; the titles returned
        for the remote mirror are those of the list as it was before the
        toggle. */
    method ToggleFavorite(id: int, now: string) returns (syncTitles: seq<string>)
      modifies this`favorites, this`favoriteTimes, this`store
      ensures favorites == Favorites.ToggleIds(old(favorites), id)
      ensures favoriteTimes == Favorites.ToggleTimes(old(favoriteTimes), old(favorites), id, now)
      ensures store == old(store)[FavoritesKey := Ids(favorites)][FavoriteTimesKey := Times(old(favoriteTimes))]
      ensures StoredIds(store) == favorites && StoredTimes(store) == old(favoriteTimes)
      ensures syncTitles == Catalog.Titles(old(favorites), shows)
      ensures Favorites.TimesMatch(old(favorites), old(favoriteTimes))
              ==> Favorites.TimesMatch(favorites, favoriteTimes)
    {
      var previous, previousTimes := favorites, favoriteTimes;
      if id in previous {
        favorites := Favorites.RemoveId(previous, id);
        favoriteTimes := previousTimes - {id};
      } else {
        favorites := previous + [id];
        favoriteTimes := previousTimes[id := now];
      }
      store := store[FavoritesKey := Ids(favorites)];
      store := store[FavoriteTimesKey := Times(previousTimes)];
      syncTitles := Catalog.Titles(previous, shows);
      StoredAfterFavoriteWrite(old(store), favorites, previousTimes);
      if Favorites.TimesMatch(previous, previousTimes) {
        Favorites.ToggleKeepsTimesMatch(previous, previousTimes, id, now);
      }
    }

    /** The pause / unload listener of an episode player: its time and
        percentage under the player's two keys. */
    method SaveAudioProgress(player: string, time: StoredValue, percentage: StoredValue)
      modifies this`store
      ensures store == Progress.SaveProgress(old(store), player, time, percentage)
      ensures Progress.SavedPosition(store, player) == Some(time)
    {
      store := store[Progress.CurrentTimePrefix + player := time];
      store := store[Progress.PercentagePrefix + player := percentage];
      Progress.ResumeAfterSave(old(store), player, time, percentage);
    }

    /** `resetProgress`: one pass over the stored keys deleting those of the
        three progress namespaces, then the two literal keys. */
    method ResetProgress()
      modifies this`store
      ensures store == Progress.Purged(old(store))
    {
      var keys := store.Keys;
      while keys != {}
        invariant keys <= old(store).Keys
        invariant forall k :: k in store <==> k in old(store) && (k in keys || !Progress.IsProgressKey(k))
        invariant forall k :: k in store ==> store[k] == old(store)[k]
        decreases keys
      {
        var key :| key in keys;
        if Progress.IsProgressKey(key) {
          store := store - {key};
        }
        keys := keys - {key};
      }
      store := store - {Progress.CurrentTimePrefix};
      store := store - {Progress.BarePercentageKey};
      assert store.Keys == Progress.Purged(old(store)).Keys;
    }

    /** `handleGeneratePublicURL` on the page at `href`. */
    method GeneratePublicUrl(href: string)
      modifies this`publicUrl, this`publicUrlOpen
      ensures publicUrl == ShareLink.PublicUrl(favorites, shows, href)
      ensures publicUrlOpen
    {
      publicUrl := ShareLink.PublicUrl(favorites, shows, href);
      publicUrlOpen := true;
    }

    /** `toggleDescription(index)` on an episode of the dialog. */
    method ToggleDescription(index: nat)
      modifies this`openDescription
      ensures openDescription == Catalog.NextOpenDescription(old(openDescription), index)
    {
      openDescription := if openDescription == Some(index) then None else Some(index);
    }
  }
}
