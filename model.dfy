/** The records the component keeps in its state and in the browser's local
    storage. */
module Model {

  /** A show of the remote catalog. `updated` is the ISO date of the last
      update, read here as the integer timestamp `new Date(updated)` yields;
      `showFullDescription` is the transient "show more" flag, `false` where
      the catalog omits it. */
  datatype Show = Show(
    id: int,
    title: string,
    description: string,
    image: string,
    genres: seq<int>,
    seasons: int,
    updated: int,
    showFullDescription: bool)

  /** One episode as the detail service returns it; `season` is overwritten
      when the seasons are flattened. */
  datatype Episode = Episode(
    season: int,
    episode: int,
    title: string,
    description: string,
    file: string)

  /** One entry of the detail response's `seasons` array. */
  datatype Season = Season(episodes: seq<Episode>)

  /** The answer of `GET /id/{id}`: the parsed seasons, or the HTTP status of a
      response that was not ok. */
  datatype DetailResponse = Detail(seasons: seq<Season>) | HttpError(status: int)

  /** One row of the static genre table. */
  datatype Genre = Genre(code: int, name: string)

  /** What the component writes to local storage: the catalog, the favorite
      ids, the favorite timestamps, and the playback values it treats as
      opaque. */
  datatype StoredValue =
    | Shows(shows: seq<Show>)
    | Ids(ids: seq<int>)
    | Times(times: map<int, string>)
    | Raw(text: string)

  /** The browser's local storage, key by key. */
  type Store = map<string, StoredValue>

  const ShowsKey: string := "shows"
  const FavoritesKey: string := "favoriteShows"
  const FavoriteTimesKey: string := "favoriteShowsTime"
}
