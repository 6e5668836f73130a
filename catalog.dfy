/** Operations on the show catalog and on a show's episodes: the "show more"
    toggle, lookup by id, the genre label, the flattening of a show's seasons
    into one episode list, the episode-description toggle and the choice of
    the list to render. */
module Catalog {
  import opened Wrappers
  import opened Text
  import opened Model

  // ---- toggleShowMore ---------------------------------------------------------

  /** `{ ...show, showFullDescription: !show.showFullDescription }` on the matching show. */
  function FlipIfMatch(s: Show, id: int): Show {
    if s.id == id then s.(showFullDescription := !s.showFullDescription) else s
  }

  /** The `map` that `toggleShowMore(id)` applies to the catalog and to the
      filtered list: every show keeps its place and every field but the flag,
      and the flag changes exactly on the shows whose id is `id`. */
  function ToggleShowMore(shows: seq<Show>, id: int): (r: seq<Show>)
    ensures |r| == |shows|
    ensures forall k :: 0 <= k < |shows| ==>
              r[k].(showFullDescription := shows[k].showFullDescription) == shows[k]
    ensures forall k :: 0 <= k < |shows| ==>
              (r[k].showFullDescription != shows[k].showFullDescription <==> shows[k].id == id)
  {
    if |shows| == 0 then [] else [FlipIfMatch(shows[0], id)] + ToggleShowMore(shows[1..], id)
  }

  /** Pressing "show more" twice on the same show restores the list. */
  lemma ToggleShowMoreTwice(shows: seq<Show>, id: int)
    ensures ToggleShowMore(ToggleShowMore(shows, id), id) == shows
  {
    var once := ToggleShowMore(shows, id);
    var twice := ToggleShowMore(once, id);
    forall k | 0 <= k < |shows|
      ensures twice[k] == shows[k]
    {
      assert once[k].id == shows[k].id;
    }
  }

  // ---- lookup by id -----------------------------------------------------------

  /** `shows.find((show) => show.id === id)`: the first show with that id. */
  function FindShow(shows: seq<Show>, id: int): (r: Option<Show>)
    ensures r.None? <==> forall k :: 0 <= k < |shows| ==> shows[k].id != id
    ensures r.Some? ==> exists k :: 0 <= k < |shows| && shows[k] == r.value && r.value.id == id
                          && forall j :: 0 <= j < k ==> shows[j].id != id
  {
    if |shows| == 0 then None
    else if shows[0].id == id then Some(shows[0])
    else
      var r := FindShow(shows[1..], id);
      assert r.Some? ==> exists k :: 0 <= k < |shows| && shows[k] == r.value && r.value.id == id
                          && forall j :: 0 <= j < k ==> shows[j].id != id
      by {
        if r.Some? {
          var k :| 0 <= k < |shows| - 1 && shows[1..][k] == r.value && r.value.id == id
                   && forall j :: 0 <= j < k ==> shows[1..][j].id != id;
          assert shows[k + 1] == r.value;
        }
      }
      r
  }

  /** `show ? show.title : ""` after a `find`: the title of the first show with
      that id, or the empty string when there is none. */
  function TitleOf(shows: seq<Show>, id: int): string {
    match FindShow(shows, id)
    case Some(s) => s.title
    case None => ""
  }

  /** `ids.map(id => TitleOf(shows, id))`. */
  function Titles(ids: seq<int>, shows: seq<Show>): (r: seq<string>)
    ensures |r| == |ids|
    ensures forall k :: 0 <= k < |ids| ==> r[k] == TitleOf(shows, ids[k])
  {
    if |ids| == 0 then [] else [TitleOf(shows, ids[0])] + Titles(ids[1..], shows)
  }

  // ---- getGenreName -----------------------------------------------------------

  const UnknownGenre: string := "Unknown Genre"

  /** The name the genre table gives `code`: that of the first row with the
      code, or "Unknown Genre" when no row has it. */
  function GenreNameOf(table: seq<Genre>, code: int): (r: string)
    ensures (forall k :: 0 <= k < |table| ==> table[k].code != code) ==> r == UnknownGenre
    ensures forall k ::
              (0 <= k < |table| && table[k].code == code && forall j :: 0 <= j < k ==> table[j].code != code)
              ==> r == table[k].name
  {
    if |table| == 0 then UnknownGenre
    else if table[0].code == code then table[0].name
    else
      var r := GenreNameOf(table[1..], code);
      assert forall k :: 1 <= k < |table| ==> table[k] == table[1..][k - 1];
      r
  }

  function GenreNames(codes: seq<int>, table: seq<Genre>): (r: seq<string>)
    ensures |r| == |codes|
    ensures forall k :: 0 <= k < |codes| ==> r[k] == GenreNameOf(table, codes[k])
  {
    if |codes| == 0 then []
    else
      var rest := GenreNames(codes[1..], table);
      assert forall k :: 1 <= k < |codes| ==> codes[k] == codes[1..][k - 1];
      [GenreNameOf(table, codes[0])] + rest
  }

  /** `getGenreName(codes)`: one name per code, in code order, joined with ", ". */
  function GenreLabel(codes: seq<int>, table: seq<Genre>): (r: string)
    ensures |codes| == 0 ==> r == ""
    ensures |codes| == 1 ==> r == GenreNameOf(table, codes[0])
    ensures |codes| > 0 ==> IsPrefix(GenreNameOf(table, codes[0]), r)
  {
    Join(GenreNames(codes, table), ", ")
  }

  /** A label lists every code's name: the names of `codes[..k]` and those of
      `codes[k..]` are the two halves, joined by ", ". */
  lemma {:induction false} GenreLabelSplits(codes: seq<int>, table: seq<Genre>, k: nat)
    requires 0 < k < |codes|
    ensures GenreLabel(codes, table) == GenreLabel(codes[..k], table) + ", " + GenreLabel(codes[k..], table)
  {
    var names := GenreNames(codes, table);
    assert GenreNames(codes[..k], table) == names[..k];
    assert GenreNames(codes[k..], table) == names[k..];
    JoinSplits(names, ", ", k);
  }

  lemma {:induction false} JoinSplits(xs: seq<string>, sep: string, k: nat)
    requires 0 < k < |xs|
    ensures Join(xs, sep) == Join(xs[..k], sep) + sep + Join(xs[k..], sep)
  {
    if k > 1 {
      JoinSplits(xs[1..], sep, k - 1);
      assert xs[1..][..k - 1] == xs[..k][1..];
      assert xs[1..][k - 1..] == xs[k..];
    } else {
      assert xs[1..] == xs[k..];
    }
  }

  // ---- handleShowClick: flattening the seasons ---------------------------------

  /** `{ ...episode, season: n }` for every episode of one season. */
  function Tagged(eps: seq<Episode>, n: int): (r: seq<Episode>)
    ensures |r| == |eps|
    ensures forall k :: 0 <= k < |eps| ==> r[k] == eps[k].(season := n)
  {
    if |eps| == 0 then [] else [eps[0].(season := n)] + Tagged(eps[1..], n)
  }

  /** The episodes of all seasons, season after season, each tagged with the
      1-based position of its season. */
  function Flattened(seasons: seq<Season>): seq<Episode> {
    if |seasons| == 0 then []
    else Flattened(seasons[..|seasons| - 1]) + Tagged(seasons[|seasons| - 1].episodes, |seasons|)
  }

  /** The total number of episodes over all seasons. */
  function EpisodeCount(seasons: seq<Season>): nat {
    if |seasons| == 0 then 0 else |seasons[0].episodes| + EpisodeCount(seasons[1..])
  }

  /** The label `Season ${n}`. */
  function SeasonLabel(n: nat): string {
    "Season " + NatToString(n)
  }

  /** The labels of the first `n` seasons, in order. */
  function SeasonLabels(n: nat): seq<string> {
    if n == 0 then [] else SeasonLabels(n - 1) + [SeasonLabel(n)]
  }

  lemma {:induction false} EpisodeCountAppend(seasons: seq<Season>, s: Season)
    ensures EpisodeCount(seasons + [s]) == EpisodeCount(seasons) + |s.episodes|
  {
    if |seasons| > 0 {
      EpisodeCountAppend(seasons[1..], s);
      assert (seasons + [s])[1..] == seasons[1..] + [s];
    }
  }

  /** Flattening keeps every episode: as many as all seasons hold together. */
  lemma {:induction false} FlattenedLength(seasons: seq<Season>)
    ensures |Flattened(seasons)| == EpisodeCount(seasons)
  {
    if |seasons| > 0 {
      var init := seasons[..|seasons| - 1];
      FlattenedLength(init);
      EpisodeCountAppend(init, seasons[|seasons| - 1]);
      assert init + [seasons[|seasons| - 1]] == seasons;
    }
  }

  /** Episode `e` of season `i` sits after the episodes of the seasons before
      it, with its `season` set to `i + 1` and every other field kept. */
  lemma {:induction false} FlattenedAt(seasons: seq<Season>, i: nat, e: nat)
    requires i < |seasons| && e < |seasons[i].episodes|
    ensures EpisodeCount(seasons[..i]) + e < |Flattened(seasons)|
    ensures Flattened(seasons)[EpisodeCount(seasons[..i]) + e] == seasons[i].episodes[e].(season := i + 1)
  {
    var n := |seasons|;
    var init := seasons[..n - 1];
    FlattenedLength(init);
    FlattenedLength(seasons);
    if i == n - 1 {
      assert seasons[..i] == init;
    } else {
      FlattenedAt(init, i, e);
      assert init[..i] == seasons[..i];
    }
  }

  /** One label per season, `Season 1` to `Season n` in order. */
  lemma {:induction false} SeasonLabelsAt(n: nat)
    ensures |SeasonLabels(n)| == n
    ensures forall k :: 0 <= k < n ==> SeasonLabels(n)[k] == SeasonLabel(k + 1)
  {
    if n > 0 {
      SeasonLabelsAt(n - 1);
    }
  }

  /** The nested `forEach` of `handleShowClick` over a successful response:
      one label per season and every episode tagged with its season number. */
  method FlattenSeasons(seasons: seq<Season>) returns (allEpisodes: seq<Episode>, allSeasons: seq<string>)
    ensures allEpisodes == Flattened(seasons)
    ensures allSeasons == SeasonLabels(|seasons|)
    ensures |allEpisodes| == EpisodeCount(seasons) && |allSeasons| == |seasons|
  {
    allEpisodes, allSeasons := [], [];
    var i := 0;
    while i < |seasons|
      invariant 0 <= i <= |seasons|
      invariant allEpisodes == Flattened(seasons[..i])
      invariant allSeasons == SeasonLabels(i)
    {
      var seasonNumber := i + 1;
      allSeasons := allSeasons + [SeasonLabel(seasonNumber)];
      var eps := seasons[i].episodes;
      var j := 0;
      while j < |eps|
        invariant 0 <= j <= |eps|
        invariant allEpisodes == Flattened(seasons[..i]) + Tagged(eps[..j], seasonNumber)
      {
        TaggedStep(eps, j, seasonNumber);
        allEpisodes := allEpisodes + [eps[j].(season := seasonNumber)];
        j := j + 1;
      }
      assert eps[..j] == eps;
      FlattenedStep(seasons, i);
      i := i + 1;
    }
    assert seasons[..i] == seasons;
    FlattenedLength(seasons);
    SeasonLabelsAt(|seasons|);
  }

  /** Tagging one more episode of a season appends it, tagged. */
  lemma TaggedStep(eps: seq<Episode>, j: nat, n: int)
    requires j < |eps|
    ensures Tagged(eps[..j + 1], n) == Tagged(eps[..j], n) + [eps[j].(season := n)]
  {
    var a, b := Tagged(eps[..j + 1], n), Tagged(eps[..j], n) + [eps[j].(season := n)];
    assert |a| == |b|;
    forall k | 0 <= k < |a|
      ensures a[k] == b[k]
    {
      assert eps[..j + 1][k] == eps[k];
    }
  }

  /** Flattening one more season appends its episodes, tagged with its number. */
  lemma FlattenedStep(seasons: seq<Season>, i: nat)
    requires i < |seasons|
    ensures Flattened(seasons[..i + 1]) == Flattened(seasons[..i]) + Tagged(seasons[i].episodes, i + 1)
  {
    assert seasons[..i + 1][..i] == seasons[..i];
  }

  // ---- toggleDescription ------------------------------------------------------

  /** `showEpisodesDescription === index ? false : index`, with `false` as
      `None`: the description of episode `index` opens unless it was the open
      one, which closes; at most one description is open. */
  function NextOpenDescription(open: Option<nat>, index: nat): (r: Option<nat>)
    ensures r.Some? ==> r.value == index
    ensures r.Some? <==> open != Some(index)
  {
    if open == Some(index) then None else Some(index)
  }

  // ---- showsToRender ----------------------------------------------------------

  /** The list the page renders: the filtered list when it has a show, the
      whole catalog otherwise. */
  function ShowsToRender(filtered: seq<Show>, shows: seq<Show>): (r: seq<Show>)
    ensures |filtered| > 0 ==> r == filtered
    ensures |filtered| == 0 ==> r == shows
  {
    if |filtered| > 0 then filtered else shows
  }
}
