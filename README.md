# The podcast browser's catalog and favorites engine, in Dafny

This project models the state engine inside the `MainContent` component of the
podcast browser (`my-podcast/src/MainContents.jsx`). The component lets a user
browse a catalog of shows, filter and sort it, mark favorites with a timestamp,
resume episodes, and share a link to their favorites. The model covers the
data operations behind those features:

- the "show more" description toggle;
- the flattening of a show's seasons into one episode list with `Season N` labels;
- the genre label;
- the search form's filter and its four sort orders;
- the favorites toggle, with its timestamps, storage writes and remote-sync payload;
- the favorites list's sort;
- playback-progress saving, resuming and resetting;
- the shareable favorites link;
- the choice between the filtered list and the catalog;
- the episode-description toggle.

Modules:

- `Wrappers`: the `Option` type.
- `Text`: the browser string operations the code uses.
  - `toLowerCase` on ASCII letters.
  - `includes`, `charAt(0)`, `join` and `split` on one character.
  - Decimal rendering and `Number` on digit strings.
  - `localeCompare`, modelled as lexicographic order on character codes.
- `Model`: the records.
  - `Show`, `Episode`, `Season`, `Genre` and the detail response.
  - Local storage as `map<string, StoredValue>`.
- `Catalog`, `FilterSort`, `Favorites`, `Progress`, `ShareLink`: the pure operations and the properties proved about them.
- `Session`: the class `MainContent`.
  - One field per piece of component state, plus `store` for local storage.
  - One method per handler. Its `modifies` clause names the fields it changes.
  - Its `ensures` ties the new state to the pure operations.

Two orderings of the source are kept on purpose, not corrected:

- `handleToggleFavorite` writes the timestamp map from *before* the toggle to storage.
  - `Favorites.PersistedTimesLag` shows what follows: after a reload, a newly favorited show has no timestamp.
- The titles sent to the remote mirror come from the favorites list as it was before the toggle.

A form submission without a sort option (the form's own `onSubmit`) passes no `sortBy`. Every key other than the four is `Unsorted`, so the filtered list keeps catalog order.

Behaviour of the code worth noting:

- The catalog answer from the service only replaces the catalog (`setShows`, line 64). It is not written back to storage.
- `sortFavoriteShows` maps every id through `find`, so an id with no show becomes `undefined`; it is not dropped.
  - `Array.prototype.sort` never hands `undefined` to the comparator: it sorts the found shows and puts the `undefined` entries last.
  - The list is then rendered (lines 782-784), and reading `show.id` of an `undefined` entry throws there.
  - The model therefore requires every favorite id to resolve (`FilterSort.AllResolve`).
- The sort is stable, so `titleDesc` is not always `titleAsc` read backwards.
  - Two favorites with the same title keep their list order under both keys (`FilterSort.TiedTitlesKeepOrderBothWays`).
  - When no two favorites share a title, `titleDesc` is exactly the reverse (`FilterSort.TitleDescReversesTitleAsc`).
- The reset removes three prefixed namespaces, `currentTime-`, `progressPercentage-` and `fullyListened-`. It then removes the literal keys `"currentTime-"` and `"progressPercentage"`.

## Model

| member | source | states |
|---|---|---|
| `Catalog.ToggleShowMore` | my-podcast/src/MainContents.jsx:79-97 | same length and order; every field except `showFullDescription` kept; the flag flips exactly on shows whose id matches |
| `Catalog.ToggleShowMoreTwice` | my-podcast/src/MainContents.jsx:78-101 | toggling the same id twice restores the list |
| `Session.MainContent.ToggleShowMore` | my-podcast/src/MainContents.jsx:78-101 | catalog and filtered list both toggled; store's `"shows"` holds the new catalog; nothing else changes |
| `Catalog.FindShow` | my-podcast/src/MainContents.jsx:297 | `find` by id: `None` iff no show has the id, else the first show with it |
| `Catalog.Titles` | my-podcast/src/MainContents.jsx:397-400 | one title per id, the found show's title or `""` |
| `Catalog.GenreNameOf` | my-podcast/src/MainContents.jsx:165-168 | name of the first table row with the code, `"Unknown Genre"` when none |
| `Catalog.GenreNames` | my-podcast/src/MainContents.jsx:165-168 | one name per code, in code order |
| `Catalog.GenreLabel` | my-podcast/src/MainContents.jsx:164-170 | empty for no codes, the single name for one code, starts with the first code's name |
| `Catalog.GenreLabelSplits` | my-podcast/src/MainContents.jsx:169 | the label of a code list is the labels of its two halves joined by `", "` |
| `Catalog.JoinSplits` | my-podcast/src/MainContents.jsx:169 | `join` of a list is the join of its two halves around one separator |
| `Catalog.Tagged` | my-podcast/src/MainContents.jsx:124-129 | every episode of a season kept, with `season` overwritten |
| `Catalog.FlattenSeasons` | my-podcast/src/MainContents.jsx:117-130 | the nested loops yield exactly the flattened episodes and the season labels |
| `Catalog.FlattenedLength` | my-podcast/src/MainContents.jsx:121-130 | the flat list has as many episodes as all seasons together |
| `Catalog.EpisodeCountAppend` | my-podcast/src/MainContents.jsx:121-130 | the episode total grows by a season's count when the season is appended |
| `Catalog.FlattenedAt` | my-podcast/src/MainContents.jsx:121-129 | episode e of season i sits after all earlier seasons' episodes, with `season == i + 1` and its other fields kept |
| `Catalog.SeasonLabelsAt` | my-podcast/src/MainContents.jsx:121-123 | one label per season, `Season k` at position k-1 |
| `Session.MainContent.ShowClick` | my-podcast/src/MainContents.jsx:115-136 | a successful detail answer sets episodes and labels to the flattening and opens the dialog; an error status changes nothing |
| `Catalog.NextOpenDescription` | my-podcast/src/MainContents.jsx:434-438 | the description of `index` is open afterwards iff it was not open before; no other is open |
| `Session.MainContent.ToggleDescription` | my-podcast/src/MainContents.jsx:434-438 | the open description follows `NextOpenDescription` |
| `Catalog.ShowsToRender` | my-podcast/src/MainContents.jsx:432 | the filtered list when non-empty, otherwise the whole catalog |
| `FilterSort.RenderAfterFilter` | my-podcast/src/MainContents.jsx:199-211 | after a search, the page shows the whole catalog when no show passes, and exactly the passing shows otherwise |
| `FilterSort.FilterShows` | my-podcast/src/MainContents.jsx:199-211 | a show is in the result iff it is in the catalog and passes the title and genre tests; every passing show keeps its number of copies, every other has none; the result is a subsequence of the catalog |
| `FilterSort.EmptyQueryMatchesEveryTitle` | my-podcast/src/MainContents.jsx:200-207 | an empty query passes every title |
| `FilterSort.EmptyFormKeepsCatalog` | my-podcast/src/MainContents.jsx:199-211 | with empty query and no genre the result is the catalog itself |
| `FilterSort.GenreOptionSelects` | my-podcast/src/MainContents.jsx:208-209 | picking the option of genre code n keeps exactly the shows that list n |
| `Text.NatRoundTrip` | my-podcast/src/MainContents.jsx:209 | `Number` of a rendered code gives the code back |
| `FilterSort.ParseSortKey` | my-podcast/src/MainContents.jsx:214-228 | each of the four strings selects its key; anything else is `Unsorted` |
| `FilterSort.BeforeTotal` | my-podcast/src/MainContents.jsx:215-225 | every comparator orders any two shows one way or the other |
| `FilterSort.BeforeTransitive` | my-podcast/src/MainContents.jsx:215-225 | every comparator is transitive |
| `Text.LexLeTotal` | my-podcast/src/MainContents.jsx:216 | title order is total |
| `Text.LexLeTransitive` | my-podcast/src/MainContents.jsx:216 | title order is transitive |
| `Text.LexLeAntisymmetric` | my-podcast/src/MainContents.jsx:216 | titles ordered both ways are equal |
| `Text.LexLeReflexive` | my-podcast/src/MainContents.jsx:216 | every title is ordered before itself |
| `FilterSort.SortShows` | my-podcast/src/MainContents.jsx:214-229 | in-place array sort: a permutation, sorted by the key; an unknown key leaves the array unchanged |
| `FilterSort.InsertLast` | my-podcast/src/MainContents.jsx:214-229 | one insertion step: the sorted prefix grows by one, the array stays a permutation, and everything after position `i` is unchanged |
| `Session.MainContent.Submit` | my-podcast/src/MainContents.jsx:197-232 | filtered list = a sorted permutation of the shows passing the stored query and genre; catalog order for an unknown key |
| `Session.MainContent.InputChange` | my-podcast/src/MainContents.jsx:177-188 | search box: fuzzy answer becomes the filtered list and the query is recorded; genre box: genre recorded; other names change nothing |
| `FilterSort.Insert` | my-podcast/src/MainContents.jsx:298 | inserting adds exactly one element to the list's multiset |
| `FilterSort.InsertSorted` | my-podcast/src/MainContents.jsx:298 | inserting into a sorted list keeps it sorted |
| `FilterSort.SortBy` | my-podcast/src/MainContents.jsx:298 | the sort is a permutation |
| `FilterSort.SortBySorted` | my-podcast/src/MainContents.jsx:298 | the sort's result is sorted |
| `FilterSort.TiedWith` | my-podcast/src/MainContents.jsx:298 | the shows of a list that tie with a given show under the key, and only those, in list order |
| `FilterSort.InsertTies` | my-podcast/src/MainContents.jsx:298 | insertion puts the new show first among the shows it ties with and keeps every tie class's order |
| `FilterSort.SortByStable` | my-podcast/src/MainContents.jsx:298 | the sort is stable: every tie class comes out in its input order |
| `FilterSort.Resolve` | my-podcast/src/MainContents.jsx:297 | one show per favorite id, and it is `find`'s first catalog show with that id |
| `FilterSort.FavoritesKey` | my-podcast/src/MainContents.jsx:294-319 | the four keys as named; any other string sorts by ascending title |
| `FilterSort.SortFavoriteShows` | my-podcast/src/MainContents.jsx:292-323 | when every id resolves: one show per id, a permutation of the resolved shows, sorted by the key |
| `FilterSort.SortFavoriteShowsStable` | my-podcast/src/MainContents.jsx:292-323 | shows that tie under the key appear in the order of their ids in the favorites list |
| `FilterSort.UnknownKeySortsByTitle` | my-podcast/src/MainContents.jsx:315-319 | an unknown key gives the same list as `titleAsc` |
| `FilterSort.Reversed` | my-podcast/src/MainContents.jsx:294-303 | the list read backwards: same length, same multiset, element k is element n-1-k |
| `FilterSort.SortedUnique` | my-podcast/src/MainContents.jsx:294-303 | two sorted arrangements of the same shows are equal when no two different shows tie |
| `FilterSort.TitleDescReversesTitleAsc` | my-podcast/src/MainContents.jsx:294-303 | with pairwise-distinct titles, the `titleDesc` list is the `titleAsc` list reversed |
| `FilterSort.TiedTitlesKeepOrderBothWays` | my-podcast/src/MainContents.jsx:294-303 | two favorites with one title come out in list order under both title keys, which is not the reverse |
| `Favorites.RemoveId` | my-podcast/src/MainContents.jsx:244 | every occurrence of the id removed; every other id kept with its number of occurrences |
| `Favorites.ToggleIds` | my-podcast/src/MainContents.jsx:240-249 | the id is in the new list iff it was not in the old; other ids keep their number of occurrences; an absent id is appended at the end; a present id is removed by `RemoveId`, which keeps the order of the rest |
| `Favorites.RemoveIdConcat` | my-podcast/src/MainContents.jsx:244 | removal from a concatenation is the concatenation of the removals, so the remaining ids keep their order |
| `Favorites.ToggleTimes` | my-podcast/src/MainContents.jsx:243-258 | the id's timestamp is deleted if it was a favorite and set to `now` otherwise; other timestamps untouched |
| `Favorites.ToggleKeepsTimesMatch` | my-podcast/src/MainContents.jsx:243-259 | in memory, favorites and timestamps stay in step across a toggle |
| `Favorites.PersistedTimesLag` | my-podcast/src/MainContents.jsx:259-261 | the stored pair after favoriting a show is out of step: list names the show, stored map lacks it |
| `Favorites.ToggleTwiceMembership` | my-podcast/src/MainContents.jsx:239-259 | toggling twice restores which ids are favorites |
| `Favorites.ToggleTwiceFromAbsent` | my-podcast/src/MainContents.jsx:244-249 | for an id that was not a favorite, toggling twice restores the list exactly |
| `Favorites.RemoveAppended` | my-podcast/src/MainContents.jsx:244-249 | removing a freshly appended id gives the old list |
| `Favorites.ToggleTimesTwice` | my-podcast/src/MainContents.jsx:245-257 | after two toggles other timestamps are unchanged; the id's entry is absent or holds the second time, by parity |
| `Session.MainContent.ToggleFavorite` | my-podcast/src/MainContents.jsx:239-266 | list and map follow the toggle; store gets the new list and the pre-toggle map; returned sync titles come from the pre-toggle list |
| `Session.MainContent.constructor` | my-podcast/src/MainContents.jsx:28-48 | catalog, favorites and timestamps read from storage or empty; other state empty |
| `Session.MainContent.ReceiveCatalog` | my-podcast/src/MainContents.jsx:63-66 | the catalog becomes the service's answer; storage untouched |
| `Progress.SaveProgress` | my-podcast/src/MainContents.jsx:348-356 | the player's time and percentage stored under its two keys, each with its value; other keys unchanged |
| `Session.MainContent.SaveAudioProgress` | my-podcast/src/MainContents.jsx:348-356 | store updated by `SaveProgress`; the player would now resume at the saved time |
| `Progress.SavedPosition` | my-podcast/src/MainContents.jsx:364-374 | a player seeks only when both its keys are stored, to the stored time |
| `Progress.ResumeAfterSave` | my-podcast/src/MainContents.jsx:348-374 | after a save the player resumes at the saved time |
| `Progress.Purged` | my-podcast/src/MainContents.jsx:382-394 | no key of the three namespaces and no `"progressPercentage"` remains; every other entry kept |
| `Progress.NoResumeAfterReset` | my-podcast/src/MainContents.jsx:371-394 | after a reset no player resumes |
| `Session.MainContent.ResetProgress` | my-podcast/src/MainContents.jsx:382-394 | the key-by-key deletion loop leaves exactly `Purged(old store)` |
| `ShareLink.BaseOf` | my-podcast/src/MainContents.jsx:403 | `split("?")[0]`: a prefix of the address with no `?`, cut at its first `?`; the whole address when it has none |
| `ShareLink.PublicUrl` | my-podcast/src/MainContents.jsx:396-407 | the link starts with the base and `?favorites=`, and the rest of it is the titles joined with `,`; with no favorites the prefix is all of it |
| `ShareLink.PublicUrlKeepsBase` | my-podcast/src/MainContents.jsx:403-404 | the link's base is the page's base; any old query is dropped |
| `ShareLink.DecodePublicUrl` | my-podcast/src/MainContents.jsx:402-404 | the raw text after `?favorites=` equals the comma-joined title list, and reading it back as raw text is the comma split of that join |
| `ShareLink.ShareRoundTrip` | my-podcast/src/MainContents.jsx:396-407 | reading the link back as raw text gives the titles back iff there is a favorite and no title contains a comma |
| `Text.JoinSplit` | my-podcast/src/MainContents.jsx:402 | `split(",")` after `join(",")` restores the list iff it is non-empty and comma-free |
| `Text.SplitHead` | my-podcast/src/MainContents.jsx:403 | the first piece of a split is the text before the first separator |
| `Session.MainContent.GeneratePublicUrl` | my-podcast/src/MainContents.jsx:412-416 | the public URL becomes `PublicUrl` of the current favorites and is shown |

## Left out

- The fuzzy search (Fuse.js, lines 177-188) is a call into a library whose scoring and options are not in this model. `Session.MainContent.InputChange` takes its answer as a parameter.
- Network I/O is not modelled: the catalog request, the detail request and the remote favorites upsert. The model starts from the parsed answers, and `ToggleFavorite` returns the payload titles instead of sending them.
- The order in which late answers arrive is not modelled: each answer is applied when its method is called.
- Audio event listeners, `window` unload hooks and `parseFloat` are not modelled. The time and percentage are opaque stored values, so the float division that computes the percentage is not modelled.
- `toLocaleTimeString` is not modelled: the formatted time is the parameter `now`.
- `new Date(updated)` is not modelled: `updated` is an integer timestamp.
- FilterSort.Before: title order is lexicographic order on character codes, standing for the locale-aware `localeCompare`.
- Text.Lower: lowers ASCII letters only, where `toLowerCase` lowers all of Unicode.
- Text.FirstChar: strings here are sequences of Unicode code points, while `charAt(0)` returns the first UTF-16 code unit. For a title or query that starts outside the Basic Multilingual Plane, the first-character test differs. For example, "😃a" and "😀" share their first code unit (a high surrogate) in the source but not here, so the model drops a show the source keeps. `includes` is likewise taken on code points.
- FilterSort.GenreMatches: `Number(selected)` is modelled for digit strings only. Signs, blanks, decimals, exponents and hex have no integer value here, although JavaScript gives some of them one. The genre options are rendered codes, which are digit strings.
- FilterSort.SortShows: states a sorted permutation, not the stability that JavaScript's `sort` also guarantees. Stability is proved only for the pure sort used by the favorites list (`FilterSort.SortByStable`).
- Session.MainContent.Submit: the filtered list is stated to be a sorted permutation of the passing shows; that shows with equal keys keep their catalog order is not stated, because it rests on `FilterSort.SortShows`.
- FilterSort.SortFavoriteShows: requires every favorite id to name a show. In the source, an unresolved id gives an `undefined` entry that the sort puts last and the render at lines 782-784 then fails on.
- ShareLink.DecodeFavorites: reads the raw text after the first `?` and `favorites=`; it is not a URL query parser. The link is built without escaping (line 404). A browser's query parser would cut the value at `&` or `#`, turn `+` into a space and decode `%XX`, so titles holding those characters do not come back there. An `href` with a `#fragment` and no `?` also puts the parameter inside the fragment. The round-trip lemmas are about this raw-text reader only.
- The genre table is a parameter: `./genreMapping` is not part of this model.
- Not modelled: authentication gating, the loading spinner, the dialogs (`closeDialog`, minimise, `prompt`), the carousel, the favorites modal's radio buttons, and all JSX rendering.
- `FavoriteEpisodes.jsx`, `App.jsx` and `checkbox.jsx` are presentation only and are not part of this model.
