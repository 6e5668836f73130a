/** Playback progress in local storage: the keys a player writes on pause or
    unload, the rule that decides whether a paused player seeks to its saved
    time, and the purge that `resetProgress` performs. */
module Progress {
  import opened Wrappers
  import opened Text
  import opened Model

  const CurrentTimePrefix: string := "currentTime-"
  const PercentagePrefix: string := "progressPercentage-"
  const FullyListenedPrefix: string := "fullyListened-"
  /** The second literal key `resetProgress` removes after its scan. */
  const BarePercentageKey: string := "progressPercentage"

  /** A key in one of the three progress namespaces. */
  predicate IsProgressKey(key: string) {
    IsPrefix(CurrentTimePrefix, key) || IsPrefix(PercentagePrefix, key) || IsPrefix(FullyListenedPrefix, key)
  }

  /** The store once `resetProgress` is done: no key of the three
      namespaces and no `"progressPercentage"`, every other entry as it was. */
  function Purged(store: Store): (r: Store)
    ensures forall k :: k in r ==> !IsProgressKey(k) && k != BarePercentageKey
    ensures forall k :: k in store && !IsProgressKey(k) && k != BarePercentageKey ==> k in r && r[k] == store[k]
    ensures r.Keys <= store.Keys
  {
    (map k | k in store && !IsProgressKey(k) :: store[k]) - {CurrentTimePrefix, BarePercentageKey}
  }

  /** `saveAudioProgress` for the player `player`: its current time and
      percentage under its two keys; the percentage is an opaque value here. */
  function SaveProgress(store: Store, player: string, time: StoredValue, percentage: StoredValue): (r: Store)
    ensures r.Keys == store.Keys + {CurrentTimePrefix + player, PercentagePrefix + player}
    ensures r[CurrentTimePrefix + player] == time
    ensures r[PercentagePrefix + player] == percentage
    ensures forall k :: k in store && k != CurrentTimePrefix + player && k != PercentagePrefix + player ==> r[k] == store[k]
  {
    assert CurrentTimePrefix + player != PercentagePrefix + player by {
      assert (CurrentTimePrefix + player)[0] != (PercentagePrefix + player)[0];
    }
    store[CurrentTimePrefix + player := time][PercentagePrefix + player := percentage]
  }

  /** The position a player seeks to once it pauses (`handleAudioSelection`
      is the `onPause` handler): the saved time, only when both the time and
      the percentage are stored. */
  function SavedPosition(store: Store, player: string): (r: Option<StoredValue>)
    ensures r.Some? <==> CurrentTimePrefix + player in store && PercentagePrefix + player in store
    ensures r.Some? ==> r.value == store[CurrentTimePrefix + player]
  {
    if CurrentTimePrefix + player in store && PercentagePrefix + player in store
    then Some(store[CurrentTimePrefix + player])
    else None
  }

  /** A player that saved its progress resumes at the saved time. */
  lemma ResumeAfterSave(store: Store, player: string, time: StoredValue, percentage: StoredValue)
    ensures SavedPosition(SaveProgress(store, player, time, percentage), player) == Some(time)
  {
  }

  /** After a reset no paused player seeks to a saved time. */
  lemma NoResumeAfterReset(store: Store, player: string)
    ensures SavedPosition(Purged(store), player) == None
  {
    assert IsPrefix(CurrentTimePrefix, CurrentTimePrefix + player);
  }
}
