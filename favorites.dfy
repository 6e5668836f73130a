/** The favorites list and its timestamps as `handleToggleFavorite` changes them. */
module Favorites {

  /** `ids.filter((x) => x !== id)`: every occurrence of `id` goes, every
      other id stays, in order. */
  function RemoveId(ids: seq<int>, id: int): (r: seq<int>)
    ensures id !in r
    ensures forall x :: x != id ==> (x in r <==> x in ids)
    ensures forall x :: x != id ==> multiset(r)[x] == multiset(ids)[x]
    ensures |r| <= |ids|
    ensures id !in ids ==> r == ids
  {
    if |ids| == 0 then []
    else if ids[0] == id then
      assert ids == [ids[0]] + ids[1..];
      RemoveId(ids[1..], id)
    else
      assert ids == [ids[0]] + ids[1..];
      [ids[0]] + RemoveId(ids[1..], id)
  }

  /** The new favorites list: without `id` if it was a favorite, with `id`
      appended at the end otherwise. */
  function ToggleIds(ids: seq<int>, id: int): (r: seq<int>)
    ensures id in r <==> id !in ids
    ensures forall x :: x != id ==> (x in r <==> x in ids)
    ensures forall x :: x != id ==> multiset(r)[x] == multiset(ids)[x]
    ensures id !in ids ==> r == ids + [id]
    ensures id in ids ==> r == RemoveId(ids, id)
  {
    if id in ids then RemoveId(ids, id) else ids + [id]
  }

  /** Removal works piece by piece: the other ids of `a` stay before those of
      `b`, each list in its own order. */
  lemma {:induction false} RemoveIdConcat(a: seq<int>, b: seq<int>, id: int)
    ensures RemoveId(a + b, id) == RemoveId(a, id) + RemoveId(b, id)
  {
    if |a| > 0 {
      RemoveIdConcat(a[1..], b, id);
      assert (a + b)[1..] == a[1..] + b;
    } else {
      assert a + b == b;
    }
  }

  /** The new timestamp map: `id`'s entry deleted if it was a favorite, set to
      `now` otherwise; every other id keeps its entry. */
  function ToggleTimes(times: map<int, string>, ids: seq<int>, id: int, now: string): (r: map<int, string>)
    ensures id in r <==> id !in ids
    ensures id !in ids ==> r[id] == now
    ensures forall x :: x != id ==> (x in r <==> x in times)
    ensures forall x :: x != id && x in times ==> r[x] == times[x]
  {
    if id in ids then times - {id} else times[id := now]
  }

  /** Every favorite has a timestamp and every timestamp belongs to a favorite. */
  ghost predicate TimesMatch(ids: seq<int>, times: map<int, string>) {
    forall x :: x in times <==> x in ids
  }

  /** A toggle keeps the list and the map in step. */
  lemma ToggleKeepsTimesMatch(ids: seq<int>, times: map<int, string>, id: int, now: string)
    requires TimesMatch(ids, times)
    ensures TimesMatch(ToggleIds(ids, id), ToggleTimes(times, ids, id, now))
  {
  }

  /** What a toggle writes to storage is out of step: the new list beside the
      map from before the toggle. Once a show is favorited, the stored list
      names it and the stored map has no time for it, so after a reload the
      show is a favorite without a timestamp. */
  lemma PersistedTimesLag(ids: seq<int>, times: map<int, string>, id: int)
    requires TimesMatch(ids, times)
    requires id !in ids
    ensures id in ToggleIds(ids, id) && id !in times
    ensures !TimesMatch(ToggleIds(ids, id), times)
  {
  }

  /** Toggling the same show twice restores who is a favorite. */
  lemma ToggleTwiceMembership(ids: seq<int>, id: int)
    ensures forall x :: x in ToggleIds(ToggleIds(ids, id), id) <==> x in ids
  {
  }

  /** A show that was not a favorite leaves the list exactly as it found it
      after two toggles. */
  lemma ToggleTwiceFromAbsent(ids: seq<int>, id: int)
    requires id !in ids
    ensures ToggleIds(ToggleIds(ids, id), id) == ids
  {
    RemoveAppended(ids, id);
  }

  lemma {:induction false} RemoveAppended(ids: seq<int>, id: int)
    requires id !in ids
    ensures RemoveId(ids + [id], id) == ids
  {
    if |ids| > 0 {
      RemoveAppended(ids[1..], id);
      assert (ids + [id])[1..] == ids[1..] + [id];
    }
  }

  /** After two toggles every other show keeps its timestamp, and the toggled
      show's entry is absent when it started out unfavorited and carries the
      second call's time when it started out favorited. */
  lemma ToggleTimesTwice(times: map<int, string>, ids: seq<int>, id: int, now1: string, now2: string)
    ensures var r := ToggleTimes(ToggleTimes(times, ids, id, now1), ToggleIds(ids, id), id, now2);
            (id !in ids ==> r == times - {id}) && (id in ids ==> r == (times - {id})[id := now2])
  {
    var r := ToggleTimes(ToggleTimes(times, ids, id, now1), ToggleIds(ids, id), id, now2);
    if id !in ids {
      assert r.Keys == (times - {id}).Keys;
    } else {
      assert r.Keys == (times - {id})[id := now2].Keys;
    }
  }
}
