/** `generatePublicURL`: the favorites' titles, comma-joined without escaping,
    as the one query parameter of the page's address. */
module ShareLink {
  import opened Wrappers
  import opened Text
  import opened Model
  import Catalog

  const FavoritesParam: string := "favorites="

  /** `href.split("?")[0]`: the address up to its first `?`. */
  function BaseOf(href: string): (r: string)
    ensures IsPrefix(r, href)
    ensures '?' !in r
    ensures '?' !in href ==> r == href
    ensures |r| < |href| ==> href[|r|] == '?'
  {
    SplitHead(href, '?');
    Split(href, '?')[0]
  }

  /** The shareable address: the base, `?favorites=`, then the titles of the
      favorite ids joined with `,` (an id with no show gives ""). */
  function PublicUrl(favorites: seq<int>, shows: seq<Show>, href: string): (r: string)
    ensures IsPrefix(BaseOf(href) + "?" + FavoritesParam, r)
    ensures |favorites| == 0 ==> r == BaseOf(href) + "?" + FavoritesParam
    ensures r[|BaseOf(href)| + 1 + |FavoritesParam|..] == Join(Catalog.Titles(favorites, shows), ",")
  {
    BaseOf(href) + "?" + FavoritesParam + Join(Catalog.Titles(favorites, shows), ",")
  }

  /** Reading a shared address back: the text after its first `?`, if it is a
      `favorites=` parameter, split on commas. */
  function DecodeFavorites(url: string): Option<seq<string>> {
    var base := BaseOf(url);
    if |base| < |url| && IsPrefix(FavoritesParam, url[|base| + 1..])
    then Some(Split(url[|base| + 1 + |FavoritesParam|..], ','))
    else None
  }

  /** The address keeps the page's base and nothing of its old query. */
  lemma PublicUrlKeepsBase(favorites: seq<int>, shows: seq<Show>, href: string)
    ensures BaseOf(PublicUrl(favorites, shows, href)) == BaseOf(href)
  {
    var base := BaseOf(href);
    var url := PublicUrl(favorites, shows, href);
    SplitHead(url, '?');
    assert url[|base|] == '?';
  }

  /** Reading the link back splits the comma-joined titles on commas. */
  lemma DecodePublicUrl(favorites: seq<int>, shows: seq<Show>, href: string)
    ensures var url := PublicUrl(favorites, shows, href);
            url[|BaseOf(href)| + 1 + |FavoritesParam|..] == Join(Catalog.Titles(favorites, shows), ",")
    ensures DecodeFavorites(PublicUrl(favorites, shows, href))
            == Some(Split(Join(Catalog.Titles(favorites, shows), ","), ','))
  {
    PublicUrlKeepsBase(favorites, shows, href);
    DecodeParameter(PublicUrl(favorites, shows, href), BaseOf(href), Join(Catalog.Titles(favorites, shows), ","));
  }

  /** An address made of a base, `?favorites=` and a value decodes to the
      value split on commas. */
  lemma DecodeParameter(url: string, base: string, value: string)
    requires url == base + "?" + FavoritesParam + value
    requires BaseOf(url) == base
    ensures DecodeFavorites(url) == Some(Split(value, ','))
  {
    var rest := FavoritesParam + value;
    assert url == base + "?" + rest;
    assert url[|base| + 1..] == rest;
    assert rest[..|FavoritesParam|] == FavoritesParam;
    assert url[|base| + 1 + |FavoritesParam|..] == rest[|FavoritesParam|..] == value;
  }

  /** The shared titles come back exactly when there is at least one favorite
      and no title holds a comma: an empty list comes back as `[""]`, and a
      title with a comma comes back as two. */
  lemma ShareRoundTrip(favorites: seq<int>, shows: seq<Show>, href: string)
    ensures DecodeFavorites(PublicUrl(favorites, shows, href)) == Some(Catalog.Titles(favorites, shows))
            <==> |favorites| > 0 && forall k :: 0 <= k < |favorites| ==> ',' !in Catalog.TitleOf(shows, favorites[k])
  {
    DecodePublicUrl(favorites, shows, href);
    JoinSplit(Catalog.Titles(favorites, shows), ',');
  }
}
