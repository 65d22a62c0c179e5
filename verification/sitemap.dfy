/** The sitemap (app/sitemap.js): the home and about pages followed by one page per
    stored wallpaper. */
module Sitemap {
  import opened Optional

  const BASE_URL := "https://www.yourdomain.com"

  const WALLPAPER_PREFIX := "/wallpaper/"

  datatype ChangeFrequency = Daily | Weekly | Monthly

  /** One sitemap entry; the priority is kept in tenths (1 is 10, 0.5 is 5). */
  datatype Entry = Entry(url: string, changeFrequency: ChangeFrequency, priorityTenths: nat)

  /** The page of one wallpaper. */
  function WallpaperEntry(base: string, id: string): Entry
  {
    Entry(base + WALLPAPER_PREFIX + id, Weekly, 8)
  }

  function WallpaperEntries(base: string, ids: seq<string>): (r: seq<Entry>)
    ensures |r| == |ids|
    ensures forall i :: 0 <= i < |ids| ==> r[i] == WallpaperEntry(base, ids[i])
  {
    seq(|ids|, i requires 0 <= i < |ids| => WallpaperEntry(base, ids[i]))
  }

  /** `sitemap()` for the ids of the stored wallpapers, in snapshot order. */
  function SitemapFor(base: string, ids: seq<string>): (r: seq<Entry>)
    ensures |r| == |ids| + 2
    ensures r[0] == Entry(base, Daily, 10) && r[1] == Entry(base + "/about", Monthly, 5)
    ensures forall i :: 0 <= i < |ids| ==> r[i + 2] == WallpaperEntry(base, ids[i])
  {
    [Entry(base, Daily, 10), Entry(base + "/about", Monthly, 5)] + WallpaperEntries(base, ids)
  }

  function Sitemap(ids: seq<string>): (r: seq<Entry>)
    ensures |r| == |ids| + 2
  {
    SitemapFor(BASE_URL, ids)
  }

  /** The id a wallpaper page URL names, if it is one. */
  function IdOf(base: string, url: string): (r: Option<string>)
    ensures r.Some? <==> base + WALLPAPER_PREFIX <= url
    ensures r.Some? ==> url == base + WALLPAPER_PREFIX + r.value
  {
    var prefix := base + WALLPAPER_PREFIX;
    if prefix <= url then Some(url[|prefix|..]) else None
  }

  /** Reading the ids back from the wallpaper entries gives the snapshot's ids, and
      the two static pages name no wallpaper. */
  lemma SitemapIdsRoundTrip(base: string, ids: seq<string>)
    ensures var r := SitemapFor(base, ids);
      && IdOf(base, r[0].url).None? && IdOf(base, r[1].url).None?
      && forall i :: 2 <= i < |r| ==> IdOf(base, r[i].url) == Some(ids[i - 2])
  {
    var r := SitemapFor(base, ids);
    forall i | 2 <= i < |r|
      ensures IdOf(base, r[i].url) == Some(ids[i - 2])
    {
      assert r[i].url == base + WALLPAPER_PREFIX + ids[i - 2];
      assert (base + WALLPAPER_PREFIX + ids[i - 2])[|base + WALLPAPER_PREFIX|..] == ids[i - 2];
    }
    assert |r[1].url| < |base + WALLPAPER_PREFIX|;
  }

  /** Distinct wallpapers get distinct URLs. */
  lemma WallpaperUrlsDistinct(base: string, a: string, b: string)
    requires a != b
    ensures WallpaperEntry(base, a).url != WallpaperEntry(base, b).url
  {
    var p := base + WALLPAPER_PREFIX;
    assert (p + a)[|p|..] == a;
    assert (p + b)[|p|..] == b;
  }
}
