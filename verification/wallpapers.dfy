/** The wallpaper document as the gallery sees it, and the metadata derived from
    its pixel dimensions (app/page.js, `enrichWallpapersWithDimensions`). */
module Wallpapers {
  import opened Optional

  datatype Orientation = Desktop | Phone

  /** The resolution tiers; `UltraHd` is the source's '4k'. */
  datatype Resolution = UltraHd | Hd | Sd

  function OrientationName(o: Orientation): string
  {
    match o
    case Desktop => "desktop"
    case Phone => "phone"
  }

  function ResolutionName(r: Resolution): string
  {
    match r
    case UltraHd => "4k"
    case Hd => "hd"
    case Sd => "sd"
  }

  /** A document of the `wallpapers` collection merged with its id, plus the two
      fields enrichment derives. Every optional field may be missing in a stored
      document; `imageUrl` is the empty string when it is missing. */
  datatype Wallpaper = Wallpaper(
    id: string,
    imageUrl: string,
    title: Option<string>,
    tags: Option<seq<string>>,
    likes: Option<int>,
    downloads: Option<int>,
    width: Option<int>,
    height: Option<int>,
    orientation: Option<Orientation>,
    resolution: Option<Resolution>,
    imagePath: Option<string>)

  /** The natural size an image reports once it has loaded. */
  datatype Dims = Dims(width: nat, height: nat)

  /** The outcome of loading an image by URL: its size, or `None` when loading fails. */
  type Probe = string -> Option<Dims>

  /** `likes ?? 0` */
  function LikesOf(w: Wallpaper): int
  {
    w.likes.GetOr(0)
  }

  /** `downloads ?? 0` */
  function DownloadsOf(w: Wallpaper): int
  {
    w.downloads.GetOr(0)
  }

  // ---------------------------------------------------------------- classification

  function OrientationOf(width: int, height: int): (o: Orientation)
    ensures o == Desktop <==> width > height
    ensures o == Phone <==> width <= height
  {
    if width > height then Desktop else Phone
  }

  /** Either side reaching a threshold is enough to reach that tier. */
  function ResolutionOf(width: int, height: int): (r: Resolution)
    ensures r == UltraHd <==> width >= 3840 || height >= 2160
    ensures r == Hd <==> width < 3840 && height < 2160 && (width >= 1920 || height >= 1080)
    ensures r == Sd <==> width < 1920 && height < 1080
  {
    if width >= 3840 || height >= 2160 then UltraHd
    else if width >= 1920 || height >= 1080 then Hd
    else Sd
  }

  function Rank(r: Resolution): nat
  {
    match r
    case Sd => 0
    case Hd => 1
    case UltraHd => 2
  }

  /** A larger image never lands in a lower tier. */
  lemma ResolutionMonotone(w1: int, h1: int, w2: int, h2: int)
    requires w1 <= w2 && h1 <= h2
    ensures Rank(ResolutionOf(w1, h1)) <= Rank(ResolutionOf(w2, h2))
  {
  }

  /** Rotating a non-square image flips its orientation; a square is a phone image. */
  lemma OrientationRotate(w: int, h: int)
    ensures w != h ==> OrientationOf(h, w) != OrientationOf(w, h)
    ensures OrientationOf(w, w) == Phone
  {
  }

  // ---------------------------------------------------------------- enrichment

  /** The derived fields agree with the dimensions: both present and computed from
      them, or all four missing. */
  predicate Classified(w: Wallpaper)
  {
    if w.width.Some? && w.height.Some? then
      && w.orientation == Some(OrientationOf(w.width.value, w.height.value))
      && w.resolution == Some(ResolutionOf(w.width.value, w.height.value))
    else
      w.width.None? && w.height.None? && w.orientation.None? && w.resolution.None?
  }

  /** Derives orientation and resolution; probes the image only when the record does
      not already carry a truthy width and height. */
  function EnrichOne(w: Wallpaper, probe: Probe): (r: Wallpaper)
    ensures r == w.(width := r.width, height := r.height, orientation := r.orientation, resolution := r.resolution)
    ensures Classified(r)
    ensures TruthyInt(w.width) && TruthyInt(w.height) ==> r.width == w.width && r.height == w.height
    ensures !(TruthyInt(w.width) && TruthyInt(w.height)) ==>
      match probe(w.imageUrl)
      case Some(d) => r.width == Some(d.width as int) && r.height == Some(d.height as int)
      case None => r.width.None? && r.height.None?
  {
    if TruthyInt(w.width) && TruthyInt(w.height) then
      var width, height := w.width.value, w.height.value;
      w.(orientation := Some(OrientationOf(width, height)), resolution := Some(ResolutionOf(width, height)))
    else
      match probe(w.imageUrl)
      case Some(d) =>
        w.(width := Some(d.width as int), height := Some(d.height as int),
           orientation := Some(OrientationOf(d.width, d.height)), resolution := Some(ResolutionOf(d.width, d.height)))
      case None =>
        w.(width := None, height := None, orientation := None, resolution := None)
  }

  /** Enriches a page, one result per record, in the order of the page (not in the
      order the image loads complete). */
  function Enrich(ws: seq<Wallpaper>, probe: Probe): (r: seq<Wallpaper>)
    ensures |r| == |ws|
    ensures forall i :: 0 <= i < |ws| ==> r[i] == EnrichOne(ws[i], probe)
  {
    seq(|ws|, i requires 0 <= i < |ws| => EnrichOne(ws[i], probe))
  }

  /** Enriching two pages one after the other is enriching their concatenation. */
  lemma EnrichAppend(a: seq<Wallpaper>, b: seq<Wallpaper>, probe: Probe)
    ensures Enrich(a + b, probe) == Enrich(a, probe) + Enrich(b, probe)
  {
  }

  /** Enrichment keeps the ids in page order and classifies every record. */
  lemma EnrichKeepsOrder(ws: seq<Wallpaper>, probe: Probe)
    ensures forall i :: 0 <= i < |ws| ==> Enrich(ws, probe)[i].id == ws[i].id
    ensures forall i :: 0 <= i < |ws| ==> Classified(Enrich(ws, probe)[i])
  {
  }

  /** A record that already has truthy dimensions is enriched without the probe. */
  lemma EnrichIgnoresProbe(w: Wallpaper, p1: Probe, p2: Probe)
    requires TruthyInt(w.width) && TruthyInt(w.height)
    ensures EnrichOne(w, p1) == EnrichOne(w, p2)
  {
  }

  /** With a probe that answers the same for the same URL, enriching twice is
      enriching once. */
  lemma EnrichIdempotent(w: Wallpaper, probe: Probe)
    ensures EnrichOne(EnrichOne(w, probe), probe) == EnrichOne(w, probe)
  {
  }

  // ---------------------------------------------------------------- download name

  /** The title when it is truthy, the id otherwise (`title || id`). */
  function TitleOrId(w: Wallpaper): string
  {
    if TruthyString(w.title) then w.title.value else w.id
  }

  /** The file name a download is saved under: `FrameByte-<title or id>.jpg`. */
  function DownloadFileName(w: Wallpaper): (r: string)
    ensures |r| == |TitleOrId(w)| + 14
    ensures r[..10] == "FrameByte-" && r[|r| - 4..] == ".jpg"
    ensures r[10..|r| - 4] == TitleOrId(w)
  {
    "FrameByte-" + TitleOrId(w) + ".jpg"
  }
}
