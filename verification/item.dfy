/** One tile of the gallery (components/WallpaperItem.js): its like and download
    counters, which notify the parent optimistically and roll back when the remote
    update fails, and its resolution badge. */
module Item {
  import opened Optional
  import opened Wallpapers
  import opened Storage

  datatype ItemState = ItemState(isLiked: bool, likeCount: int, downloadCount: int)

  /** The state after mounting, and after the record's id or counts change: counts
      from the record (missing ones read as 0), the flag from storage. */
  function Sync(w: Wallpaper, storage: Storage): (s: ItemState)
    ensures s.likeCount == LikesOf(w) && s.downloadCount == DownloadsOf(w)
    ensures s.isLiked <==> LikedKey(w.id) in storage && storage[LikedKey(w.id)] == "true"
  {
    ItemState(IsLikedIn(storage, w.id), LikesOf(w), DownloadsOf(w))
  }

  /** The outcome of a like click: the tile's state, the storage, and the counts passed
      to `onLikeToggle`, in call order (none when the parent gave no callback). */
  datatype LikeOutcome = LikeOutcome(state: ItemState, storage: Storage, notified: seq<int>)

  /** `handleLikeClick` */
  function LikeClick(s: ItemState, storage: Storage, id: string, hasListener: bool, remoteOk: bool): (r: LikeOutcome)
    ensures r.state.downloadCount == s.downloadCount
    ensures r.storage == storage[LikedKey(id) := StoredBool(r.state.isLiked)]
    ensures remoteOk ==>
      && r.state.isLiked == !s.isLiked
      && r.state.likeCount == s.likeCount + (if s.isLiked then -1 else 1)
      && r.notified == (if hasListener then [r.state.likeCount] else [])
    ensures !remoteOk ==>
      && r.state == s
      && r.notified == (if hasListener then [s.likeCount + (if s.isLiked then -1 else 1), s.likeCount] else [])
    ensures hasListener ==> r.notified != [] && r.notified[|r.notified| - 1] == r.state.likeCount
  {
    var liked := !s.isLiked;
    var newCount := s.likeCount + (if liked then 1 else -1);
    var s1 := s.(isLiked := liked, likeCount := newCount);
    var st1 := storage[LikedKey(id) := StoredBool(liked)];
    var n1 := if hasListener then [newCount] else [];
    if remoteOk then LikeOutcome(s1, st1, n1)
    else
      LikeOutcome(s1.(isLiked := !liked, likeCount := s.likeCount), st1[LikedKey(id) := StoredBool(!liked)],
                  n1 + (if hasListener then [s.likeCount] else []))
  }

  /** A failed like leaves storage as it was whenever storage agreed with the flag. */
  lemma FailedLikeRestoresStorage(s: ItemState, storage: Storage, id: string, hasListener: bool)
    requires LikedKey(id) in storage && storage[LikedKey(id)] == StoredBool(s.isLiked)
    ensures LikeClick(s, storage, id, hasListener, false).storage == storage
  {
  }

  /** The outcome of a download click: the tile's state and the `(id, count)` pairs
      passed to `onDownload`, in call order. */
  datatype DownloadOutcome = DownloadOutcome(state: ItemState, notified: seq<(string, int)>)

  /** `handleDownloadClick`: the count rises by one and the parent is told; when the
      download or the remote update fails the count is set back and the parent is
      told again. */
  function DownloadClick(s: ItemState, id: string, hasListener: bool, ok: bool): (r: DownloadOutcome)
    ensures r.state == s.(downloadCount := r.state.downloadCount)
    ensures r.state.downloadCount == s.downloadCount + (if ok then 1 else 0)
    ensures hasListener ==> r.notified != [] && r.notified[0] == (id, s.downloadCount + 1)
    ensures hasListener ==> r.notified[|r.notified| - 1] == (id, r.state.downloadCount)
    ensures |r.notified| == (if !hasListener then 0 else if ok then 1 else 2)
  {
    var newCount := s.downloadCount + 1;
    var n1 := if hasListener then [(id, newCount)] else [];
    if ok then DownloadOutcome(s.(downloadCount := newCount), n1)
    else DownloadOutcome(s, n1 + (if hasListener then [(id, s.downloadCount)] else []))
  }

  datatype BadgeStyle = Purple | Blue

  datatype Badge = Badge(text: string, style: BadgeStyle)

  /** The resolution badge: shown for '4k' and 'hd' but not for 'sd' or a missing
      resolution, labelled with the upper-cased tier, purple for '4k' only. */
  function ResolutionBadge(w: Wallpaper): (r: Option<Badge>)
    ensures r.Some? <==> w.resolution.Some? && w.resolution.value != Sd
    ensures r.Some? ==> (r.value.style == Purple <==> w.resolution == Some(UltraHd))
    ensures r.Some? ==> r.value.text == (if w.resolution == Some(UltraHd) then "4K" else "HD")
  {
    match w.resolution
    case Some(UltraHd) => Some(Badge("4K", Purple))
    case Some(Hd) => Some(Badge("HD", Blue))
    case _ => None
  }
}
