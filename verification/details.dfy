/** The wallpaper detail page (components/WallpaperDetails.js): tag-based
    recommendations, the like and download counters with their rollback, and the
    displayed title. Image loads, the remote counter updates and the download itself
    are parameters. */
module Details {
  import opened Optional
  import opened Wallpapers
  import opened Storage
  import Seqs
  import StableSort
  import Text

  // ---------------------------------------------------------------- recommendations

  /** `getImageDimensions(url)`: no URL gives no dimensions, otherwise the image load. */
  function ImageDimensions(url: string, probe: Probe): (r: Option<Dims>)
    ensures url == "" ==> r.None?
  {
    if url == "" then None else probe(url)
  }

  /** `{ ...w, ...dims }`: the stored width and height are replaced by the loaded
      ones, both missing when the load fails. */
  function WithLoadedDims(w: Wallpaper, probe: Probe): (r: Wallpaper)
    ensures r == w.(width := r.width, height := r.height)
    ensures ImageDimensions(w.imageUrl, probe).Some? ==>
      && r.width == Some(ImageDimensions(w.imageUrl, probe).value.width as int)
      && r.height == Some(ImageDimensions(w.imageUrl, probe).value.height as int)
    ensures ImageDimensions(w.imageUrl, probe).None? ==> r.width.None? && r.height.None?
  {
    match ImageDimensions(w.imageUrl, probe)
    case Some(d) => w.(width := Some(d.width as int), height := Some(d.height as int))
    case None => w.(width := None, height := None)
  }

  datatype Recommendation = Recommendation(wallpaper: Wallpaper, commonTags: nat)

  function CommonTags(r: Recommendation): int
  {
    r.commonTags
  }

  /** The tags of `w` that the main wallpaper also has, compared exactly. */
  function SharedTags(tags: seq<string>, mainTags: set<string>): (r: seq<string>)
    ensures Seqs.Subsequence(r, tags)
    ensures forall t :: multiset(r)[t] == if t in mainTags then multiset(tags)[t] else 0
    ensures forall t :: t in r <==> t in tags && t in mainTags
  {
    var p := InSet(mainTags);
    var shared := Seqs.Filter(tags, p);
    Seqs.FilterIsSubsequence(tags, p);
    assert forall t :: multiset(shared)[t] == (if t in mainTags then multiset(tags)[t] else 0)
                    && (t in shared <==> t in tags && t in mainTags) by {
      forall t
        ensures multiset(shared)[t] == if t in mainTags then multiset(tags)[t] else 0
        ensures t in shared <==> t in tags && t in mainTags
      {
        Seqs.FilterMultiplicity(tags, p, t);
        Seqs.FilterMembership(tags, p, t);
      }
    }
    shared
  }

  /** Membership in the main wallpaper's tag set (`mainTags.has`). */
  function InSet(mainTags: set<string>): string -> bool
  {
    t => t in mainTags
  }

  /** The tags of the main wallpaper as a set (`new Set(wallpaper.tags || [])`). */
  function TagSet(w: Wallpaper): set<string>
  {
    if w.tags.Some? then set t | t in w.tags.value else {}
  }

  /** A record (with loaded dimensions) is a candidate: not the main wallpaper, both
      dimensions truthy, the same orientation, and at least one tag in common. */
  predicate IsCandidate(w: Wallpaper, main: Wallpaper, mainOrientation: Orientation, mainTags: set<string>)
  {
    && w.id != main.id
    && TruthyInt(w.width) && TruthyInt(w.height)
    && OrientationOf(w.width.value, w.height.value) == mainOrientation
    && w.tags.Some? && |w.tags.value| > 0
    && exists i :: 0 <= i < |w.tags.value| && w.tags.value[i] in mainTags
  }

  function Score(w: Wallpaper, mainTags: set<string>): Recommendation
  {
    Recommendation(w, if w.tags.Some? then |SharedTags(w.tags.value, mainTags)| else 0)
  }

  function ScoreAll(ws: seq<Wallpaper>, mainTags: set<string>): (r: seq<Recommendation>)
    ensures |r| == |ws|
    ensures forall i :: 0 <= i < |ws| ==> r[i] == Score(ws[i], mainTags)
  {
    seq(|ws|, i requires 0 <= i < |ws| => Score(ws[i], mainTags))
  }

  function Take<T>(s: seq<T>, n: nat): (r: seq<T>)
    ensures |r| == if |s| <= n then |s| else n
    ensures r <= s
  {
    if |s| <= n then s else s[..n]
  }

  /** The orientation of the main wallpaper when its image loads with a truthy width;
      `None` when recommendations are not computed. */
  function MainOrientation(main: Wallpaper, probe: Probe): Option<Orientation>
  {
    match ImageDimensions(main.imageUrl, probe)
    case Some(d) => if d.width != 0 then Some(OrientationOf(d.width, d.height)) else None
    case None => None
  }

  /** The candidates of `all`, scored, before ranking. */
  function Scored(main: Wallpaper, all: seq<Wallpaper>, probe: Probe, o: Orientation): seq<Recommendation>
  {
    var mainTags := TagSet(main);
    ScoreAll(Seqs.Filter(LoadAll(all, probe), CandidateTest(main, o, mainTags)), mainTags)
  }

  /** Every record with its dimensions loaded, in list order. */
  function LoadAll(all: seq<Wallpaper>, probe: Probe): (r: seq<Wallpaper>)
    ensures |r| == |all|
    ensures forall i :: 0 <= i < |all| ==> r[i] == WithLoadedDims(all[i], probe)
  {
    seq(|all|, i requires 0 <= i < |all| => WithLoadedDims(all[i], probe))
  }

  function CandidateTest(main: Wallpaper, o: Orientation, mainTags: set<string>): Wallpaper -> bool
  {
    w => IsCandidate(w, main, o, mainTags)
  }

  /** Every recommendation is a qualifying record with its common-tag count. */
  predicate Qualifies(r: Recommendation, main: Wallpaper, o: Orientation)
  {
    && IsCandidate(r.wallpaper, main, o, TagSet(main))
    && r.commonTags == |SharedTags(r.wallpaper.tags.value, TagSet(main))|
    && r.commonTags >= 1
  }

  lemma ScoredQualify(main: Wallpaper, all: seq<Wallpaper>, probe: Probe, o: Orientation)
    ensures forall i :: 0 <= i < |Scored(main, all, probe, o)| ==> Qualifies(Scored(main, all, probe, o)[i], main, o)
  {
    var mainTags := TagSet(main);
    var cands := Seqs.Filter(LoadAll(all, probe), CandidateTest(main, o, mainTags));
    forall i | 0 <= i < |cands|
      ensures Qualifies(Score(cands[i], mainTags), main, o)
    {
      var w := cands[i];
      assert IsCandidate(w, main, o, mainTags);
      var j :| 0 <= j < |w.tags.value| && w.tags.value[j] in mainTags;
      assert w.tags.value[j] in SharedTags(w.tags.value, mainTags);
    }
  }

  /** A reordering of qualifying recommendations still qualifies. */
  lemma PermutationQualifies(scored: seq<Recommendation>, ranked: seq<Recommendation>, main: Wallpaper, o: Orientation)
    requires multiset(ranked) == multiset(scored)
    requires forall i :: 0 <= i < |scored| ==> Qualifies(scored[i], main, o)
    ensures forall i :: 0 <= i < |ranked| ==> Qualifies(ranked[i], main, o)
  {
    forall i | 0 <= i < |ranked|
      ensures Qualifies(ranked[i], main, o)
    {
      assert multiset(scored)[ranked[i]] > 0;
      var j :| 0 <= j < |scored| && scored[j] == ranked[i];
    }
  }

  /** The recommendation effect: `None` when it returns early (no other wallpapers, or
      the main image has no truthy width), else at most three qualifying records,
      ranked by descending common-tag count. */
  function Recommend(main: Wallpaper, all: seq<Wallpaper>, probe: Probe): (r: Option<seq<Recommendation>>)
    ensures r.None? <==> all == [] || MainOrientation(main, probe).None?
    ensures r.Some? ==> |r.value| <= 3
    ensures r.Some? ==> StableSort.SortedDesc(r.value, CommonTags)
    ensures r.Some? ==> forall i :: 0 <= i < |r.value| ==> Qualifies(r.value[i], main, MainOrientation(main, probe).value)
  {
    if all == [] then None
    else match MainOrientation(main, probe)
      case None => None
      case Some(o) =>
        var scored := Scored(main, all, probe, o);
        var ranked := StableSort.SortDesc(scored, CommonTags);
        ScoredQualify(main, all, probe, o);
        PermutationQualifies(scored, ranked, main, o);
        var recs := Take(ranked, 3);
        assert forall i :: 0 <= i < |recs| ==> recs[i] == ranked[i];
        Some(recs)
  }

  /** The recommendations are the top of a stable ranking of all candidates: every
      candidate left out has no more tags in common than the third one chosen, and
      candidates with equal counts keep their order in the list. */
  lemma RecommendationsAreTopThree(main: Wallpaper, all: seq<Wallpaper>, probe: Probe)
    requires all != [] && MainOrientation(main, probe).Some?
    ensures
      var o := MainOrientation(main, probe).value;
      var scored := Scored(main, all, probe, o);
      var recs := Recommend(main, all, probe).value;
      && (forall x :: x in scored && x !in recs ==> |recs| == 3 && x.commonTags <= recs[2].commonTags)
      && (forall x :: x in recs ==> x in scored)
      && exists ranked :: StableSort.IsStableSortDesc(ranked, scored, CommonTags) && recs <= ranked
  {
    var o := MainOrientation(main, probe).value;
    var scored := Scored(main, all, probe, o);
    var ranked := StableSort.SortDesc(scored, CommonTags);
    StableSort.SortDescIsStable(scored, CommonTags);
    assert Recommend(main, all, probe).value == Take(ranked, 3);
    TopOfRanking(scored, ranked);
  }

  /** The first three of a descending ranking: nothing left out beats the third, and
      nothing chosen is new. */
  lemma TopOfRanking(scored: seq<Recommendation>, ranked: seq<Recommendation>)
    requires StableSort.SortedDesc(ranked, CommonTags) && multiset(ranked) == multiset(scored)
    ensures var recs := Take(ranked, 3);
      && (forall x :: x in scored && x !in recs ==> |recs| == 3 && x.commonTags <= recs[2].commonTags)
      && (forall x :: x in recs ==> x in scored)
  {
    var recs := Take(ranked, 3);
    forall x | x in scored && x !in recs
      ensures |recs| == 3 && x.commonTags <= recs[2].commonTags
    {
      assert multiset(ranked)[x] > 0;
      var i :| 0 <= i < |ranked| && ranked[i] == x;
      assert i >= 3;
    }
    forall x | x in recs
      ensures x in scored
    {
      assert x in ranked;
      assert multiset(ranked)[x] > 0;
    }
  }

  /** A record with tags and likes only, for the scenario below. */
  function Tagged(id: string, tags: seq<string>, likes: int): Wallpaper
  {
    Wallpaper(id, "u" + id, None, Some(tags), Some(likes), None, None, None, None, None, None)
  }

  lemma ScenarioScored(probe: Probe)
    requires forall u :: probe(u) == Some(Dims(1080, 1920))
    ensures
      var w1, w2, w3 := Tagged("1", ["nature"], 5), Tagged("2", ["nature", "city"], 9), Tagged("3", ["city"], 2);
      Scored(w1, [w1, w2, w3], probe, Phone) == [Recommendation(WithLoadedDims(w2, probe), 1)]
  {
    var w1, w2, w3 := Tagged("1", ["nature"], 5), Tagged("2", ["nature", "city"], 9), Tagged("3", ["city"], 2);
    var mainTags := TagSet(w1);
    assert mainTags == {"nature"};
    var l1, l2, l3 := WithLoadedDims(w1, probe), WithLoadedDims(w2, probe), WithLoadedDims(w3, probe);
    assert LoadAll([w1, w2, w3], probe) == [l1, l2, l3];
    var p := CandidateTest(w1, Phone, mainTags);
    assert !p(l1);
    assert p(l2) by {
      assert l2.tags.value[0] in mainTags;
    }
    assert !p(l3) by {
      assert "city" != "nature";
    }
    Seqs.FilterCons(l1, [l2, l3], p);
    Seqs.FilterCons(l2, [l3], p);
    Seqs.FilterCons(l3, [], p);
    assert [l1, l2, l3] == [l1] + [l2, l3];
    assert [l2, l3] == [l2] + [l3];
    assert SharedTags(l2.tags.value, mainTags) == ["nature"] by {
      var q := t => t in mainTags;
      Seqs.FilterCons("nature", ["city"], q);
      Seqs.FilterCons("city", [], q);
      assert ["nature", "city"] == ["nature"] + ["city"];
    }
  }

  /** A worked scenario: liking wallpaper 1 (tag "nature") recommends wallpaper 2,
      which shares "nature", and not wallpaper 3, which shares nothing, whatever
      their like counts. */
  lemma RecommendScenario(probe: Probe)
    requires forall u :: probe(u) == Some(Dims(1080, 1920))
    ensures
      var w1, w2, w3 := Tagged("1", ["nature"], 5), Tagged("2", ["nature", "city"], 9), Tagged("3", ["city"], 2);
      var r := Recommend(w1, [w1, w2, w3], probe);
      r.Some? && |r.value| == 1 && r.value[0].wallpaper.id == "2" && r.value[0].commonTags == 1
  {
    var w1, w2, w3 := Tagged("1", ["nature"], 5), Tagged("2", ["nature", "city"], 9), Tagged("3", ["city"], 2);
    assert MainOrientation(w1, probe) == Some(Phone);
    ScenarioScored(probe);
    var scored := Scored(w1, [w1, w2, w3], probe, Phone);
    assert StableSort.SortDesc(scored, CommonTags) == scored;
  }

  // ---------------------------------------------------------------- counters

  datatype DetailState = DetailState(
    isLiked: bool,
    likeCount: int,
    downloadCount: int,
    recommendations: seq<Recommendation>)

  /** The state once the mount effects ran: counts from the record (missing ones read
      as 0), the like flag from storage, no recommendations yet. */
  function InitialDetail(w: Wallpaper, storage: Storage): (s: DetailState)
    ensures s.likeCount == LikesOf(w) && s.downloadCount == DownloadsOf(w)
    ensures s.isLiked <==> IsLikedIn(storage, w.id)
    ensures s.recommendations == []
  {
    DetailState(IsLikedIn(storage, w.id), LikesOf(w), DownloadsOf(w), [])
  }

  /** `handleLikeClick`: the flag flips, the count moves by one in the direction of the
      new flag, and storage records the new flag; when the remote update fails all
      three are set back. */
  function LikeClick(s: DetailState, storage: Storage, id: string, remoteOk: bool): (r: (DetailState, Storage))
    ensures r.0 == s.(isLiked := r.0.isLiked, likeCount := r.0.likeCount)
    ensures r.1 == storage[LikedKey(id) := StoredBool(r.0.isLiked)]
    ensures remoteOk ==> r.0.isLiked == !s.isLiked && r.0.likeCount == s.likeCount + (if s.isLiked then -1 else 1)
    ensures !remoteOk ==> r.0 == s
    ensures !remoteOk && LikedKey(id) in storage && storage[LikedKey(id)] == StoredBool(s.isLiked) ==> r.1 == storage
  {
    var liked := !s.isLiked;
    var delta := if liked then 1 else -1;
    var s1 := s.(isLiked := liked, likeCount := s.likeCount + delta);
    var st1 := storage[LikedKey(id) := StoredBool(liked)];
    if remoteOk then (s1, st1)
    else (s1.(isLiked := !liked, likeCount := s1.likeCount - delta), st1[LikedKey(id) := StoredBool(!liked)])
  }

  /** Liking and then unliking, both confirmed, restores the flag and the count, and
      leaves storage agreeing with the flag. */
  lemma LikeTwiceRestores(s: DetailState, storage: Storage, id: string)
    ensures
      var (s1, st1) := LikeClick(s, storage, id, true);
      var (s2, st2) := LikeClick(s1, st1, id, true);
      s2 == s && IsLikedIn(st2, id) == s.isLiked
  {
    var (s1, st1) := LikeClick(s, storage, id, true);
    StoreThenRead(st1, id, s.isLiked, id);
  }

  /** A failed like leaves the stored flag reading as it did before the click
      whenever storage agreed with the flag. */
  lemma FailedLikeKeepsStoredFlag(s: DetailState, storage: Storage, id: string)
    requires IsLikedIn(storage, id) == s.isLiked
    ensures IsLikedIn(LikeClick(s, storage, id, false).1, id) == IsLikedIn(storage, id)
  {
    StoreThenRead(storage, id, s.isLiked, id);
  }

  /** `handleDownload`: the count rises by one at once and drops by one again when the
      download or the remote update fails. */
  function DownloadClick(s: DetailState, ok: bool): (r: DetailState)
    ensures r == s.(downloadCount := r.downloadCount)
    ensures r.downloadCount == s.downloadCount + (if ok then 1 else 0)
  {
    var s1 := s.(downloadCount := s.downloadCount + 1);
    if ok then s1 else s1.(downloadCount := s1.downloadCount - 1)
  }

  /** `handleRecommendationLike`: the recommendation with the liked id takes the new
      like count; the others and the order are unchanged. */
  function RecommendationLike(recs: seq<Recommendation>, likedId: string, newLikes: int): (r: seq<Recommendation>)
    ensures |r| == |recs|
    ensures forall i :: 0 <= i < |recs| && recs[i].wallpaper.id != likedId ==> r[i] == recs[i]
    ensures forall i :: 0 <= i < |recs| && recs[i].wallpaper.id == likedId ==>
      && LikesOf(r[i].wallpaper) == newLikes
      && r[i] == recs[i].(wallpaper := recs[i].wallpaper.(likes := r[i].wallpaper.likes))
  {
    seq(|recs|, i requires 0 <= i < |recs| =>
      if recs[i].wallpaper.id == likedId then recs[i].(wallpaper := recs[i].wallpaper.(likes := Some(newLikes)))
      else recs[i])
  }

  /** Liking a recommendation twice with the same count is liking it once, and the
      ids keep their order. */
  lemma RecommendationLikeIdempotent(recs: seq<Recommendation>, likedId: string, newLikes: int)
    ensures RecommendationLike(RecommendationLike(recs, likedId, newLikes), likedId, newLikes)
         == RecommendationLike(recs, likedId, newLikes)
    ensures forall i :: 0 <= i < |recs| ==> RecommendationLike(recs, likedId, newLikes)[i].wallpaper.id == recs[i].wallpaper.id
  {
  }

  // ---------------------------------------------------------------- title

  /** The title when truthy, else the tags joined by ", ", else "Untitled Wallpaper". */
  function DisplayTitle(w: Wallpaper): (r: string)
    ensures TruthyString(w.title) ==> r == w.title.value
    ensures !TruthyString(w.title) && w.tags.Some? && |w.tags.value| > 0 ==>
      && r == Text.Join(w.tags.value, ", ")
      && w.tags.value[0] <= r
      && |r| == Text.TotalLength(w.tags.value) + 2 * (|w.tags.value| - 1)
    ensures !TruthyString(w.title) && (w.tags.None? || w.tags.value == []) ==> r == "Untitled Wallpaper"
  {
    if TruthyString(w.title) then w.title.value
    else if w.tags.Some? && |w.tags.value| > 0 then
      Text.JoinLength(w.tags.value, ", ");
      Text.Join(w.tags.value, ", ")
    else "Untitled Wallpaper"
  }
}
