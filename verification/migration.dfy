/** The one-off back-fill script (updateWallpapers.js): for every stored wallpaper
    that has an image URL but no storage path, derive the path from the URL and stage
    an update; commit the batch only when something was staged. */
module Migration {
  import opened Optional
  import opened Text
  import Uri
  import opened Wallpapers

  /** `new URL(url).pathname`; `None` when the URL does not parse. */
  type PathnameOf = string -> Option<string>

  /** A prefix of a text free of `/o/` is free of it too. */
  lemma NoMarkerInPrefix(a: string, b: string)
    requires a <= b && !Contains(b, "/o/")
    ensures !Contains(a, "/o/")
  {
    ContainsIffOccurs(a, "/o/");
    ContainsIffOccurs(b, "/o/");
  }

  /** `s.split('/o/')[0].split('?')[0]`: the text up to the first `/o/` or the first
      `?`, whichever comes first. */
  function CutSegment(rest: string): (seg: string)
    ensures seg <= rest
    ensures '?' !in seg && !Contains(seg, "/o/")
    ensures forall j :: 0 <= j < |seg| ==> !OccursAt(rest, "/o/", j)
    ensures |seg| == |rest| || rest[|seg|] == '?' || OccursAt(rest, "/o/", |seg|)
  {
    var piece := BeforeFirst(rest, "/o/");
    var seg := BeforeFirst(piece, "?");
    ContainsChar(seg, '?');
    NoMarkerInPrefix(seg, piece);
    assert seg != piece ==> rest[|seg|] == '?' by {
      if seg != piece {
        assert piece[|seg|..|seg| + 1] == "?";
        assert rest[|seg|] == piece[|seg|] == piece[|seg|..|seg| + 1][0];
      }
    }
    seg
  }

  /** The properties of `CutSegment` pin it down: any prefix free of `?` that has no
      `/o/` starting inside it and that ends at the end, a `?` or a `/o/` is the
      segment. */
  lemma CutSegmentUnique(rest: string, seg: string)
    requires seg <= rest && '?' !in seg
    requires forall j :: 0 <= j < |seg| ==> !OccursAt(rest, "/o/", j)
    requires |seg| == |rest| || rest[|seg|] == '?' || OccursAt(rest, "/o/", |seg|)
    ensures seg == CutSegment(rest)
  {
    var c := CutSegment(rest);
    assert |seg| == |c|;
    assert seg == rest[..|seg|] && c == rest[..|c|];
  }

  /** The object segment of a Firebase Storage download URL: the text after the first
      `/o/`, cut at any later `/o/` and then at the first `?`. */
  function StorageSegment(url: string): (seg: string)
    requires Contains(url, "/o/")
    ensures IndexOf(url, "/o/").Some?
    ensures var rest := url[IndexOf(url, "/o/").value + 3..];
      && seg <= rest
      && '?' !in seg && !Contains(seg, "/o/")
      && (forall j :: 0 <= j < |seg| ==> !OccursAt(rest, "/o/", j))
      && (|seg| == |rest| || rest[|seg|] == '?' || OccursAt(rest, "/o/", |seg|))
  {
    ContainsIffOccurs(url, "/o/");
    CutSegment(url[IndexOf(url, "/o/").value + 3..])
  }

  /** `getImagePath`: a falsy URL gives nothing; a Storage URL gives its decoded
      object segment; any other URL gives the decoded last segment of its path. A
      URL that does not parse or an escape that does not decode gives nothing. */
  function ImagePath(url: string, pathname: PathnameOf): (r: Option<string>)
    ensures url == "" ==> r == None
    ensures url != "" && Contains(url, "/o/") ==> r == Uri.Decode(StorageSegment(url))
    ensures url != "" && !Contains(url, "/o/") && pathname(url).None? ==> r == None
    ensures url != "" && !Contains(url, "/o/") && pathname(url).Some? ==>
      r == Uri.Decode(AfterLast(pathname(url).value, '/'))
  {
    if url == "" then None
    else if Contains(url, "/o/") then Uri.Decode(StorageSegment(url))
    else
      match pathname(url)
      case None => None
      case Some(p) => Uri.Decode(AfterLast(p, '/'))
  }

  /** `url` agrees with `prefix + "/o/"` on its first `|prefix| + 3` characters. */
  lemma MarkerPrefix(url: string, prefix: string, tail: string)
    requires url == prefix + "/o/" + tail
    ensures url[..|prefix| + 3] == prefix + "/o/"
    ensures url[|prefix| + 3..] == tail
    ensures OccursAt(url, "/o/", |prefix|)
    ensures forall j :: 0 <= j < |prefix| ==> (OccursAt(url, "/o/", j) <==> OccursAt(prefix + "/o/", "/o/", j))
  {
    forall j | 0 <= j < |prefix|
      ensures OccursAt(url, "/o/", j) <==> OccursAt(prefix + "/o/", "/o/", j)
    {
      assert url[j..j + 3] == (prefix + "/o/")[j..j + 3];
    }
  }

  /** A segment free of `/` and `?`, followed by `?`, is cut exactly at that `?`. */
  lemma CutAtQuery(rest: string, e: string, query: string)
    requires rest == e + "?" + query
    requires '/' !in e && '?' !in e
    ensures CutSegment(rest) == e
  {
    var seg := CutSegment(rest);
    assert forall k :: 0 <= k < |e| ==> rest[k] == e[k];
    assert rest[|e|] == '?';
    forall k | 0 <= k < |e|
      ensures !OccursAt(rest, "/o/", k)
    {
      if k + 3 <= |rest| {
        assert rest[k..k + 3][0] == rest[k];
      }
    }
    assert |seg| == |e|;
    assert seg == rest[..|e|] == e;
  }

  /** A Storage download URL built from an encoded object path, with any query after
      it, yields that path back, provided the `/o/` marker is the first one. */
  lemma {:induction false} StorageUrlRoundTrip(prefix: string, path: string, query: string, pathname: PathnameOf)
    requires forall j :: 0 <= j < |prefix| ==> !OccursAt(prefix + "/o/", "/o/", j)
    ensures ImagePath(prefix + "/o/" + Uri.Encode(path) + "?" + query, pathname) == Some(path)
  {
    var e := Uri.Encode(path);
    var url := prefix + "/o/" + e + "?" + query;
    assert url == prefix + "/o/" + (e + "?" + query);
    MarkerPrefix(url, prefix, e + "?" + query);
    ContainsIffOccurs(url, "/o/");
    var i := IndexOf(url, "/o/").value;
    assert i == |prefix|;
    Uri.EncodeAlphabet(path);
    CutAtQuery(url[i + 3..], e, query);
    assert StorageSegment(url) == e;
    Uri.DecodeEncode(path);
  }

  /** The last segment of a path whose final part holds no `/` is that part. */
  lemma {:induction false} LastSegment(dir: string, e: string)
    requires '/' !in e
    ensures AfterLast(dir + "/" + e, '/') == e
    decreases |e|
  {
    var p := dir + "/" + e;
    if e == [] {
      assert p[|p| - 1] == '/';
    } else {
      var n := |e| - 1;
      assert p[..|p| - 1] == dir + "/" + e[..n];
      assert p[|p| - 1] == e[n];
      assert e[n] in e;
      assert forall c :: c in e[..n] ==> c in e;
      LastSegment(dir, e[..n]);
      assert e[..n] + [e[n]] == e;
    }
  }

  /** Any other URL yields the decoded last segment of its path. */
  lemma PathUrlRoundTrip(url: string, dir: string, name: string, pathname: PathnameOf)
    requires url != "" && !Contains(url, "/o/")
    requires pathname(url) == Some(dir + "/" + Uri.Encode(name))
    ensures ImagePath(url, pathname) == Some(name)
  {
    Uri.EncodeAlphabet(name);
    LastSegment(dir, Uri.Encode(name));
    Uri.DecodeEncode(name);
  }

  /** `data.imageUrl && !data.imagePath`: the record has a URL but no path yet. */
  predicate NeedsPath(w: Wallpaper)
  {
    w.imageUrl != "" && !TruthyString(w.imagePath)
  }

  /** A staged `batch.update(doc.ref, { imagePath })`. */
  datatype Update = Update(id: string, imagePath: string)

  /** The update the script stages for one record, if any: a record that needs a path
      and whose URL yields a non-empty one. */
  function UpdateFor(w: Wallpaper, pathname: PathnameOf): (r: Option<Update>)
    ensures r.Some? ==> NeedsPath(w) && r.value.id == w.id && r.value.imagePath != ""
    ensures r.Some? ==> ImagePath(w.imageUrl, pathname) == Some(r.value.imagePath)
    ensures r.None? ==> !NeedsPath(w) || ImagePath(w.imageUrl, pathname) in {None, Some("")}
  {
    if !NeedsPath(w) then None
    else
      match ImagePath(w.imageUrl, pathname)
      case Some(p) => if p != "" then Some(Update(w.id, p)) else None
      case None => None
  }

  /** The values `f` yields along `s`, in order, skipping the `None`s. */
  function Collect<T, U>(s: seq<T>, f: T -> Option<U>): (r: seq<U>)
    ensures |r| <= |s|
  {
    if s == [] then []
    else Collect(s[..|s| - 1], f) + (match f(s[|s| - 1]) case Some(u) => [u] case None => [])
  }

  /** A value is collected exactly when some element yields it. */
  lemma {:induction false} CollectMembership<T, U>(s: seq<T>, f: T -> Option<U>, u: U)
    ensures u in Collect(s, f) <==> exists i :: 0 <= i < |s| && f(s[i]) == Some(u)
  {
    if s != [] {
      var init := s[..|s| - 1];
      var n := |s| - 1;
      CollectMembership(init, f, u);
      if u in Collect(s, f) && u in Collect(init, f) {
        var i :| 0 <= i < |init| && f(init[i]) == Some(u);
        assert init[i] == s[i];
      }
      if exists i :: 0 <= i < |s| && f(s[i]) == Some(u) {
        var i :| 0 <= i < |s| && f(s[i]) == Some(u);
        if i < n {
          assert init[i] == s[i];
        }
      }
    }
  }

  /** `UpdateFor` as a value, for a fixed URL parser. */
  function Stager(pathname: PathnameOf): Wallpaper -> Option<Update>
  {
    w => UpdateFor(w, pathname)
  }

  /** The updates staged for a snapshot, in snapshot order. */
  function Selected(docs: seq<Wallpaper>, pathname: PathnameOf): (r: seq<Update>)
    ensures |r| <= |docs|
  {
    Collect(docs, Stager(pathname))
  }

  /** An update is staged exactly when some record of the snapshot produces it. */
  lemma SelectedMembership(docs: seq<Wallpaper>, pathname: PathnameOf, u: Update)
    ensures u in Selected(docs, pathname) <==> exists i :: 0 <= i < |docs| && UpdateFor(docs[i], pathname) == Some(u)
  {
    CollectMembership(docs, Stager(pathname), u);
  }

  /** The snapshot after the committed batch: each staged record gets its path. */
  function Migrated(docs: seq<Wallpaper>, pathname: PathnameOf): (r: seq<Wallpaper>)
    ensures |r| == |docs|
    ensures forall i :: 0 <= i < |docs| ==> r[i] == (match UpdateFor(docs[i], pathname)
      case Some(u) => docs[i].(imagePath := Some(u.imagePath))
      case None => docs[i])
  {
    seq(|docs|, i requires 0 <= i < |docs| =>
      match UpdateFor(docs[i], pathname)
      case Some(u) => docs[i].(imagePath := Some(u.imagePath))
      case None => docs[i])
  }

  /** Running the script again after a committed batch stages nothing. */
  lemma MigrationIsIdempotent(docs: seq<Wallpaper>, pathname: PathnameOf)
    ensures Selected(Migrated(docs, pathname), pathname) == []
  {
    var m := Migrated(docs, pathname);
    forall i | 0 <= i < |m|
      ensures UpdateFor(m[i], pathname).None?
    {
      if UpdateFor(docs[i], pathname).Some? {
        assert TruthyString(m[i].imagePath);
      }
    }
    if Selected(m, pathname) != [] {
      var u := Selected(m, pathname)[0];
      SelectedMembership(m, pathname, u);
    }
  }

  /** What the script does with a snapshot. */
  /** One more record of the snapshot adds its update, if any, at the end. */
  lemma SelectedStep(docs: seq<Wallpaper>, i: nat, pathname: PathnameOf)
    requires i < |docs|
    ensures Selected(docs[..i + 1], pathname) == Selected(docs[..i], pathname)
      + (match UpdateFor(docs[i], pathname) case Some(u) => [u] case None => [])
  {
    assert docs[..i + 1][..i] == docs[..i];
  }

  /** Something is staged exactly when some record of the snapshot produces an update. */
  lemma SomethingSelected(docs: seq<Wallpaper>, pathname: PathnameOf)
    ensures Selected(docs, pathname) != [] <==> exists i :: 0 <= i < |docs| && UpdateFor(docs[i], pathname).Some?
  {
    var updates := Selected(docs, pathname);
    if updates != [] {
      SelectedMembership(docs, pathname, updates[0]);
    }
    if exists k :: 0 <= k < |docs| && UpdateFor(docs[k], pathname).Some? {
      var k :| 0 <= k < |docs| && UpdateFor(docs[k], pathname).Some?;
      SelectedMembership(docs, pathname, UpdateFor(docs[k], pathname).value);
    }
  }

  datatype Outcome =
    | NoDocuments
    | Staged(updates: seq<Update>, updateCount: nat, committed: bool)

  /** `updateWallpapers`: an empty snapshot stops early; otherwise one pass stages the
      updates, and the batch is committed only when the count is positive. */
  method UpdateWallpapers(docs: seq<Wallpaper>, pathname: PathnameOf) returns (r: Outcome)
    ensures r.NoDocuments? <==> docs == []
    ensures r.Staged? ==> r.updates == Selected(docs, pathname) && r.updateCount == |r.updates|
    ensures r.Staged? ==> (r.committed <==> exists i :: 0 <= i < |docs| && UpdateFor(docs[i], pathname).Some?)
  {
    if docs == [] {
      return NoDocuments;
    }
    var updates: seq<Update> := [];
    var updateCount := 0;
    var i := 0;
    while i < |docs|
      invariant 0 <= i <= |docs|
      invariant updates == Selected(docs[..i], pathname)
      invariant updateCount == |updates|
    {
      SelectedStep(docs, i, pathname);
      match UpdateFor(docs[i], pathname) {
        case Some(u) =>
          updates := updates + [u];
          updateCount := updateCount + 1;
        case None =>
      }
      i := i + 1;
    }
    assert docs[..|docs|] == docs;
    SomethingSelected(docs, pathname);
    r := Staged(updates, updateCount, updateCount > 0);
  }
}
