/**
 * `get_best_video`: search one term, filter, rank, and hand out the first
 * link that the caller's registry of used links does not hold yet,
 * recording it in that registry.
 */
module Selection {
  import opened Wrappers
  import opened PexelsSearch
  import opened Ranking

  /** The `used_vids` list the caller passes in and `get_best_video`
      appends to. */
  class Registry {
    var links: seq<string>

    constructor ()
      ensures links == []
    {
      links := [];
    }
  }

  /** The first link of `files` not in `used`. */
  function FirstUnusedFile(files: seq<string>, used: seq<string>): Option<string> {
    if files == [] then None
    else if files[0] !in used then Some(files[0])
    else FirstUnusedFile(files[1..], used)
  }

  /** The nested scan: videos in ranked order, each video's files in order. */
  function Pick(ranked: seq<Video>, used: seq<string>): Option<string> {
    if ranked == [] then None
    else
      match FirstUnusedFile(ranked[0].files, used)
      case Some(link) => Some(link)
      case None => Pick(ranked[1..], used)
  }

  /** File `b` of video `a` is unused, and every file before it in
      video-then-file order is used. */
  ghost predicate FirstUnusedAt(ranked: seq<Video>, used: seq<string>, a: int, b: int) {
    && 0 <= a < |ranked| && 0 <= b < |ranked[a].files|
    && ranked[a].files[b] !in used
    && (forall a', b' :: 0 <= a' < a && 0 <= b' < |ranked[a'].files| ==> ranked[a'].files[b'] in used)
    && (forall b' :: 0 <= b' < b ==> ranked[a].files[b'] in used)
  }

  lemma {:induction false} FirstUnusedFileSpec(files: seq<string>, used: seq<string>)
    ensures FirstUnusedFile(files, used).None? <==> forall b :: 0 <= b < |files| ==> files[b] in used
    ensures FirstUnusedFile(files, used).Some? ==>
      exists b :: 0 <= b < |files| && files[b] == FirstUnusedFile(files, used).value
        && files[b] !in used && forall b' :: 0 <= b' < b ==> files[b'] in used
  {
    if files != [] && files[0] in used {
      FirstUnusedFileSpec(files[1..], used);
      if FirstUnusedFile(files, used).Some? {
        var b :| 0 <= b < |files[1..]| && files[1..][b] == FirstUnusedFile(files, used).value
          && files[1..][b] !in used && forall b' :: 0 <= b' < b ==> files[1..][b'] in used;
        assert files[b + 1] == files[1..][b];
        forall b' | 0 <= b' < b + 1 ensures files[b'] in used {
          if b' > 0 { assert files[b'] == files[1..][b' - 1]; }
        }
      } else {
        forall b | 0 <= b < |files| ensures files[b] in used {
          if b > 0 { assert files[b] == files[1..][b - 1]; }
        }
      }
    } else if files != [] {
      assert files[0] !in used;
    }
  }

  /** The link handed out is the first unused one in ranked-video-then-file
      order, and no link is handed out exactly when every file of every
      ranked video is already used. */
  lemma {:induction false} PickFirstUnused(ranked: seq<Video>, used: seq<string>)
    ensures Pick(ranked, used).None? <==>
      forall a, b :: 0 <= a < |ranked| && 0 <= b < |ranked[a].files| ==> ranked[a].files[b] in used
    ensures Pick(ranked, used).Some? ==>
      exists a, b :: FirstUnusedAt(ranked, used, a, b) && ranked[a].files[b] == Pick(ranked, used).value
  {
    if ranked != [] {
      FirstUnusedFileSpec(ranked[0].files, used);
      if FirstUnusedFile(ranked[0].files, used).None? {
        PickFirstUnused(ranked[1..], used);
        if Pick(ranked, used).Some? {
          var a, b :| FirstUnusedAt(ranked[1..], used, a, b) && ranked[1..][a].files[b] == Pick(ranked, used).value;
          assert ranked[a + 1] == ranked[1..][a];
          forall a', b' | 0 <= a' < a + 1 && 0 <= b' < |ranked[a'].files|
            ensures ranked[a'].files[b'] in used
          {
            if a' > 0 { assert ranked[a'] == ranked[1..][a' - 1]; }
          }
          assert FirstUnusedAt(ranked, used, a + 1, b);
        } else {
          forall a, b | 0 <= a < |ranked| && 0 <= b < |ranked[a].files|
            ensures ranked[a].files[b] in used
          {
            if a > 0 { assert ranked[a] == ranked[1..][a - 1]; }
          }
        }
      } else {
        var b :| 0 <= b < |ranked[0].files| && ranked[0].files[b] == Pick(ranked, used).value
          && ranked[0].files[b] !in used && forall b' :: 0 <= b' < b ==> ranked[0].files[b'] in used;
        assert FirstUnusedAt(ranked, used, 0, b);
      }
    }
  }

  /** What one call of `get_best_video` ends in. */
  datatype Outcome = Link(link: string) | NoLink | Raised(error: Error)

  /** The result of `get_best_video(query, landscape, used)` for a registry
      holding `used`: an empty query returns `None` before searching; a
      search without 'videos' returns `None`; an exception of the search or
      of the filter escapes; otherwise the first unused link of the ranked
      videos, or `None`. */
  function BestVideo(query: string, landscape: bool, catalog: Catalog, used: seq<string>): Outcome {
    if query == "" then NoLink
    else
      match SearchVideos(query, landscape, catalog)
      case NoVideosKey => NoLink
      case SearchFailed(e) => Raised(e)
      case Videos(videos) =>
        match AspectFilter(videos, landscape)
        case Err(e) => Raised(e)
        case Ok(filtered) =>
          match Pick(RankByDuration(filtered), used)
          case Some(link) => Link(link)
          case None => NoLink
  }

  /** The registry after a call that ended in `o`: the handed-out link is
      appended; nothing changes otherwise. */
  function Commit(used: seq<string>, o: Outcome): seq<string> {
    if o.Link? then used + [o.link] else used
  }

  /** A handed-out link was not used before, comes from the provider's
      answer to this very query, and belongs to a video the filter keeps
      (16:9 in landscape mode). */
  lemma BestVideoLinkIsFresh(query: string, landscape: bool, catalog: Catalog, used: seq<string>)
    requires BestVideo(query, landscape, catalog, used).Link?
    ensures var link := BestVideo(query, landscape, catalog, used).link;
      && link !in used
      && query != ""
      && catalog(query, landscape).Listing?
      && exists v :: v in catalog(query, landscape).videos && Kept(v, landscape) && link in v.files
  {
    var link := BestVideo(query, landscape, catalog, used).link;
    var videos := catalog(query, landscape).videos;
    var filtered := AspectFilter(videos, landscape).value;
    var ranked := RankByDuration(filtered);
    PickFirstUnused(ranked, used);
    var a, b :| FirstUnusedAt(ranked, used, a, b) && ranked[a].files[b] == link;
    assert ranked[a] in multiset(ranked);
    assert ranked[a] in filtered;
  }

  /** `None` after a successful search means every file of every video
      that passes the filter is already in the registry. */
  lemma BestVideoNoLinkMeansExhausted(query: string, landscape: bool, catalog: Catalog, used: seq<string>)
    requires query != "" && catalog(query, landscape).Listing?
    requires BestVideo(query, landscape, catalog, used) == NoLink
    ensures forall v, f :: v in catalog(query, landscape).videos && Kept(v, landscape) && f in v.files ==> f in used
  {
    var videos := catalog(query, landscape).videos;
    var filtered := AspectFilter(videos, landscape).value;
    var ranked := RankByDuration(filtered);
    PickFirstUnused(ranked, used);
    forall v, f | v in videos && Kept(v, landscape) && f in v.files
      ensures f in used
    {
      assert v in multiset(filtered);
      assert v in multiset(ranked);
      var a :| 0 <= a < |ranked| && ranked[a] == v;
      var b :| 0 <= b < |v.files| && v.files[b] == f;
    }
  }

  /** `get_best_video(query, landscape, usedVids)`. The registry gains exactly the
      handed-out link, at its end; an empty query, a missing 'videos' key,
      an exhausted ranking and an exception all leave it unchanged. */
  method GetBestVideo(query: string, landscape: bool, catalog: Catalog, usedVids: Registry)
    returns (outcome: Outcome)
    modifies usedVids
    ensures outcome == BestVideo(query, landscape, catalog, old(usedVids.links))
    ensures usedVids.links == Commit(old(usedVids.links), outcome)
    ensures query == "" ==> outcome == NoLink && usedVids.links == old(usedVids.links)
  {
    if query == "" {
      return NoLink;
    }
    var videosData := SearchVideos(query, landscape, catalog);
    if videosData.NoVideosKey? {
      return NoLink;
    } else if videosData.SearchFailed? {
      return Raised(videosData.error);
    }
    var filtered := AspectFilter(videosData.videos, landscape);
    if filtered.Err? {
      return Raised(filtered.error);
    }
    var sortedVideos := RankByDuration(filtered.value);
    ghost var used := usedVids.links;
    var i := 0;
    while i < |sortedVideos|
      invariant 0 <= i <= |sortedVideos|
      invariant usedVids.links == used
      invariant Pick(sortedVideos, used) == Pick(sortedVideos[i..], used)
    {
      var videoFiles := sortedVideos[i].files;
      var j := 0;
      while j < |videoFiles|
        invariant 0 <= j <= |videoFiles|
        invariant usedVids.links == used
        invariant FirstUnusedFile(videoFiles, used) == FirstUnusedFile(videoFiles[j..], used)
      {
        if videoFiles[j] !in usedVids.links {
          usedVids.links := usedVids.links + [videoFiles[j]];
          assert sortedVideos[i..][0] == sortedVideos[i];
          return Link(videoFiles[j]);
        }
        assert videoFiles[j..][1..] == videoFiles[j + 1..];
        j := j + 1;
      }
      assert sortedVideos[i..][0] == sortedVideos[i];
      assert sortedVideos[i..][1..] == sortedVideos[i + 1..];
      i := i + 1;
    }
    return NoLink;
  }
}
