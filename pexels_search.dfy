/**
 * The video search provider, seen from the selection logic.
 *
 * `search_videos` sends one HTTP request to the provider; the network, the
 * API key and the response log are not modelled. What the provider answers
 * for a (query, orientation) pair is an input, `Catalog`, and `SearchVideos`
 * turns that answer into what `search_videos` returns or raises.
 */
module PexelsSearch {

  /** The fields of one video record that the selection reads. `files` holds
      the `link` of each entry of `video_files`, in response order (a record
      without `video_files` has none). `duration` is `int(duration)`. */
  datatype Video = Video(width: int, height: int, duration: int, files: seq<string>)

  /** The provider's answer to one request. */
  datatype Response =
    | Unavailable               // transport failure or HTTP error status
    | Malformed                 // a decoded body that is not a dict with a 'videos' key
    | Listing(videos: seq<Video>)

  /** The provider: query string and "landscape?" flag to its answer. */
  type Catalog = (string, bool) -> Response

  /** The exceptions the selection lets escape to its callers. */
  datatype Error =
    | InvalidStructure          // the ValueError raised for a body without 'videos'
    | ZeroDivision              // width / height with height 0, in landscape mode

  /** What `search_videos` gives back: `{}` (no 'videos' key), the parsed
      response with its video list, or an exception. */
  datatype Search = NoVideosKey | Videos(videos: seq<Video>) | SearchFailed(error: Error)

  /** `search_videos(query, landscape)`: an empty query returns `{}` before
      any request; a failed request is logged and returns `{}`; a body
      without 'videos' raises; otherwise the parsed body is returned. */
  function SearchVideos(query: string, landscape: bool, catalog: Catalog): (r: Search)
    ensures query == "" ==> r == NoVideosKey
    ensures r.Videos? <==> query != "" && catalog(query, landscape).Listing?
    ensures r.Videos? ==> r.videos == catalog(query, landscape).videos
    ensures r.SearchFailed? <==> query != "" && catalog(query, landscape) == Malformed
    ensures r.SearchFailed? ==> r.error == InvalidStructure
  {
    if query == "" then NoVideosKey
    else
      match catalog(query, landscape)
      case Unavailable => NoVideosKey
      case Malformed => SearchFailed(InvalidStructure)
      case Listing(videos) => Videos(videos)
  }
}
