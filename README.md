# Background-clip selection of VideoGenerator, modelled in Dafny

VideoGenerator turns a narration script into a video. For each time interval
of the narration it picks a background clip from the Pexels video search.
This project models that selection logic in
`utility/video/background_video_generator.py` and proves its properties.

* `get_best_video` searches one term. It keeps the videos whose aspect ratio
  passes the filter and ranks them with a stable sort by `|15 - duration|`.
  It then scans the ranked videos, and each video's files, in order, and
  returns the first link that the caller's `used_vids` list does not hold.
  It appends that link to the list.
* `generate_video_url` walks the `((t1, t2), search_terms)` pairs in order.
  One `used_links` list is shared by the whole call. Pairs without terms are
  skipped. For each other pair, the terms are tried in order until one gives
  a truthy URL, and `[[t1, t2], url]` is emitted. Any server other than
  `"pexel"` gives an empty list.

Modules (one file each):

* `Wrappers` (`wrappers.dfy`): `Option` and `Result`.
* `PexelsSearch` (`pexels_search.dfy`): video records, and the provider as an
  input `Catalog` from (query, landscape flag) to its answer. `SearchVideos`
  is what `search_videos` returns or raises for that answer.
* `Ranking` (`ranking.dfy`): the aspect-ratio filter and the stable ranking.
  Both are pure functions.
* `Selection` (`selection.dfy`): the `Registry` class (the `used_vids` list,
  updated in place) and the method `GetBestVideo`, whose nested loop is proved
  against the specification function `BestVideo`.
* `Timeline` (`timeline.dfy`): the method `GenerateVideoUrl`, whose two loops
  are proved against the specification functions `TryFrom` (the term loop of
  one pair) and `AssignFrom` (the interval loop).

Exceptions that escape are modelled as an error outcome, not as preconditions:

* `InvalidStructure` is the `ValueError` raised for a response body without
  `'videos'` (line 67). It is not caught by the `RequestException` handler.
* `ZeroDivision` is a zero height in landscape mode (line 93).

Both propagate out of `generate_video_url`. A transport failure makes
`search_videos` return `{}`, so `get_best_video` returns `None`.

Some behaviour of the code is easy to misread:

* Line 93 parses as `(w / h == 16 / 9) if landscape else (9 / 16)`. In
  portrait mode the condition is the constant 9/16, which is truthy, so every
  video is kept.
* `get_best_video` sends one search request per term and reads one response.
* A pair with an empty term list gets no output entry at all (lines 117-119).
* A response body without `'videos'` raises a `ValueError` (line 67), and it
  escapes `generate_video_url`.

The term loop stops on Python truthiness (`if url:`). An empty-string link is
falsy: it is still appended to the registry, and the next term is tried. The
model keeps this behaviour. So "the URL is `None` exactly when every term
returned `None`" holds only when no link is the empty string. The lemmas
therefore state the stopping rule in terms of truthiness.

## Model

| member | source | states |
|---|---|---|
| PexelsSearch.SearchVideos | utility/video/background_video_generator.py:41-73 | An empty query gives `{}` and the provider is not consulted. Otherwise there is a video list exactly when the provider answered with one. The call raises exactly when the answer has no `'videos'` key, and what it raises is the `ValueError` of line 67 (`InvalidStructure`). |
| Ranking.AspectFilter | utility/video/background_video_generator.py:90-94 | It raises exactly when the mode is landscape and some record has height 0. Otherwise every survivor is an input record that passes the test (16:9 in landscape mode), every passing record survives, and the survivors keep their input order (a subsequence). In portrait mode the result is the input unchanged. |
| Ranking.AspectFilterCounts | utility/video/background_video_generator.py:91-94 | Each record occurs in the result as often as in the input if it passes the test, and not at all otherwise. Together with the subsequence clause of `AspectFilter`, this fixes the result, duplicates included. |
| Ranking.InsertSorted | utility/video/background_video_generator.py:97 | Inserting into a key-sorted list keeps it sorted and adds exactly the one record. |
| Ranking.InsertStable | utility/video/background_video_generator.py:97 | Inserting a record puts it before the records of the list that have its key, and changes nothing else among the records with any key. |
| Ranking.RankStep | utility/video/background_video_generator.py:97 | Inserting the head record into a stable ranking of the tail gives a stable ranking of the whole list: the same records, as many of them, sorted, and each key's records in input order. |
| Ranking.RankByDuration | utility/video/background_video_generator.py:96-97 | The ranking is a permutation of the filtered records. It is ascending by `abs(15 - duration)`. Records with equal keys keep their input order (stable sort). |
| Selection.Registry.constructor | utility/video/background_video_generator.py:115 | A new registry is empty. |
| Selection.FirstUnusedFileSpec | utility/video/background_video_generator.py:101-104 | The inner scan returns the first file link not in the registry. It returns none exactly when every file is in the registry. |
| Selection.PickFirstUnused | utility/video/background_video_generator.py:99-106 | The returned link is the first unused one in ranked-video-then-file order. Every file of every earlier video, and every earlier file of its own video, is in the registry. None is returned exactly when every file of every ranked video is in the registry. |
| Selection.BestVideoLinkIsFresh | utility/video/background_video_generator.py:79-104 | A returned link was not in the registry. The query was non-empty and the provider listed videos for it. The link is a file of a listed video that passes the filter, so in landscape mode its video is 16:9. |
| Selection.BestVideoNoLinkMeansExhausted | utility/video/background_video_generator.py:88-106 | `None` after a successful search means every file of every video that passes the filter is already in the registry. |
| Selection.GetBestVideo | utility/video/background_video_generator.py:75-106 | The nested loop computes `BestVideo`. The registry afterwards is the old one with the returned link appended at its end. It is unchanged on `None` and on an exception. An empty query returns `None` without searching. |
| Timeline.TryFromGrowsRegistry | utility/video/background_video_generator.py:121-126 | Along the term loop the registry only grows and its links stay distinct. A link the loop ends with was new and has been recorded. |
| Timeline.TryTermsFreshLink | utility/video/background_video_generator.py:121-126 | For one pair's term loop: the registry only grows and stays free of duplicates. A URL the loop ends with was not in the registry before and is in it afterwards. |
| Timeline.TryFromCount | utility/video/background_video_generator.py:121-125 | The term loop tries at least one term when there is one, and never more terms than there are. It stops before the last term only on a truthy URL. |
| Timeline.TryFromTriedPrefix | utility/video/background_video_generator.py:121-125 | The term loop gives the same result on the prefix of terms it tried, so no later term is queried. |
| Timeline.TryFromEarlierFail | utility/video/background_video_generator.py:121-125 | Every shorter prefix of the tried terms ends without a truthy URL. |
| Timeline.TryTermsStopsAtFirstSuccess | utility/video/background_video_generator.py:121-126 | The terms are tried strictly in order. The loop stops at the first truthy result. Terms after those tried are never queried. When it ran through all terms, it is because none before the last gave a truthy URL. |
| Timeline.AssignFromShape | utility/video/background_video_generator.py:116-126 | The interval loop adds one entry per pair with terms after the entries already emitted, and leaves those unchanged. |
| Timeline.TermLoopsChainAt | utility/video/background_video_generator.py:116-126 | In a chain of term loops, entry `k` has pair `k`'s interval. Pair `k`'s term loop, run from the `k`-th registry, ends with entry `k`'s URL and leaves the next registry. |
| Timeline.AssignFromChain | utility/video/background_video_generator.py:115-126 | The entries the interval loop adds come from the term loops of the pairs with terms, run one after the other. The first starts from the current registry, each later one starts from the registry the previous one left, and the last leaves the registry the loop ends with. |
| Timeline.AssignFromChainStep | utility/video/background_video_generator.py:115-126 | The same chain, for an interval loop whose first pair has terms. |
| Timeline.AssignFromDistinct | utility/video/background_video_generator.py:115-126 | Along the interval loop the registry only grows and stays distinct. Every emitted URL is recorded in it, and no URL is emitted twice. |
| Timeline.GeneratedUrlsFollowPlans | utility/video/background_video_generator.py:112-126 | With `"pexel"`, the output length is the number of pairs with a non-empty term list. The output intervals are those pairs' intervals, in input order. There are registries `regs`, with `regs[0]` the call's empty `used_links`, such that pair `k`'s term loop, run from `regs[k]`, ends with entry `k`'s URL and leaves `regs[k + 1]`. |
| Timeline.GeneratedUrlsDistinct | utility/video/background_video_generator.py:114-126 | No URL other than `None` appears twice in one call's output. |
| Timeline.GenerateVideoUrl | utility/video/background_video_generator.py:108-131 | The loops compute `GeneratedUrls`: with `"pexel"`, the interval loop over a fresh empty registry, always in landscape mode. Any other server returns `[]`. An exception from `get_best_video` escapes. |

## Left out

- The HTTP request of `search_videos` (lines 49-73) is not modelled. This covers the API key, headers, `per_page=15`, the orientation parameter, response logging and printed messages. The provider is an input function. It answers a given query and orientation the same way every time it is asked within one call.
- Float division on line 93 is not modelled. The test `w / h == 16 / 9` is modelled as `9 * w == 16 * h`. Python's division is correctly rounded, so the two agree for every height of absolute value below 2^48.
- Records always carry integer width, height and duration, and every file carries a string link. A missing or non-numeric field (a `TypeError`, or `int()` failing) is not modelled, and neither is a `None` link. `duration` is taken after `int()`. A record without one should be given duration 0.
- The mutable default `used_vids=[]` (line 75) is not modelled: the registry is always an explicit argument. In the source, the default list is shared across calls that omit it.
- `extract_keywords_from_script` and `generate_video_from_article` (lines 12-39, 133-160) are not modelled. They are language-model calls, and a broad `except` turns every failure into `[]`.
- The `"stable_diffusion"` branch only prints. Like any other server name it returns `[]`.
- Gap merging (`merge_empty_intervals`) is imported by `app.py`, but `utility/video/video_search_query_generator.py` is not part of this model.
- `app.py` (page fetching, audio, captions, rendering, command-line arguments) and `utility/script/script_generator.py` (language-model chat calls and JSON parsing) are orchestration around external services and are not modelled.
