/**
 * The two pure steps of `get_best_video` between the search and the scan:
 * the aspect-ratio filter and the stable ranking by closeness to a
 * 15-second duration.
 */
module Ranking {
  import opened Wrappers
  import opened PexelsSearch

  /** `width / height == 16 / 9`, stated over the integers: for a non-zero
      height the quotient equals 16/9 exactly when `9 * width == 16 * height`. */
  predicate IsSixteenByNine(v: Video) {
    v.width * 9 == v.height * 16
  }

  /** The condition of the filter's comprehension. It reads
      `(w / h == 16 / 9) if landscape else (9 / 16)`: in portrait mode the
      condition is the non-zero constant 9/16, which is true. */
  predicate Kept(v: Video, landscape: bool) {
    if landscape then IsSixteenByNine(v) else true
  }

  /** `t` is `s` with some elements deleted and the rest in their order. */
  predicate IsSubsequence(t: seq<Video>, s: seq<Video>)
    decreases |s|
  {
    if t == [] then true
    else if s == [] then false
    else if t[0] == s[0] then IsSubsequence(t[1..], s[1..])
    else IsSubsequence(t, s[1..])
  }

  /** The filter of `get_best_video`. In landscape mode every record's
      quotient is evaluated, so a zero height anywhere raises; the survivors
      are exactly the 16:9 records, in response order. In portrait mode no
      quotient is evaluated and every record survives. */
  function AspectFilter(videos: seq<Video>, landscape: bool): (r: Result<seq<Video>, Error>)
    ensures r.Err? <==> landscape && exists i :: 0 <= i < |videos| && videos[i].height == 0
    ensures r.Err? ==> r.error == ZeroDivision
    ensures r.Ok? ==> forall v :: v in r.value ==> v in videos && Kept(v, landscape)
    ensures r.Ok? ==> forall v :: v in videos && Kept(v, landscape) ==> v in r.value
    ensures r.Ok? ==> IsSubsequence(r.value, videos)
    ensures !landscape ==> r == Ok(videos)
  {
    if videos == [] then Ok([])
    else if landscape && videos[0].height == 0 then Err(ZeroDivision)
    else
      match AspectFilter(videos[1..], landscape)
      case Err(e) =>
        assert videos[1..][0] == videos[1];
        Err(e)
      case Ok(rest) =>
        assert videos == [videos[0]] + videos[1..];
        Ok(if Kept(videos[0], landscape) then [videos[0]] + rest else rest)
  }

  /** The filter keeps every occurrence of a record that passes the test
      and no occurrence of one that fails it. Together with `IsSubsequence`
      this fixes the survivors, duplicates included. */
  lemma {:induction false} AspectFilterCounts(videos: seq<Video>, landscape: bool)
    requires AspectFilter(videos, landscape).Ok?
    ensures forall v ::
      multiset(AspectFilter(videos, landscape).value)[v] == if Kept(v, landscape) then multiset(videos)[v] else 0
  {
    if videos != [] {
      AspectFilterCounts(videos[1..], landscape);
      assert videos == [videos[0]] + videos[1..];
    }
  }

  /** The sort key `abs(15 - int(duration))`. */
  function DurationKey(v: Video): nat {
    if v.duration <= 15 then 15 - v.duration else v.duration - 15
  }

  ghost predicate SortedByKey(s: seq<Video>) {
    forall i, j :: 0 <= i < j < |s| ==> DurationKey(s[i]) <= DurationKey(s[j])
  }

  /** The records of `s` whose key is `k`, in their order in `s`. */
  function WithKey(s: seq<Video>, k: nat): seq<Video> {
    if s == [] then []
    else (if DurationKey(s[0]) == k then [s[0]] else []) + WithKey(s[1..], k)
  }

  /** Inserts `v` before the first record whose key is not smaller. */
  function Insert(v: Video, s: seq<Video>): seq<Video> {
    if s == [] then [v]
    else if DurationKey(v) <= DurationKey(s[0]) then [v] + s
    else [s[0]] + Insert(v, s[1..])
  }

  lemma {:induction false} InsertSorted(v: Video, s: seq<Video>)
    requires SortedByKey(s)
    ensures SortedByKey(Insert(v, s))
    ensures multiset(Insert(v, s)) == multiset(s) + multiset{v}
  {
    if s == [] {
    } else if DurationKey(v) <= DurationKey(s[0]) {
      assert Insert(v, s) == [v] + s;
    } else {
      var t := Insert(v, s[1..]);
      InsertSorted(v, s[1..]);
      assert Insert(v, s) == [s[0]] + t;
      assert s == [s[0]] + s[1..];
      forall j | 0 <= j < |t|
        ensures DurationKey(s[0]) <= DurationKey(t[j])
      {
        var w := t[j];
        assert w in multiset(t);
        if w != v {
          assert w in multiset(s[1..]);
          var m :| 0 <= m < |s[1..]| && s[1..][m] == w;
          assert s[m + 1] == w;
        }
      }
    }
  }

  lemma {:induction false} InsertStable(v: Video, s: seq<Video>, k: nat)
    ensures WithKey(Insert(v, s), k) == (if DurationKey(v) == k then [v] else []) + WithKey(s, k)
  {
    if s == [] {
    } else if DurationKey(v) <= DurationKey(s[0]) {
      assert Insert(v, s) == [v] + s;
      assert ([v] + s)[1..] == s;
    } else {
      var t := Insert(v, s[1..]);
      InsertStable(v, s[1..], k);
      var head: seq<Video> := if DurationKey(s[0]) == k then [s[0]] else [];
      var mine: seq<Video> := if DurationKey(v) == k then [v] else [];
      assert head == [] || mine == [];
      assert ([s[0]] + t)[1..] == t;
      calc {
        WithKey(Insert(v, s), k);
        WithKey([s[0]] + t, k);
        head + WithKey(t, k);
        head + (mine + WithKey(s[1..], k));
        mine + (head + WithKey(s[1..], k));
        mine + WithKey(s, k);
      }
    }
  }

  /** One step of the ranking: inserting the head into a stable ranking of
      the tail gives a stable ranking of the whole list. */
  lemma RankStep(videos: seq<Video>, rest: seq<Video>)
    requires videos != []
    requires multiset(rest) == multiset(videos[1..]) && SortedByKey(rest)
    requires forall k :: WithKey(rest, k) == WithKey(videos[1..], k)
    ensures multiset(Insert(videos[0], rest)) == multiset(videos)
    ensures |Insert(videos[0], rest)| == |videos|
    ensures SortedByKey(Insert(videos[0], rest))
    ensures forall k :: WithKey(Insert(videos[0], rest), k) == WithKey(videos, k)
  {
    InsertSorted(videos[0], rest);
    assert videos == [videos[0]] + videos[1..];
    assert |multiset(Insert(videos[0], rest))| == |multiset(videos)|;
    forall k ensures WithKey(Insert(videos[0], rest), k) == WithKey(videos, k) {
      InsertStable(videos[0], rest, k);
    }
  }

  /** `sorted(videos, key=DurationKey)`: Python's sort is stable. The
      result is a permutation of the input, ascending by key, and the
      records that share a key keep their input order. */
  function RankByDuration(videos: seq<Video>): (r: seq<Video>)
    ensures |r| == |videos|
    ensures multiset(r) == multiset(videos)
    ensures SortedByKey(r)
    ensures forall k :: WithKey(r, k) == WithKey(videos, k)
  {
    if videos == [] then []
    else
      var rest := RankByDuration(videos[1..]);
      RankStep(videos, rest);
      Insert(videos[0], rest)
  }
}
