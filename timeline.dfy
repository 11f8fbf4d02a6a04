/**
 * `generate_video_url`: walk the (interval, search terms) pairs in order,
 * try each pair's terms in order against one registry shared by the whole
 * call, and emit `[[t1, t2], url]` for every pair that has terms.
 */
module Timeline {
  import opened Wrappers
  import opened PexelsSearch
  import opened Selection

  /** The `(t1, t2)` of a pair, passed through unchanged. */
  datatype Interval = Interval(start: real, end: real)

  /** One `((t1, t2), search_terms)` input pair. */
  datatype SearchPlan = SearchPlan(interval: Interval, terms: seq<string>)

  /** One `[[t1, t2], url]` output entry; `url` may be `None`. */
  datatype Assignment = Assignment(interval: Interval, url: Option<string>)

  /** Python truthiness of a `get_best_video` result: `None` and the empty
      string are false. */
  predicate Truthy(url: Option<string>) {
    url.Some? && url.value != ""
  }

  /** The value `get_best_video` returns for an outcome that did not raise. */
  function UrlOf(o: Outcome): Option<string>
    requires !o.Raised?
  {
    if o.Link? then Some(o.link) else None
  }

  /** Where the term loop of one pair ends: the last value of `url`, the
      registry, and how many terms were passed to `get_best_video`. */
  datatype TermsRun = Tried(url: Option<string>, used: seq<string>, count: nat) | TermsRaised(error: Error)

  /** The rest of the term loop: `terms` still to try, `url` the last
      result, `count` the terms tried so far. The loop stops after the
      first truthy result. */
  function TryFrom(terms: seq<string>, catalog: Catalog, used: seq<string>, url: Option<string>, count: nat): TermsRun
    decreases |terms|
  {
    if terms == [] then Tried(url, used, count)
    else
      var o := BestVideo(terms[0], true, catalog, used);
      if o.Raised? then TermsRaised(o.error)
      else if Truthy(UrlOf(o)) then Tried(UrlOf(o), Commit(used, o), count + 1)
      else TryFrom(terms[1..], catalog, Commit(used, o), UrlOf(o), count + 1)
  }

  /** `url = None; for query in search_terms: url = get_best_video(...); if url: break`. */
  function TryTerms(terms: seq<string>, catalog: Catalog, used: seq<string>): TermsRun {
    TryFrom(terms, catalog, used, None, 0)
  }

  /** Where the interval loop ends: the output and the registry. */
  datatype AssignRun = Assigned(out: seq<Assignment>, used: seq<string>) | AssignRaised(error: Error)

  /** The rest of the interval loop, `out` the entries emitted so far. A
      pair with no terms is skipped. */
  function AssignFrom(plans: seq<SearchPlan>, catalog: Catalog, used: seq<string>, out: seq<Assignment>): AssignRun
    decreases |plans|
  {
    if plans == [] then Assigned(out, used)
    else if plans[0].terms == [] then AssignFrom(plans[1..], catalog, used, out)
    else
      match TryTerms(plans[0].terms, catalog, used)
      case TermsRaised(e) => AssignRaised(e)
      case Tried(url, used', _) =>
        AssignFrom(plans[1..], catalog, used', out + [Assignment(plans[0].interval, url)])
  }

  /** What `generate_video_url(plans, server)` returns or raises: with the
      "pexel" server the interval loop over a fresh, empty registry; with
      any other server an empty list. */
  function GeneratedUrls(plans: seq<SearchPlan>, server: string, catalog: Catalog): Result<seq<Assignment>, Error> {
    if server == "pexel" then
      match AssignFrom(plans, catalog, [], [])
      case Assigned(out, _) => Ok(out)
      case AssignRaised(e) => Err(e)
    else Ok([])
  }

  /** The pairs that get an output entry: those with a non-empty term list. */
  function NonEmptyPlans(plans: seq<SearchPlan>): seq<SearchPlan> {
    if plans == [] then []
    else (if plans[0].terms != [] then [plans[0]] else []) + NonEmptyPlans(plans[1..])
  }

  ghost predicate NoDuplicates(s: seq<string>) {
    forall i, j :: 0 <= i < j < |s| ==> s[i] != s[j]
  }

  /** `url`, if present, was not in `before` and is in `after`. */
  ghost predicate FreshIn(url: Option<string>, before: seq<string>, after: seq<string>) {
    url.Some? ==> url.value !in before && url.value in after
  }

  lemma {:induction false} TryFromGrowsRegistry(terms: seq<string>, catalog: Catalog, base: seq<string>,
                                                used: seq<string>, url: Option<string>, count: nat)
    requires base <= used && FreshIn(url, base, used) && NoDuplicates(used)
    requires TryFrom(terms, catalog, used, url, count).Tried?
    ensures var run := TryFrom(terms, catalog, used, url, count);
      base <= run.used && FreshIn(run.url, base, run.used) && NoDuplicates(run.used)
    decreases |terms|
  {
    if terms != [] {
      var o := BestVideo(terms[0], true, catalog, used);
      var used' := Commit(used, o);
      if o.Link? {
        BestVideoLinkIsFresh(terms[0], true, catalog, used);
        assert o.link !in base;
      }
      assert base <= used';
      if !Truthy(UrlOf(o)) {
        TryFromGrowsRegistry(terms[1..], catalog, base, used', UrlOf(o), count + 1);
      }
    }
  }

  /** The registry of one pair's term loop only grows, keeps its links
      distinct, and a link the loop ends with is new to the registry and
      recorded in it. */
  lemma TryTermsFreshLink(terms: seq<string>, catalog: Catalog, used: seq<string>)
    requires NoDuplicates(used)
    requires TryTerms(terms, catalog, used).Tried?
    ensures var run := TryTerms(terms, catalog, used);
      && used <= run.used && NoDuplicates(run.used)
      && (run.url.Some? ==> run.url.value !in used && run.url.value in run.used)
  {
    TryFromGrowsRegistry(terms, catalog, used, used, None, 0);
  }

  lemma {:induction false} TryFromCount(terms: seq<string>, catalog: Catalog, used: seq<string>,
                                        url: Option<string>, count: nat)
    requires TryFrom(terms, catalog, used, url, count).Tried?
    ensures var run := TryFrom(terms, catalog, used, url, count);
      && count <= run.count <= count + |terms|
      && (terms == [] <==> run.count == count)
      && (run.count < count + |terms| ==> Truthy(run.url))
    decreases |terms|
  {
    if terms != [] {
      var o := BestVideo(terms[0], true, catalog, used);
      if !Truthy(UrlOf(o)) {
        TryFromCount(terms[1..], catalog, Commit(used, o), UrlOf(o), count + 1);
      }
    }
  }

  lemma {:induction false} TryFromTriedPrefix(terms: seq<string>, catalog: Catalog, used: seq<string>,
                                              url: Option<string>, count: nat)
    requires TryFrom(terms, catalog, used, url, count).Tried?
    ensures var run := TryFrom(terms, catalog, used, url, count);
      count <= run.count <= count + |terms| && run == TryFrom(terms[..run.count - count], catalog, used, url, count)
    decreases |terms|
  {
    TryFromCount(terms, catalog, used, url, count);
    var run := TryFrom(terms, catalog, used, url, count);
    if terms != [] {
      var o := BestVideo(terms[0], true, catalog, used);
      var n := run.count - count;
      assert terms[..n][0] == terms[0];
      if Truthy(UrlOf(o)) {
        assert terms[..n] == [terms[0]];
      } else {
        TryFromTriedPrefix(terms[1..], catalog, Commit(used, o), UrlOf(o), count + 1);
        assert terms[..n][1..] == terms[1..][..n - 1];
      }
    }
  }

  lemma {:induction false} TryFromEarlierFail(terms: seq<string>, catalog: Catalog, used: seq<string>,
                                              url: Option<string>, count: nat, k: nat)
    requires TryFrom(terms, catalog, used, url, count).Tried?
    requires 0 < k < TryFrom(terms, catalog, used, url, count).count - count && k <= |terms|
    ensures TryFrom(terms[..k], catalog, used, url, count).Tried?
    ensures !Truthy(TryFrom(terms[..k], catalog, used, url, count).url)
    decreases |terms|
  {
    TryFromCount(terms, catalog, used, url, count);
    var o := BestVideo(terms[0], true, catalog, used);
    assert !Truthy(UrlOf(o));
    assert terms[..k][0] == terms[0];
    assert terms[..k][1..] == terms[1..][..k - 1];
    if k > 1 {
      TryFromEarlierFail(terms[1..], catalog, Commit(used, o), UrlOf(o), count + 1, k - 1);
    }
  }

  /** The term loop of one pair tries the terms strictly in order and stops
      at the first truthy result: it tries at least one term when there is
      one; it stops early only on a truthy URL; every shorter prefix of the
      terms it tried yields no truthy URL; and the terms after the ones it
      tried are never queried (the run equals the run over the tried prefix). */
  lemma TryTermsStopsAtFirstSuccess(terms: seq<string>, catalog: Catalog, used: seq<string>)
    requires TryTerms(terms, catalog, used).Tried?
    ensures var run := TryTerms(terms, catalog, used);
      && run.count <= |terms|
      && (terms != [] <==> run.count > 0)
      && (run.count < |terms| ==> Truthy(run.url))
      && run == TryTerms(terms[..run.count], catalog, used)
      && forall k :: 0 < k < run.count ==>
           TryTerms(terms[..k], catalog, used).Tried? && !Truthy(TryTerms(terms[..k], catalog, used).url)
  {
    TryFromCount(terms, catalog, used, None, 0);
    TryFromTriedPrefix(terms, catalog, used, None, 0);
    var run := TryTerms(terms, catalog, used);
    forall k | 0 < k < run.count
      ensures TryTerms(terms[..k], catalog, used).Tried? && !Truthy(TryTerms(terms[..k], catalog, used).url)
    {
      TryFromEarlierFail(terms, catalog, used, None, 0, k);
    }
  }

  /** The entries are produced by the pairs' term loops run one after the
      other: `regs[k]` is the registry when pair `k` starts, and pair `k`'s
      term loop from it ends with entry `k`'s URL and leaves `regs[k + 1]`. */
  ghost predicate TermLoopsChain(plans: seq<SearchPlan>, catalog: Catalog, entries: seq<Assignment>, regs: seq<seq<string>>)
    decreases |plans|
  {
    && |entries| == |plans| && |regs| == |plans| + 1
    && (plans != [] ==>
         && entries[0].interval == plans[0].interval
         && TermsEnd(plans[0].terms, catalog, regs[0], entries[0].url, regs[1])
         && TermLoopsChain(plans[1..], catalog, entries[1..], regs[1..]))
  }

  /** The term loop over `terms` from registry `used` ends with `url` and
      leaves registry `after`. */
  ghost predicate TermsEnd(terms: seq<string>, catalog: Catalog, used: seq<string>, url: Option<string>, after: seq<string>) {
    TryTerms(terms, catalog, used).Tried? && TryTerms(terms, catalog, used).url == url
    && TryTerms(terms, catalog, used).used == after
  }

  /** Entry `k` of a chain comes from pair `k`'s term loop run from `regs[k]`. */
  lemma {:induction false} TermLoopsChainAt(plans: seq<SearchPlan>, catalog: Catalog, entries: seq<Assignment>,
                                            regs: seq<seq<string>>, k: nat)
    requires TermLoopsChain(plans, catalog, entries, regs) && k < |plans|
    ensures entries[k].interval == plans[k].interval
    ensures TermsEnd(plans[k].terms, catalog, regs[k], entries[k].url, regs[k + 1])
    decreases k
  {
    if k > 0 {
      TermLoopsChainAt(plans[1..], catalog, entries[1..], regs[1..], k - 1);
    }
  }

  /** One more pair in front of a chain of term loops. */
  lemma TermLoopsChainCons(plan: SearchPlan, plans: seq<SearchPlan>, catalog: Catalog, entry: Assignment,
                           entries: seq<Assignment>, used: seq<string>, regs: seq<seq<string>>, last: seq<string>)
    requires TermLoopsChain(plans, catalog, entries, regs) && regs[|regs| - 1] == last
    requires TermsEnd(plan.terms, catalog, used, entry.url, regs[0])
    requires entry.interval == plan.interval
    ensures exists regs' ::
      TermLoopsChain([plan] + plans, catalog, [entry] + entries, regs') && regs'[0] == used && regs'[|regs'| - 1] == last
  {
    var ps, es, rs := [plan] + plans, [entry] + entries, [used] + regs;
    assert ps[1..] == plans && es[1..] == entries && rs[1..] == regs;
    assert TermLoopsChain(ps, catalog, es, rs);
  }

  lemma {:induction false} AssignFromShape(plans: seq<SearchPlan>, catalog: Catalog, used: seq<string>, out: seq<Assignment>)
    requires AssignFrom(plans, catalog, used, out).Assigned?
    ensures var run := AssignFrom(plans, catalog, used, out);
      |run.out| == |out| + |NonEmptyPlans(plans)| && run.out[..|out|] == out
    decreases |plans|
  {
    if plans != [] {
      var run := AssignFrom(plans, catalog, used, out);
      if plans[0].terms == [] {
        AssignFromShape(plans[1..], catalog, used, out);
      } else {
        var head := TryTerms(plans[0].terms, catalog, used);
        var out' := out + [Assignment(plans[0].interval, head.url)];
        AssignFromShape(plans[1..], catalog, head.used, out');
        assert run.out[..|out|] == run.out[..|out'|][..|out|];
      }
    }
  }

  /** The entries the interval loop adds are produced by the term loops of
      the pairs with terms, run one after the other from `used`. */
  lemma {:induction false} AssignFromChain(plans: seq<SearchPlan>, catalog: Catalog, used: seq<string>, out: seq<Assignment>)
    requires AssignFrom(plans, catalog, used, out).Assigned?
    ensures var run := AssignFrom(plans, catalog, used, out);
      && |out| <= |run.out|
      && exists regs :: TermLoopsChain(NonEmptyPlans(plans), catalog, run.out[|out|..], regs)
           && regs[0] == used && regs[|regs| - 1] == run.used
    decreases |plans|, 1
  {
    var run := AssignFrom(plans, catalog, used, out);
    AssignFromShape(plans, catalog, used, out);
    if plans == [] {
      assert TermLoopsChain([], catalog, run.out[|out|..], [used]);
    } else if plans[0].terms == [] {
      AssignFromChain(plans[1..], catalog, used, out);
      assert NonEmptyPlans(plans) == NonEmptyPlans(plans[1..]);
      assert run == AssignFrom(plans[1..], catalog, used, out);
    } else {
      AssignFromChainStep(plans, catalog, used, out);
    }
  }

  /** One turn of the interval loop for a pair with terms. */
  lemma AssignFromUnfold(plans: seq<SearchPlan>, catalog: Catalog, used: seq<string>, out: seq<Assignment>)
    requires plans != [] && plans[0].terms != []
    requires AssignFrom(plans, catalog, used, out).Assigned?
    ensures TryTerms(plans[0].terms, catalog, used).Tried?
    ensures var head := TryTerms(plans[0].terms, catalog, used);
      AssignFrom(plans, catalog, used, out)
      == AssignFrom(plans[1..], catalog, head.used, out + [Assignment(plans[0].interval, head.url)])
  {
  }

  lemma {:induction false} AssignFromChainStep(plans: seq<SearchPlan>, catalog: Catalog, used: seq<string>, out: seq<Assignment>)
    requires plans != [] && plans[0].terms != []
    requires AssignFrom(plans, catalog, used, out).Assigned?
    ensures var run := AssignFrom(plans, catalog, used, out);
      && |out| <= |run.out|
      && exists regs :: TermLoopsChain(NonEmptyPlans(plans), catalog, run.out[|out|..], regs)
           && regs[0] == used && regs[|regs| - 1] == run.used
    decreases |plans|, 0
  {
    var run := AssignFrom(plans, catalog, used, out);
    var tail := NonEmptyPlans(plans[1..]);
    AssignFromUnfold(plans, catalog, used, out);
    var head := TryTerms(plans[0].terms, catalog, used);
    var entry := Assignment(plans[0].interval, head.url);
    var out' := out + [entry];
    assert NonEmptyPlans(plans) == [plans[0]] + tail;
    AssignFromChain(plans[1..], catalog, head.used, out');
    AssignFromShape(plans[1..], catalog, head.used, out');
    var rest := run.out[|out'|..];
    var regs' :| TermLoopsChain(tail, catalog, rest, regs') && regs'[0] == head.used && regs'[|regs'| - 1] == run.used;
    assert run.out[|out|] == run.out[..|out'|][|out|] == entry;
    assert run.out[|out|..] == [entry] + rest;
    TermLoopsChainCons(plans[0], tail, catalog, entry, rest, used, regs', run.used);
  }

  /** All present URLs of `out` are distinct and recorded in `used`. */
  ghost predicate UrlsDistinctIn(out: seq<Assignment>, used: seq<string>) {
    && (forall i :: 0 <= i < |out| && out[i].url.Some? ==> out[i].url.value in used)
    && (forall i, j :: 0 <= i < j < |out| && out[i].url.Some? && out[j].url.Some? ==> out[i].url.value != out[j].url.value)
  }

  lemma {:induction false} AssignFromDistinct(plans: seq<SearchPlan>, catalog: Catalog, used: seq<string>, out: seq<Assignment>)
    requires NoDuplicates(used) && UrlsDistinctIn(out, used)
    requires AssignFrom(plans, catalog, used, out).Assigned?
    ensures var run := AssignFrom(plans, catalog, used, out);
      used <= run.used && NoDuplicates(run.used) && UrlsDistinctIn(run.out, run.used)
    decreases |plans|
  {
    if plans != [] {
      if plans[0].terms == [] {
        AssignFromDistinct(plans[1..], catalog, used, out);
      } else {
        var run := TryTerms(plans[0].terms, catalog, used);
        TryTermsFreshLink(plans[0].terms, catalog, used);
        var out' := out + [Assignment(plans[0].interval, run.url)];
        forall i | 0 <= i < |out'| && out'[i].url.Some?
          ensures out'[i].url.value in run.used
        {
          if i < |out| {
            assert out'[i] == out[i];
            assert out[i].url.value in used;
          }
        }
        forall i, j | 0 <= i < j < |out'| && out'[i].url.Some? && out'[j].url.Some?
          ensures out'[i].url.value != out'[j].url.value
        {
          if j < |out| {
            assert out'[i] == out[i] && out'[j] == out[j];
          } else {
            assert out'[i] == out[i];
            assert out[i].url.value in used;
          }
        }
        AssignFromDistinct(plans[1..], catalog, run.used, out');
      }
    }
  }

  /** With the "pexel" server the output has one entry per pair with a
      non-empty term list, carrying that pair's interval, in input order.
      The pairs' term loops run one after the other: `regs[0]` is the empty
      registry of the call, pair `k`'s term loop starts from `regs[k]`, ends
      with entry `k`'s URL and leaves `regs[k + 1]` for the next pair. */
  lemma GeneratedUrlsFollowPlans(plans: seq<SearchPlan>, catalog: Catalog)
    requires GeneratedUrls(plans, "pexel", catalog).Ok?
    ensures var out := GeneratedUrls(plans, "pexel", catalog).value;
      && |out| == |NonEmptyPlans(plans)|
      && exists regs: seq<seq<string>> :: |regs| == |out| + 1 && regs[0] == [] &&
           forall k :: 0 <= k < |out| ==>
             out[k].interval == NonEmptyPlans(plans)[k].interval
             && TermsEnd(NonEmptyPlans(plans)[k].terms, catalog, regs[k], out[k].url, regs[k + 1])
  {
    var none: seq<Assignment> := [];
    AssignFromShape(plans, catalog, [], none);
    AssignFromChain(plans, catalog, [], none);
    var out := AssignFrom(plans, catalog, [], none).out;
    assert GeneratedUrls(plans, "pexel", catalog).value == out;
    assert out[|none|..] == out;
    var kept := NonEmptyPlans(plans);
    var regs :| TermLoopsChain(kept, catalog, out, regs) && regs[0] == [];
    forall k | 0 <= k < |out|
      ensures out[k].interval == kept[k].interval
      ensures TermsEnd(kept[k].terms, catalog, regs[k], out[k].url, regs[k + 1])
    {
      TermLoopsChainAt(kept, catalog, out, regs, k);
    }
  }

  /** Within one call no URL is handed out twice, because the registry
      starts empty and is shared by all intervals. */
  lemma GeneratedUrlsDistinct(plans: seq<SearchPlan>, server: string, catalog: Catalog)
    requires GeneratedUrls(plans, server, catalog).Ok?
    ensures var out := GeneratedUrls(plans, server, catalog).value;
      forall i, j :: 0 <= i < j < |out| && out[i].url.Some? && out[j].url.Some? ==>
        out[i].url.value != out[j].url.value
  {
    if server == "pexel" {
      AssignFromDistinct(plans, catalog, [], []);
    }
  }

  /** `generate_video_url(plans, server)`. */
  method GenerateVideoUrl(plans: seq<SearchPlan>, server: string, catalog: Catalog)
    returns (r: Result<seq<Assignment>, Error>)
    ensures r == GeneratedUrls(plans, server, catalog)
    ensures server != "pexel" ==> r == Ok([])
  {
    var timedVideoUrls: seq<Assignment> := [];
    if server != "pexel" {
      return Ok(timedVideoUrls);
    }
    var usedLinks := new Registry();
    var i := 0;
    while i < |plans|
      invariant 0 <= i <= |plans|
      invariant AssignFrom(plans, catalog, [], []) == AssignFrom(plans[i..], catalog, usedLinks.links, timedVideoUrls)
    {
      assert plans[i..][0] == plans[i] && plans[i..][1..] == plans[i + 1..];
      var searchTerms := plans[i].terms;
      if searchTerms == [] {
        i := i + 1;
        continue;
      }
      ghost var before := usedLinks.links;
      var url: Option<string> := None;
      var k := 0;
      while k < |searchTerms|
        invariant 0 <= k <= |searchTerms|
        invariant TryTerms(searchTerms, catalog, before) == TryFrom(searchTerms[k..], catalog, usedLinks.links, url, k)
      {
        assert searchTerms[k..][0] == searchTerms[k] && searchTerms[k..][1..] == searchTerms[k + 1..];
        var outcome := GetBestVideo(searchTerms[k], true, catalog, usedLinks);
        if outcome.Raised? {
          return Err(outcome.error);
        }
        url := UrlOf(outcome);
        k := k + 1;
        if Truthy(url) {
          assert TryTerms(searchTerms, catalog, before) == TryFrom([], catalog, usedLinks.links, url, k);
          break;
        }
      }
      timedVideoUrls := timedVideoUrls + [Assignment(plans[i].interval, url)];
      i := i + 1;
    }
    assert plans[i..] == [];
    return Ok(timedVideoUrls);
  }
}
