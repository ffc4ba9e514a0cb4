/** Sitemap-driven URL discovery: the recipe child sitemaps of a sitemap
    index, and the bounded collection of recipe page URLs from them.
    Fetching a document and listing its `<loc>` texts is the `Fetch` input. */
module Sitemap {
  import opened Seqs
  import opened Text

  const RECIPE_SITEMAP_MARKER := "recipe-sitemap"
  const RECIPE_PATH_MARKER := "/recipes/"
  /** Only this many recipe sitemaps are ever fetched, whatever the limit. */
  const MAX_CHILD_SITEMAPS := 3

  /** One sitemap request: the `<loc>` texts in document order, or the
      failing HTTP status that `raise_for_status` turns into an exception. */
  datatype Fetch = Fetched(locs: seq<string>) | FetchFailed(status: int)

  datatype Collected = Urls(urls: seq<string>) | Failure(status: int)

  predicate IsRecipeSitemap(loc: string) {
    Contains(loc, RECIPE_SITEMAP_MARKER)
  }

  /** The child sitemaps of the index that are recipe sitemaps. */
  function RecipeSitemapLinks(locs: seq<string>): (r: seq<string>)
    ensures forall i :: 0 <= i < |r| ==> Contains(r[i], RECIPE_SITEMAP_MARKER)
    ensures forall u :: u in r <==> u in locs && Contains(u, RECIPE_SITEMAP_MARKER)
    ensures forall u :: multiset(r)[u] == if Contains(u, RECIPE_SITEMAP_MARKER) then multiset(locs)[u] else 0
    ensures IsSubseq(r, locs)
  {
    FilterCounts(IsRecipeSitemap, locs);
    FilterSubseq(IsRecipeSitemap, locs);
    Filter(IsRecipeSitemap, locs)
  }

  predicate IsImageAsset(u: string) {
    EndsWith(u, ".jpg") || EndsWith(u, ".png") || EndsWith(u, ".jpeg")
  }

  /** A loc that names a recipe page: the path marker occurs anywhere in it
      (containment, not a prefix test) and it is not a raster image. */
  predicate IsRecipePageUrl(u: string) {
    Contains(u, RECIPE_PATH_MARKER) && !IsImageAsset(u)
  }

  /** The locs of one child sitemap that are recipe pages. */
  function RecipePageUrls(locs: seq<string>): (r: seq<string>)
    ensures forall i :: 0 <= i < |r| ==>
      Contains(r[i], RECIPE_PATH_MARKER)
      && !EndsWith(r[i], ".jpg") && !EndsWith(r[i], ".png") && !EndsWith(r[i], ".jpeg")
    ensures forall u :: multiset(r)[u] == if IsRecipePageUrl(u) then multiset(locs)[u] else 0
    ensures IsSubseq(r, locs)
  {
    FilterCounts(IsRecipePageUrl, locs);
    FilterSubseq(IsRecipePageUrl, locs);
    Filter(IsRecipePageUrl, locs)
  }

  /** The recipe page URLs of one fetched child sitemap (none for a failed fetch). */
  function PageUrls(f: Fetch): seq<string> {
    if f.Fetched? then RecipePageUrls(f.locs) else []
  }

  /** The recipe page URLs of the given child sitemaps, concatenated in order:
      what the accumulator holds once all of them have been processed. */
  function Gathered(fetch: string -> Fetch, sitemaps: seq<string>): (r: seq<string>)
    ensures forall u :: u in r ==> IsRecipePageUrl(u)
    decreases |sitemaps|
  {
    if sitemaps == [] then []
    else PageUrls(fetch(sitemaps[0])) + Gathered(fetch, sitemaps[1..])
  }

  lemma {:induction false} GatheredSnoc(fetch: string -> Fetch, sitemaps: seq<string>, s: string)
    ensures Gathered(fetch, sitemaps + [s]) == Gathered(fetch, sitemaps) + PageUrls(fetch(s))
    decreases |sitemaps|
  {
    if sitemaps == [] {
      assert Gathered(fetch, [s]) == PageUrls(fetch(s)) + Gathered(fetch, []);
    } else {
      assert (sitemaps + [s])[1..] == sitemaps[1..] + [s];
      GatheredSnoc(fetch, sitemaps[1..], s);
    }
  }

  /** Processing more sitemaps only ever appends to the accumulator. */
  lemma {:induction false} GatheredPrefix(fetch: string -> Fetch, a: seq<string>, b: seq<string>)
    requires a <= b
    ensures Gathered(fetch, a) <= Gathered(fetch, b)
    decreases |a|
  {
    if a != [] {
      assert a[0] == b[0];
      assert a[1..] <= b[1..];
      GatheredPrefix(fetch, a[1..], b[1..]);
    }
  }

  /** Only recipe page URLs are ever gathered. */
  lemma {:induction false} GatheredRecipePages(fetch: string -> Fetch, sitemaps: seq<string>)
    ensures forall u :: u in Gathered(fetch, sitemaps) ==> IsRecipePageUrl(u)
    decreases |sitemaps|
  {
    if sitemaps != [] {
      GatheredRecipePages(fetch, sitemaps[1..]);
      var head := PageUrls(fetch(sitemaps[0]));
      assert forall u :: u in head ==> IsRecipePageUrl(u);
    }
  }

  /** The first `n` requests all succeeded. */
  predicate AllSucceeded(fetch: string -> Fetch, sitemaps: seq<string>, n: nat)
    requires n <= |sitemaps|
    decreases n
  {
    n == 0 || (AllSucceeded(fetch, sitemaps, n - 1) && fetch(sitemaps[n - 1]).Fetched?)
  }

  /** Request `n` (counting from one) failed with `status`; every earlier one succeeded. */
  predicate FailedAt(fetch: string -> Fetch, sitemaps: seq<string>, n: nat, status: int)
    requires n <= |sitemaps|
  {
    n > 0 && AllSucceeded(fetch, sitemaps, n - 1) && fetch(sitemaps[n - 1]) == FetchFailed(status)
  }

  /** After each of the first `n` sitemaps except the last, the accumulator
      still held fewer than `limit` URLs, so the loop went on to the next one. */
  predicate NotFullBefore(fetch: string -> Fetch, sitemaps: seq<string>, n: nat, limit: int)
    requires n <= |sitemaps|
    decreases n
  {
    n <= 1 || (NotFullBefore(fetch, sitemaps, n - 1, limit) && |Gathered(fetch, sitemaps[..n - 1])| < limit)
  }

  /** `NotFullBefore` read position by position: after every sitemap before
      the last one processed, fewer than `limit` URLs had been gathered. */
  lemma {:induction false} NotFullBeforeAt(fetch: string -> Fetch, sitemaps: seq<string>, n: nat, limit: int, j: nat)
    requires n <= |sitemaps| && NotFullBefore(fetch, sitemaps, n, limit)
    requires 0 < j < n
    ensures |Gathered(fetch, sitemaps[..j])| < limit
    decreases n
  {
    if j < n - 1 {
      NotFullBeforeAt(fetch, sitemaps, n - 1, limit, j);
    }
  }

  /** Processing sitemap `i` appends its recipe page URLs to the accumulator. */
  lemma GatheredStep(fetch: string -> Fetch, sitemaps: seq<string>, i: nat)
    requires i < |sitemaps|
    ensures Gathered(fetch, sitemaps[..i + 1]) == Gathered(fetch, sitemaps[..i]) + PageUrls(fetch(sitemaps[i]))
  {
    assert sitemaps[..i + 1] == sitemaps[..i] + [sitemaps[i]];
    GatheredSnoc(fetch, sitemaps[..i], sitemaps[i]);
  }

  /** The loop of `extract_all_recipe_urls` over the (already capped) recipe
      sitemaps: each is fetched and filtered in turn, the accumulator is
      checked against `limit` after every whole sitemap, and the result is the
      accumulator sliced `[:limit]`. `fetched` records the requests made. */
  method CollectRecipeUrls(sitemaps: seq<string>, fetch: string -> Fetch, limit: int)
    returns (result: Collected, fetched: seq<string>)
    ensures fetched <= sitemaps
    ensures sitemaps != [] ==> fetched != []
    ensures result.Failure? ==> FailedAt(fetch, sitemaps, |fetched|, result.status)
    ensures result.Urls? ==> AllSucceeded(fetch, sitemaps, |fetched|)
    // the stop rule: no earlier sitemap had already filled the accumulator ...
    ensures NotFullBefore(fetch, sitemaps, |fetched|, limit)
    // ... and collection ends only when it is full or the list is exhausted
    ensures result.Urls? ==> fetched == sitemaps || |Gathered(fetch, fetched)| >= limit
    ensures result.Urls? ==> result.urls == PyPrefix(Gathered(fetch, fetched), limit)
  {
    var acc: seq<string> := [];
    fetched := [];
    var i := 0;
    while i < |sitemaps|
      invariant 0 <= i <= |sitemaps|
      invariant fetched == sitemaps[..i]
      invariant AllSucceeded(fetch, sitemaps, i)
      invariant acc == Gathered(fetch, fetched)
      invariant NotFullBefore(fetch, sitemaps, i, limit)
      invariant i > 0 ==> |acc| < limit
    {
      var page := fetch(sitemaps[i]);
      GatheredStep(fetch, sitemaps, i);
      fetched := sitemaps[..i + 1];
      if page.FetchFailed? {
        return Failure(page.status), fetched;
      }
      acc := acc + PageUrls(page);
      i := i + 1;
      if |acc| >= limit {
        break;
      }
    }
    result := Urls(PyPrefix(acc, limit));
  }

  /** Everything `CollectRecipeUrls` promises about a run over `sitemaps`:
      the requests made form a prefix, the first one is always made, a
      failure is the first failing request, the loop stops after a sitemap
      only once the accumulator is full or the list is exhausted, and the
      URLs are the accumulator sliced `[:limit]`. */
  predicate Collects(sitemaps: seq<string>, fetch: string -> Fetch, limit: int, result: Collected, fetched: seq<string>) {
    && fetched <= sitemaps
    && (sitemaps != [] ==> fetched != [])
    && (result.Failure? ==> FailedAt(fetch, sitemaps, |fetched|, result.status))
    && (result.Urls? ==> AllSucceeded(fetch, sitemaps, |fetched|))
    && NotFullBefore(fetch, sitemaps, |fetched|, limit)
    && (result.Urls? ==> fetched == sitemaps || |Gathered(fetch, fetched)| >= limit)
    && (result.Urls? ==> result.urls == PyPrefix(Gathered(fetch, fetched), limit))
  }

  /** A request among the first `n` that all succeeded did succeed. */
  lemma {:induction false} AllSucceededAt(fetch: string -> Fetch, sitemaps: seq<string>, n: nat, j: nat)
    requires n <= |sitemaps| && AllSucceeded(fetch, sitemaps, n)
    requires j < n
    ensures fetch(sitemaps[j]).Fetched?
    decreases n
  {
    if j < n - 1 {
      AllSucceededAt(fetch, sitemaps, n - 1, j);
    }
  }

  /** Once a request has failed, no longer run of requests all succeeded. */
  lemma FailureEndsRun(fetch: string -> Fetch, sitemaps: seq<string>, n: nat, status: int, m: nat)
    requires n <= m <= |sitemaps|
    requires FailedAt(fetch, sitemaps, n, status)
    ensures !AllSucceeded(fetch, sitemaps, m)
  {
    if AllSucceeded(fetch, sitemaps, m) {
      AllSucceededAt(fetch, sitemaps, m, n - 1);
    }
  }

  /** A run that stops earlier than another one cannot satisfy the
      collection contract together with it. */
  lemma CollectsNotShorter(sitemaps: seq<string>, fetch: string -> Fetch, limit: int,
                           r1: Collected, f1: seq<string>, r2: Collected, f2: seq<string>)
    requires Collects(sitemaps, fetch, limit, r1, f1)
    requires Collects(sitemaps, fetch, limit, r2, f2)
    ensures |f1| >= |f2|
  {
    if |f1| < |f2| {
      if r1.Failure? {
        FailureEndsRun(fetch, sitemaps, |f1|, r1.status, if r2.Urls? then |f2| else |f2| - 1);
      } else {
        assert f1 == sitemaps[..|f1|];
        NotFullBeforeAt(fetch, sitemaps, |f2|, limit, |f1|);
      }
    }
  }

  /** The collection contract pins the run down completely: any two
      outcomes and request lists that satisfy it are the same. */
  lemma CollectionDeterministic(sitemaps: seq<string>, fetch: string -> Fetch, limit: int,
                                r1: Collected, f1: seq<string>, r2: Collected, f2: seq<string>)
    requires Collects(sitemaps, fetch, limit, r1, f1)
    requires Collects(sitemaps, fetch, limit, r2, f2)
    ensures r1 == r2 && f1 == f2
  {
    CollectsNotShorter(sitemaps, fetch, limit, r1, f1, r2, f2);
    CollectsNotShorter(sitemaps, fetch, limit, r2, f2, r1, f1);
    var n := |f1|;
    assert f1 == sitemaps[..n] == f2;
  }

  /** What the stop rule implies for the returned URLs, measured against
      everything the capped sitemaps could have contributed. */
  lemma {:induction false} CollectedLength(fetch: string -> Fetch, sitemaps: seq<string>, fetched: seq<string>, limit: int)
    requires fetched <= sitemaps && limit >= 0
    requires fetched == sitemaps || |Gathered(fetch, fetched)| >= limit
    ensures |PyPrefix(Gathered(fetch, fetched), limit)| <= limit
    ensures |Gathered(fetch, sitemaps)| >= limit ==>
      |PyPrefix(Gathered(fetch, fetched), limit)| == limit && PyPrefix(Gathered(fetch, fetched), limit) <= Gathered(fetch, sitemaps)
    ensures |Gathered(fetch, sitemaps)| < limit ==> PyPrefix(Gathered(fetch, fetched), limit) == Gathered(fetch, sitemaps)
  {
    GatheredPrefix(fetch, fetched, sitemaps);
  }

  /** The recipe sitemaps the collection visits: at most the first three. */
  function CappedSitemaps(index: Fetch): (r: seq<string>)
    ensures |r| <= MAX_CHILD_SITEMAPS
    ensures index.FetchFailed? ==> r == []
    ensures index.Fetched? ==> |r| == Min(MAX_CHILD_SITEMAPS, |RecipeSitemapLinks(index.locs)|)
    ensures index.Fetched? ==> r <= RecipeSitemapLinks(index.locs)
    ensures index.Fetched? && |RecipeSitemapLinks(index.locs)| <= MAX_CHILD_SITEMAPS ==> r == RecipeSitemapLinks(index.locs)
  {
    if index.Fetched? then PyPrefix(RecipeSitemapLinks(index.locs), MAX_CHILD_SITEMAPS) else []
  }

  /** Everything `extract_all_recipe_urls` promises: a failed index request
      is reported before any child sitemap is requested, and otherwise the
      collection runs over the capped recipe sitemaps. */
  predicate Extracts(index: Fetch, fetch: string -> Fetch, limit: int, result: Collected, fetched: seq<string>) {
    if index.FetchFailed? then result == Failure(index.status) && fetched == []
    else Collects(CappedSitemaps(index), fetch, limit, result, fetched)
  }

  /** Like the collection, the whole extraction has one possible outcome. */
  lemma ExtractionDeterministic(index: Fetch, fetch: string -> Fetch, limit: int,
                                r1: Collected, f1: seq<string>, r2: Collected, f2: seq<string>)
    requires Extracts(index, fetch, limit, r1, f1)
    requires Extracts(index, fetch, limit, r2, f2)
    ensures r1 == r2 && f1 == f2
  {
    if index.Fetched? {
      CollectionDeterministic(CappedSitemaps(index), fetch, limit, r1, f1, r2, f2);
    }
  }

  /** `extract_all_recipe_urls`: fetch the index, keep its recipe sitemaps,
      cap them at three and collect from those. */
  method ExtractAllRecipeUrls(index: Fetch, fetch: string -> Fetch, limit: int)
    returns (result: Collected, fetched: seq<string>)
    ensures Extracts(index, fetch, limit, result, fetched)
    ensures index.FetchFailed? ==> result == Failure(index.status) && fetched == []
    ensures index.Fetched? && CappedSitemaps(index) != [] ==> fetched != []
    ensures fetched <= CappedSitemaps(index)
    ensures |fetched| <= MAX_CHILD_SITEMAPS
    ensures index.Fetched? && result.Failure? ==> FailedAt(fetch, CappedSitemaps(index), |fetched|, result.status)
    ensures result.Urls? ==> index.Fetched? && AllSucceeded(fetch, CappedSitemaps(index), |fetched|)
    ensures NotFullBefore(fetch, CappedSitemaps(index), |fetched|, limit)
    ensures result.Urls? ==> fetched == CappedSitemaps(index) || |Gathered(fetch, fetched)| >= limit
    ensures result.Urls? ==> result.urls == PyPrefix(Gathered(fetch, fetched), limit)
    ensures result.Urls? ==> result.urls <= Gathered(fetch, fetched)
    ensures result.Urls? ==> forall u :: u in result.urls ==> IsRecipePageUrl(u)
    ensures result.Urls? && limit >= 0 ==> |result.urls| <= limit
    ensures result.Urls? && limit >= 0 ==>
      var all := Gathered(fetch, CappedSitemaps(index));
      (|all| >= limit ==> |result.urls| == limit && result.urls <= all)
      && (|all| < limit ==> result.urls == all)
  {
    if index.FetchFailed? {
      return Failure(index.status), [];
    }
    var sitemaps := CappedSitemaps(index);
    result, fetched := CollectRecipeUrls(sitemaps, fetch, limit);
    GatheredRecipePages(fetch, fetched);
    if result.Urls? && limit >= 0 {
      CollectedLength(fetch, sitemaps, fetched, limit);
    }
  }
}
