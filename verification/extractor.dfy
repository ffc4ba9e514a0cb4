/** Recipe extraction from one rendered page, and the batch scrape that keeps
    the recipes with ingredients. Rendering a URL in a headless browser and
    running the CSS selectors over the parsed document are inputs: a `Page`
    holds what each selector query returned. */
module Extractor {
  import opened Options
  import opened Seqs
  import opened Text
  import Keywords
  import Sitemap

  /** The placeholder stored for a field whose element is missing. */
  const SENTINEL := "N/A"

  /** A parsed element: its descendant text nodes in document order, its
      attributes, and its `class` list. */
  datatype Element = Element(texts: seq<string>, attrs: map<string, string>, classes: seq<string>)

  /** The results of the selector queries the extractor runs over one page. */
  datatype Page = Page(
    heading: Option<Element>,          // h1
    metaDescription: Option<Element>,  // meta[name=description]
    recipeImage: Option<Element>,      // div.recipe-image img
    primaryImage: Option<Element>,     // img.primary-image
    firstImage: Option<Element>,       // the first img of the document
    ingredientItems: seq<Element>,     // ul.recipe-ingredients__list li
    directionItems: seq<Element>,      // li.recipe-directions__item
    listItems: seq<Element>,           // every li of the document
    reviewAverage: Option<Element>,    // span.review-average
    prepTime: Option<Element>,         // span.prep-time
    cookTime: Option<Element>,         // span.cook-time
    totalTime: Option<Element>,        // span.total-time
    nutritionItems: seq<Element>,      // div.nutrition-section li
    categoryLinks: seq<Element>        // a.category-link
  )

  /** One saved recipe record. */
  datatype Recipe = Recipe(
    url: string,
    title: string,
    description: string,
    imageUrl: string,
    ingredients: seq<string>,
    instructions: seq<string>,
    rating: string,
    prepTime: string,
    cookTime: string,
    totalTime: string,
    nutrition: map<string, string>,
    categories: seq<string>,
    keywords: seq<string>
  )

  lemma StrippedAppend(a: string, b: string)
    requires IsStripped(a) && IsStripped(b)
    ensures IsStripped(a + b)
  {
    if a != [] && b != [] {
      assert (a + b)[0] == a[0];
      assert (a + b)[|a + b| - 1] == b[|b| - 1];
    }
  }

  /** The concatenation of the stripped text nodes. */
  function StrippedConcat(texts: seq<string>): (r: string)
    ensures IsStripped(r)
    ensures r == Flatten(MapSeq(Strip, texts))
    decreases |texts|
  {
    if texts == [] then []
    else
      var head := Strip(texts[0]);
      var rest := StrippedConcat(texts[1..]);
      StrippedAppend(head, rest);
      assert MapSeq(Strip, texts)[1..] == MapSeq(Strip, texts[1..]);
      head + rest
  }

  /** The text is empty exactly when every text node is whitespace only. */
  lemma {:induction false} StrippedConcatEmpty(texts: seq<string>)
    ensures StrippedConcat(texts) == [] <==> forall k :: 0 <= k < |texts| ==> AllChars(IsSpace, texts[k])
    decreases |texts|
  {
    if texts != [] {
      var head := Strip(texts[0]);
      var rest := StrippedConcat(texts[1..]);
      StrippedConcatEmpty(texts[1..]);
      assert StrippedConcat(texts) == head + rest;
      assert head == [] <==> AllChars(IsSpace, texts[0]);
      assert (forall k :: 0 <= k < |texts| ==> AllChars(IsSpace, texts[k])) <==>
        AllChars(IsSpace, texts[0]) && forall k :: 0 <= k < |texts[1..]| ==> AllChars(IsSpace, texts[1..][k])
      by {
        assert forall k :: 0 < k < |texts| ==> texts[k] == texts[1..][k - 1];
      }
    }
  }

  /** `get_text(strip=True)`: every text node stripped, empty ones dropped,
      the rest joined with no separator. */
  function GetText(e: Element): (r: string)
    ensures r == Flatten(MapSeq(Strip, e.texts))
    ensures IsStripped(r)
    ensures r == [] <==> forall k :: 0 <= k < |e.texts| ==> AllChars(IsSpace, e.texts[k])
  {
    StrippedConcatEmpty(e.texts);
    StrippedConcat(e.texts)
  }

  /** `safe_get(selector, attr)`: the sentinel when nothing matched, the
      stripped attribute when one is asked for and present, and otherwise the
      element's text. */
  function SafeGet(found: Option<Element>, attr: Option<string>): (r: string)
    ensures IsStripped(r)
    ensures found.None? ==> r == SENTINEL
    ensures found.Some? && attr.Some? && attr.value != "" && attr.value in found.value.attrs ==>
      r == Strip(found.value.attrs[attr.value])
    ensures found.Some? && !(attr.Some? && attr.value != "" && attr.value in found.value.attrs) ==>
      r == GetText(found.value)
  {
    match found
    case None => SENTINEL
    case Some(el) =>
      if attr.Some? && attr.value != "" && attr.value in el.attrs then Strip(el.attrs[attr.value])
      else GetText(el)
  }

  /** The sentinel does not mean that nothing was found: an element whose
      text is the placeholder itself, padded or not, yields it as well. */
  lemma SafeGetFoundSentinel(el: Element)
    requires el.texts == [" " + SENTINEL + " "]
    ensures SafeGet(Some(el), None) == SENTINEL
  {
    var t := el.texts[0];
    assert t[1..4] == SENTINEL;
    StripUnique(t, 1, 4);
    assert MapSeq(Strip, el.texts) == [SENTINEL];
    assert Flatten([SENTINEL]) == SENTINEL + Flatten([]);
  }

  /** The first of the candidates that exists (`a or b or c`). */
  function FirstFound(a: Option<Element>, b: Option<Element>, c: Option<Element>): (r: Option<Element>)
    ensures a.Some? ==> r == a
    ensures a.None? && b.Some? ==> r == b
    ensures a.None? && b.None? ==> r == c
    ensures r.None? <==> a.None? && b.None? && c.None?
  {
    if a.Some? then a else if b.Some? then b else c
  }

  /** The image the extractor settles on. */
  function ChosenImage(p: Page): Option<Element> {
    FirstFound(p.recipeImage, p.primaryImage, p.firstImage)
  }

  /** The image URL: the `src` of the first candidate image found, taken as
      is, or the sentinel when that image has no `src`. */
  function ImageUrl(p: Page): (r: string)
    ensures ChosenImage(p).Some? && "src" in ChosenImage(p).value.attrs ==> r == ChosenImage(p).value.attrs["src"]
    ensures ChosenImage(p).None? || "src" !in ChosenImage(p).value.attrs ==> r == SENTINEL
    ensures r == SENTINEL || exists e :: e in [p.recipeImage, p.primaryImage, p.firstImage]
                                       && e.Some? && "src" in e.value.attrs && e.value.attrs["src"] == r
  {
    var img := ChosenImage(p);
    if img.Some? && "src" in img.value.attrs then img.value.attrs["src"] else SENTINEL
  }

  /** Once an earlier candidate exists, the later ones are never consulted,
      even when the earlier one has no `src` and a later one does. */
  lemma ImageFromFirstCandidate(p: Page, q: Page)
    requires p.recipeImage.Some? && q.recipeImage == p.recipeImage
    ensures ImageUrl(p) == ImageUrl(q)
    ensures "src" !in p.recipeImage.value.attrs ==> ImageUrl(p) == SENTINEL
  {
  }

  /** The same holds one step down the chain: with no recipe image, an
      existing primary image decides on its own. */
  lemma ImageFromSecondCandidate(p: Page, q: Page)
    requires p.recipeImage.None? && q.recipeImage.None?
    requires p.primaryImage.Some? && q.primaryImage == p.primaryImage
    ensures ImageUrl(p) == ImageUrl(q)
    ensures "src" !in p.primaryImage.value.attrs ==> ImageUrl(p) == SENTINEL
  {
  }

  predicate NonEmpty(s: string) {
    s != []
  }

  /** The texts of the ingredient items, dropping those that are empty. */
  function Ingredients(items: seq<Element>): (r: seq<string>)
    ensures |r| <= |items|
    ensures forall i :: 0 <= i < |r| ==> r[i] != []
    ensures forall x :: x in r <==> x != [] && x in MapSeq(GetText, items)
    ensures forall x :: x != [] ==> multiset(r)[x] == multiset(MapSeq(GetText, items))[x]
    ensures IsSubseq(r, MapSeq(GetText, items))
  {
    FilterCounts(NonEmpty, MapSeq(GetText, items));
    FilterSubseq(NonEmpty, MapSeq(GetText, items));
    Filter(NonEmpty, MapSeq(GetText, items))
  }

  predicate IsStepItem(e: Element) {
    "step" in e.classes
  }

  /** The instruction texts: those of the direction items, kept even when
      empty, or, only when there are no direction items at all, those of the
      list items whose classes include `step`. */
  function Instructions(p: Page): (r: seq<string>)
    ensures p.directionItems != [] ==>
      |r| == |p.directionItems| && forall i :: 0 <= i < |r| ==> r[i] == GetText(p.directionItems[i])
    ensures p.directionItems == [] ==> r == MapSeq(GetText, Filter(IsStepItem, p.listItems))
    ensures p.directionItems == [] ==>
      forall t :: t in r ==> exists e :: e in p.listItems && IsStepItem(e) && t == GetText(e)
    ensures p.directionItems == [] ==>
      forall e :: e in p.listItems && IsStepItem(e) ==> GetText(e) in r
    ensures r == [] <==> p.directionItems == [] && forall e :: e in p.listItems ==> !IsStepItem(e)
  {
    if p.directionItems != [] then MapSeq(GetText, p.directionItems)
    else
      StepTexts(p.listItems);
      MapSeq(GetText, Filter(IsStepItem, p.listItems))
  }

  /** The fallback texts come from `step` items only, cover all of them, and
      are missing only when there is no such item. */
  lemma StepTexts(items: seq<Element>)
    ensures forall t :: t in MapSeq(GetText, Filter(IsStepItem, items)) ==>
      exists e :: e in items && IsStepItem(e) && t == GetText(e)
    ensures forall e :: e in items && IsStepItem(e) ==> GetText(e) in MapSeq(GetText, Filter(IsStepItem, items))
    ensures MapSeq(GetText, Filter(IsStepItem, items)) == [] <==> forall e :: e in items ==> !IsStepItem(e)
  {
    MapFilterFrom(GetText, IsStepItem, items);
    MapFilterCovers(GetText, IsStepItem, items);
    MapFilterEmpty(GetText, IsStepItem, items);
  }

  /** One `key: value` nutrition line. */
  datatype Entry = Entry(key: string, value: string)

  /** A nutrition item's text split at its first colon, both sides stripped;
      nothing for a text without a colon. */
  function NutritionEntry(text: string): (r: Option<Entry>)
    ensures r.None? <==> ':' !in text
    ensures r.Some? ==> ':' !in r.value.key && IsStripped(r.value.key) && IsStripped(r.value.value)
  {
    var k := IndexOf(text, ':');
    if k == |text| then None
    else
      assert ':' !in text[..k];
      StripKeepsChars(text[..k]);
      Some(Entry(Strip(text[..k]), Strip(text[k + 1..])))
  }

  /** The split is at the FIRST colon: a value may itself contain colons. */
  lemma NutritionEntrySplit(before: string, after: string)
    requires ':' !in before
    ensures NutritionEntry(before + ":" + after) == Some(Entry(Strip(before), Strip(after)))
  {
    var text := before + ":" + after;
    var k := IndexOf(text, ':');
    assert text[|before|] == ':';
    assert k == |before|;
    assert text[..k] == before;
    assert text[k + 1..] == after;
  }

  /** The nutrition dictionary filled from the entries in order: a later
      entry overwrites an earlier one with the same key. */
  function Fill(entries: seq<Option<Entry>>): (r: map<string, string>)
    ensures forall k :: k in r ==> exists i :: 0 <= i < |entries| && HasKey(entries[i], k)
    ensures entries != [] && entries[|entries| - 1].Some? ==>
      var last := entries[|entries| - 1].value;
      last.key in r && r[last.key] == last.value
    decreases |entries|
  {
    if entries == [] then map[]
    else
      var m := Fill(entries[..|entries| - 1]);
      match entries[|entries| - 1]
      case None => m
      case Some(e) => m[e.key := e.value]
  }

  predicate HasKey(entry: Option<Entry>, k: string) {
    entry.Some? && entry.value.key == k
  }

  /** An entry as `NutritionEntry` makes it: a colon-free key, both sides stripped. */
  predicate CleanEntry(entry: Option<Entry>) {
    entry.Some? ==> ':' !in entry.value.key && IsStripped(entry.value.key) && IsStripped(entry.value.value)
  }

  /** Filling from clean entries gives clean keys and values. */
  lemma {:induction false} FillClean(entries: seq<Option<Entry>>)
    requires forall i :: 0 <= i < |entries| ==> CleanEntry(entries[i])
    ensures forall k :: k in Fill(entries) ==> ':' !in k && IsStripped(k) && IsStripped(Fill(entries)[k])
    decreases |entries|
  {
    if entries != [] {
      var init := entries[..|entries| - 1];
      assert forall i :: 0 <= i < |init| ==> init[i] == entries[i];
      FillClean(init);
      assert CleanEntry(entries[|entries| - 1]);
    }
  }

  /** Exactly the keys of the entries are present. */
  lemma {:induction false} FillKeys(entries: seq<Option<Entry>>)
    ensures forall k :: k in Fill(entries) <==> exists i :: 0 <= i < |entries| && HasKey(entries[i], k)
    decreases |entries|
  {
    if entries != [] {
      var init := entries[..|entries| - 1];
      FillKeys(init);
      assert forall i :: 0 <= i < |init| ==> init[i] == entries[i];
    }
  }

  /** The last entry with a given key decides its value. */
  lemma {:induction false} FillLastWins(entries: seq<Option<Entry>>, i: nat)
    requires i < |entries| && entries[i].Some?
    requires forall j :: i < j < |entries| ==> !HasKey(entries[j], entries[i].value.key)
    ensures entries[i].value.key in Fill(entries)
    ensures Fill(entries)[entries[i].value.key] == entries[i].value.value
    decreases |entries|
  {
    var init := entries[..|entries| - 1];
    if i < |init| {
      assert init[i] == entries[i];
      assert forall j :: i < j < |init| ==> init[j] == entries[j];
      FillLastWins(init, i);
    }
  }

  /** The position of the last entry whose key is `k`, searching from `i` on. */
  function LastWithKey(entries: seq<Option<Entry>>, k: string, i: nat): (last: nat)
    requires i < |entries| && HasKey(entries[i], k)
    ensures i <= last < |entries|
    ensures HasKey(entries[last], k)
    ensures forall j :: last < j < |entries| ==> !HasKey(entries[j], k)
    decreases |entries| - i
  {
    if exists j :: i < j < |entries| && HasKey(entries[j], k) then
      var j :| i < j < |entries| && HasKey(entries[j], k);
      LastWithKey(entries, k, j)
    else i
  }

  /** Every key of the dictionary holds the value of its LAST entry. */
  lemma FillValues(entries: seq<Option<Entry>>)
    ensures forall k :: k in Fill(entries) ==>
      exists i :: 0 <= i < |entries| && HasKey(entries[i], k) && Fill(entries)[k] == entries[i].value.value
                  && forall j :: i < j < |entries| ==> !HasKey(entries[j], k)
  {
    FillKeys(entries);
    forall k | k in Fill(entries)
      ensures exists i :: 0 <= i < |entries| && HasKey(entries[i], k) && Fill(entries)[k] == entries[i].value.value
                          && forall j :: i < j < |entries| ==> !HasKey(entries[j], k)
    {
      var i :| 0 <= i < |entries| && HasKey(entries[i], k);
      var last := LastWithKey(entries, k, i);
      FillLastWins(entries, last);
    }
  }

  /** The nutrition line of each nutrition item, in document order. */
  function NutritionEntries(items: seq<Element>): (r: seq<Option<Entry>>)
    ensures |r| == |items|
    ensures forall i :: 0 <= i < |items| ==> r[i] == NutritionEntry(GetText(items[i])) && CleanEntry(r[i])
  {
    MapSeq(e => NutritionEntry(GetText(e)), items)
  }

  /** The nutrition dictionary: one key per item whose text has a colon, mapped
      to the value of the last item with that key. */
  function Nutrition(items: seq<Element>): (r: map<string, string>)
    ensures forall k :: k in r <==> exists i :: 0 <= i < |items| && HasKey(NutritionEntries(items)[i], k)
    ensures forall k :: k in r ==>
      exists i :: 0 <= i < |items| && HasKey(NutritionEntries(items)[i], k)
                  && r[k] == NutritionEntries(items)[i].value.value
                  && forall j :: i < j < |items| ==> !HasKey(NutritionEntries(items)[j], k)
    ensures forall k :: k in r ==> ':' !in k && IsStripped(k) && IsStripped(r[k])
  {
    var entries := NutritionEntries(items);
    FillKeys(entries);
    FillValues(entries);
    var r := Fill(entries);
    FillClean(entries);
    r
  }

  /** The texts of the category links. */
  function Categories(links: seq<Element>): (r: seq<string>)
    ensures |r| == |links|
    ensures forall i :: 0 <= i < |r| ==> r[i] == GetText(links[i]) && IsStripped(r[i])
  {
    MapSeq(GetText, links)
  }

  /** `extract_recipe_data` once the page has been rendered and parsed. */
  function ExtractRecipeData(url: string, p: Page): (r: Recipe)
    ensures r.url == url
    ensures IsStripped(r.title) && IsStripped(r.description) && IsStripped(r.rating)
    ensures IsStripped(r.prepTime) && IsStripped(r.cookTime) && IsStripped(r.totalTime)
    ensures p.heading.None? ==> r.title == SENTINEL
    ensures p.metaDescription.None? ==> r.description == SENTINEL
    ensures forall i :: 0 <= i < |r.ingredients| ==> r.ingredients[i] != []
    ensures |r.keywords| <= Keywords.MAX_KEYWORDS
    ensures forall w :: w in r.keywords ==> w in Keywords.Words(r.description, r.instructions)
    ensures forall k :: k in r.nutrition ==> ':' !in k
    ensures r.title == SafeGet(p.heading, None)
    ensures r.description == SafeGet(p.metaDescription, Some("content"))
    ensures r.imageUrl == ImageUrl(p)
    ensures r.ingredients == Ingredients(p.ingredientItems)
    ensures r.instructions == Instructions(p)
    ensures r.rating == SafeGet(p.reviewAverage, None)
    ensures r.prepTime == SafeGet(p.prepTime, None)
    ensures r.cookTime == SafeGet(p.cookTime, None)
    ensures r.totalTime == SafeGet(p.totalTime, None)
    ensures r.nutrition == Nutrition(p.nutritionItems)
    ensures r.categories == Categories(p.categoryLinks)
    ensures r.keywords == Keywords.Keywords(r.description, r.instructions)
  {
    var description := SafeGet(p.metaDescription, Some("content"));
    var instructions := Instructions(p);
    Recipe(
      url := url,
      title := SafeGet(p.heading, None),
      description := description,
      imageUrl := ImageUrl(p),
      ingredients := Ingredients(p.ingredientItems),
      instructions := instructions,
      rating := SafeGet(p.reviewAverage, None),
      prepTime := SafeGet(p.prepTime, None),
      cookTime := SafeGet(p.cookTime, None),
      totalTime := SafeGet(p.totalTime, None),
      nutrition := Nutrition(p.nutritionItems),
      categories := Categories(p.categoryLinks),
      keywords := Keywords.Keywords(description, instructions)
    )
  }

  predicate HasIngredients(r: Recipe) {
    r.ingredients != []
  }

  /** Rendering and extracting one URL. */
  function ScrapeWith(render: string -> Page): string -> Recipe {
    u => ExtractRecipeData(u, render(u))
  }

  /** One more iteration of the scrape loop appends at most the new record. */
  lemma ScrapeStep(urls: seq<string>, scrape: string -> Recipe, i: nat)
    requires i < |urls|
    ensures Filter(HasIngredients, MapSeq(scrape, urls[..i + 1]))
         == Filter(HasIngredients, MapSeq(scrape, urls[..i]))
            + (if HasIngredients(scrape(urls[i])) then [scrape(urls[i])] else [])
  {
    assert urls[..i + 1] == urls[..i] + [urls[i]];
    MapSeqConcat(scrape, urls[..i], [urls[i]]);
    assert MapSeq(scrape, [urls[i]]) == [scrape(urls[i])];
    FilterConcat(HasIngredients, MapSeq(scrape, urls[..i]), [scrape(urls[i])]);
    assert Filter(HasIngredients, [scrape(urls[i])])
        == (if HasIngredients(scrape(urls[i])) then [scrape(urls[i])] else []);
  }

  /** The records of the scrape loop: each URL is scraped in order and its
      record kept when it has ingredients. */
  method ScrapeAll(urls: seq<string>, scrape: string -> Recipe) returns (recipes: seq<Recipe>)
    ensures recipes == Filter(HasIngredients, MapSeq(scrape, urls))
  {
    recipes := [];
    var i := 0;
    while i < |urls|
      invariant 0 <= i <= |urls|
      invariant recipes == Filter(HasIngredients, MapSeq(scrape, urls[..i]))
    {
      var data := scrape(urls[i]);
      ScrapeStep(urls, scrape, i);
      if HasIngredients(data) {
        recipes := recipes + [data];
      }
      i := i + 1;
    }
    assert urls[..i] == urls;
  }

  /** A kept record has ingredients and comes from one of the scraped URLs. */
  lemma KeptRecipes(render: string -> Page, urls: seq<string>)
    ensures forall r :: r in Filter(HasIngredients, MapSeq(ScrapeWith(render), urls)) ==>
      r.ingredients != [] && r.url in urls
  {
    var all := MapSeq(ScrapeWith(render), urls);
    forall j | 0 <= j < |all| ensures all[j].url in urls {
      ScrapedUrl(render, urls[j]);
    }
    forall r | r in Filter(HasIngredients, all) ensures r.ingredients != [] && r.url in urls {
      assert r in all;
    }
  }

  lemma ScrapedUrl(render: string -> Page, u: string)
    ensures ScrapeWith(render)(u).url == u
  {
    assert ScrapeWith(render)(u) == ExtractRecipeData(u, render(u));
  }

  datatype Saved = Saved(recipes: seq<Recipe>) | Aborted(status: int)

  /** `batch_scrape_and_save`: collect the recipe URLs, scrape each, and keep
      the records with ingredients; a failed sitemap request, of the index or
      of a child sitemap, aborts the whole run before anything is saved.
      `collected` and `fetched` are the collection's outcome and requests. */
  method BatchScrapeAndSave(index: Sitemap.Fetch, fetch: string -> Sitemap.Fetch, render: string -> Page, limit: int)
    returns (outcome: Saved, collected: Sitemap.Collected, fetched: seq<string>)
    ensures Sitemap.Extracts(index, fetch, limit, collected, fetched)
    ensures outcome.Saved? <==> collected.Urls?
    ensures outcome.Aborted? ==> outcome.status == collected.status
    ensures index.FetchFailed? ==> outcome == Aborted(index.status)
    ensures outcome.Saved? ==> collected.urls == PyPrefix(Sitemap.Gathered(fetch, fetched), limit)
    ensures outcome.Saved? ==> outcome.recipes == Filter(HasIngredients, MapSeq(ScrapeWith(render), collected.urls))
    ensures outcome.Saved? && limit >= 0 ==> |outcome.recipes| <= |collected.urls| <= limit
    ensures outcome.Saved? ==> forall r :: r in outcome.recipes ==> r.ingredients != [] && r.url in collected.urls
    ensures collected.Urls? ==> forall u :: u in collected.urls ==> Sitemap.IsRecipePageUrl(u)
  {
    collected, fetched := Sitemap.ExtractAllRecipeUrls(index, fetch, limit);
    if collected.Failure? {
      return Aborted(collected.status), collected, fetched;
    }
    var recipes := ScrapeAll(collected.urls, ScrapeWith(render));
    outcome := Saved(recipes);
    KeptRecipes(render, collected.urls);
  }
}
