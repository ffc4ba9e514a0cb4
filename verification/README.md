# Recipe crawler: a Dafny model

This project models the decision logic of a small recipe crawler and its dashboard, then proves properties of that model. The crawler reads a sitemap index, fetches a few recipe sitemaps and collects recipe page URLs. It extracts a record from each rendered recipe page, keeps the records that have ingredients, and summarises a site's robots.txt. The dashboard filters and pages the saved recipes and counts ingredient words.

The model is pure and functional. Fetching documents, rendering pages, running CSS or XML queries and writing JSON are all inputs:

- a `fetch` function from a sitemap URL to a `Sitemap.Fetch` value: the `<loc>` texts, or the failing HTTP status;
- a `render` function from a URL to an `Extractor.Page` holding the selector results;
- a robots.txt status plus its lines.

| file | module | what it models |
|---|---|---|
| `options.dfy` | `Options` | `Option` with a `.get`-style default |
| `seqs.dfy` | `Seqs` | order-preserving filter, map, flatten, subsequences, `s[:n]` slicing, first-index search |
| `text.dfy` | `Text` | Python `strip`, `in` on strings, `startswith`/`endswith`, ASCII `lower`, runs of characters (`split()`, `\w+`) |
| `sitemap.dfy` | `Sitemap` | `get_recipe_sitemap_links`, `extract_all_recipe_urls` |
| `keywords.dfy` | `Keywords` | keyword tokenising, stopword filter and `Counter.most_common(10)` ordering |
| `extractor.dfy` | `Extractor` | `extract_recipe_data` after rendering, `batch_scrape_and_save` |
| `robots.dfy` | `Robots` | `analyze_robots_txt` after fetching |
| `dashboard.dfy` | `Dashboard` | `match`, `ingredient_filter`, the filter loop, pagination, the counting parts of `analyze_recipe_data` |

Three details of the code that the model keeps:

- The keyword stoplist has 19 words.
- The placeholder for a missing element is `"N/A"`.
- Direction items are kept even when their text is empty. Only ingredients are filtered for emptiness.

## Model

| member | source | states |
|---|---|---|
| Seqs.Filter | web_crawler_project/crawler/sitemap_parser.py:16 | a list comprehension with an `if` keeps only accepted elements, every accepted element of the input is kept, and the result is no longer than the input |
| Seqs.FilterCounts | web_crawler_project/crawler/sitemap_parser.py:16 | each accepted element keeps its exact number of occurrences, and rejected elements never appear |
| Seqs.FilterSubseq | web_crawler_project/crawler/sitemap_parser.py:16 | the comprehension keeps document order: its result is a subsequence of the input |
| Seqs.FilterUnique | web_crawler_project/crawler/sitemap_parser.py:16 | an order-preserving selection with the right element counts must equal the filter, so the properties above pin the comprehension down |
| Seqs.PyPrefix | web_crawler_project/crawler/sitemap_parser.py:35 | `s[:n]` is a prefix of `s` with `min(n, len)` elements, and for negative `n` all but the last `-n` elements |
| Text.Strip | web_crawler_project/crawler/crawlability_checker.py:21 | `strip()` is a slice of its input with only whitespace cut off before and after it; the slice has no whitespace at either end, and it is empty exactly when the input is all whitespace |
| Text.StripUnique | web_crawler_project/crawler/crawlability_checker.py:21 | any slice with no outer whitespace and only whitespace around it is what `strip()` returns, so the contract above determines `strip()` |
| Text.StripKeepsChars | web_crawler_project/crawler/content_extractor.py:72 | stripping only removes characters, so it never introduces a colon |
| Text.Runs | web_crawler_project/crawler/content_extractor.py:80 | the word runs are non-empty, hold only word characters, and together hold exactly the word characters of the text, in order |
| Text.Gaps | web_crawler_project/crawler/content_extractor.py:80 | there is one gap more than there are runs, and every gap holds only non-word characters |
| Text.GapsSeparate | web_crawler_project/crawler/content_extractor.py:80 | every gap between two runs is non-empty, and so is the leading gap of a text that starts with a non-word character: runs are maximal |
| Text.RunsRoundTrip | web_crawler_project/crawler/content_extractor.py:80 | gaps and runs interleaved give back the whole text |
| Text.RunsUnique | web_crawler_project/crawler/content_extractor.py:80 | any split of the text into maximal runs of word characters and non-empty separating gaps is the one `re.findall(r'\b\w+\b', …)` finds |
| Sitemap.RecipeSitemapLinks | web_crawler_project/crawler/sitemap_parser.py:15-16 | exactly the locs containing `recipe-sitemap`, each with its multiplicity, in document order |
| Sitemap.RecipePageUrls | web_crawler_project/crawler/sitemap_parser.py:30-31 | a kept URL contains `/recipes/` anywhere and does not end in `.jpg`, `.png` or `.jpeg`; qualifying URLs keep their multiplicity and order |
| Sitemap.Gathered | web_crawler_project/crawler/sitemap_parser.py:29-32 | the accumulator after the given sitemaps holds only recipe page URLs |
| Sitemap.GatheredSnoc | web_crawler_project/crawler/sitemap_parser.py:29-32 | processing one more sitemap appends exactly that sitemap's qualifying URLs to the accumulator |
| Sitemap.GatheredStep | web_crawler_project/crawler/sitemap_parser.py:29-32 | after sitemap `i`, the accumulator is the one before it extended by sitemap `i`'s qualifying URLs |
| Sitemap.GatheredPrefix | web_crawler_project/crawler/sitemap_parser.py:32 | processing more sitemaps only appends: the accumulator never loses or reorders URLs |
| Sitemap.GatheredRecipePages | web_crawler_project/crawler/sitemap_parser.py:29-32 | every accumulated URL passes the recipe-page test |
| Sitemap.NotFullBeforeAt | web_crawler_project/crawler/sitemap_parser.py:33-34 | a sitemap is processed only if, after every earlier one, fewer than `limit` URLs had been gathered |
| Sitemap.CollectRecipeUrls | web_crawler_project/crawler/sitemap_parser.py:28-35 | the requests made are a prefix of the sitemap list, starting with the first sitemap whenever there is one; a failed request ends the run with its status after all earlier ones succeeded; the loop stops only when the accumulator reaches `limit` or the list runs out, never earlier; the result is the accumulator sliced `[:limit]` |
| Sitemap.AllSucceededAt | web_crawler_project/crawler/sitemap_parser.py:29-30 | a request among a run of successful ones succeeded |
| Sitemap.FailureEndsRun | web_crawler_project/crawler/sitemap_parser.py:30 | once a request has failed, no longer run of requests succeeded throughout |
| Sitemap.CollectsNotShorter | web_crawler_project/crawler/sitemap_parser.py:29-34 | two runs that both keep the collection contract stop after the same number of requests |
| Sitemap.CollectionDeterministic | web_crawler_project/crawler/sitemap_parser.py:29-35 | the collection contract has exactly one outcome and request list for given sitemaps, responses and limit, so it pins down the loop, `limit <= 0` included |
| Sitemap.CollectedLength | web_crawler_project/crawler/sitemap_parser.py:33-35 | the result holds at most `limit` URLs; it holds exactly `limit` when the capped sitemaps offer that many, and all of them otherwise |
| Sitemap.CappedSitemaps | web_crawler_project/crawler/sitemap_parser.py:28 | `[:3]` of the recipe sitemaps: a prefix of them in index order, of length `min(3, n)`, so exactly the first three when there are more; none when the index request failed |
| Sitemap.ExtractAllRecipeUrls | web_crawler_project/crawler/sitemap_parser.py:26-35 | a failed index request fails with nothing else fetched; otherwise the collection contract holds over the first three recipe sitemaps: the first is always requested, the loop stops only when the accumulator is full or the sitemaps are exhausted, and the result is the accumulator sliced `[:limit]`; every returned URL passes the recipe-page test; with `limit >= 0` the result has exactly `limit` URLs when enough exist and everything otherwise |
| Sitemap.ExtractionDeterministic | web_crawler_project/crawler/sitemap_parser.py:26-35 | the extraction contract has exactly one outcome and request list for given responses and limit |
| Keywords.CandidateWords | web_crawler_project/crawler/content_extractor.py:79-85 | the candidates are the lower-cased word tokens of description plus steps that are longer than three characters and not stopwords, each with its number of occurrences, in text order |
| Keywords.Words | web_crawler_project/crawler/content_extractor.py:79-80 | the tokens are non-empty runs of ASCII word characters that together hold exactly the word characters of the lower-cased text, in order |
| Keywords.WordsMaximal | web_crawler_project/crawler/content_extractor.py:80 | the tokens are maximal: with the stretches between them they rebuild the lower-cased text, and any split into word runs separated by non-empty non-word stretches is this one |
| Seqs.IndexOf | web_crawler_project/crawler/content_extractor.py:86 | the position of the first occurrence, or the length when there is none; it breaks ties between equally frequent tokens and finds the first colon of a nutrition item |
| Keywords.OutranksTotal | web_crawler_project/crawler/content_extractor.py:86 | any two distinct tokens are ordered one way or the other by (count, first occurrence) |
| Keywords.InsertByRank | web_crawler_project/crawler/content_extractor.py:86 | inserting into a ranked list keeps it ranked and adds exactly the new token |
| Keywords.SortByRank | web_crawler_project/crawler/content_extractor.py:86 | the distinct tokens, each once, in `most_common` order |
| Keywords.PrefixOutranksRest | web_crawler_project/crawler/content_extractor.py:86 | every token in a cut-off prefix of a ranked list outranks every token left out |
| Keywords.MostCommon | web_crawler_project/crawler/content_extractor.py:86 | at most `n` distinct tokens drawn from the input, ranked by count and then first occurrence; any omitted token means the list is full and is outranked by every kept one |
| Keywords.Keywords | web_crawler_project/crawler/content_extractor.py:78-86 | at most ten pairwise distinct keywords, each a long non-stopword token of the text, in frequency order; every candidate left out is outranked by every keyword kept, and one is left out only when the list is full |
| Extractor.GetText | web_crawler_project/crawler/content_extractor.py:34 | `get_text(strip=True)` is the concatenation of the element's stripped text nodes, has no outer whitespace, and is empty exactly when every text node is whitespace |
| Extractor.StrippedConcatEmpty | web_crawler_project/crawler/content_extractor.py:51 | the joined stripped text is empty exactly when every text node is whitespace only |
| Extractor.SafeGet | web_crawler_project/crawler/content_extractor.py:30-34 | `"N/A"` when nothing matched; the stripped attribute value when a non-empty attribute name is asked for and present; the element text in every other case |
| Extractor.SafeGetFoundSentinel | web_crawler_project/crawler/content_extractor.py:30-34 | `"N/A"` does not mean nothing matched: an element whose text is ` N/A ` gives it too |
| Extractor.FirstFound | web_crawler_project/crawler/content_extractor.py:41-43 | the `or` chain yields the first candidate when it exists, else the second when it exists, else the third |
| Extractor.ImageUrl | web_crawler_project/crawler/content_extractor.py:39-45 | the unstripped `src` of the candidate the `or` chain picks when it has one, and `"N/A"` when no candidate exists or the picked one has no `src` |
| Extractor.ImageFromFirstCandidate | web_crawler_project/crawler/content_extractor.py:41-45 | once the first candidate exists, the later ones are ignored, even when it lacks `src` and they have one |
| Extractor.ImageFromSecondCandidate | web_crawler_project/crawler/content_extractor.py:41-45 | with no first candidate, an existing second one decides alone: without `src` it gives `"N/A"` even when the first `img` of the page has one |
| Extractor.Ingredients | web_crawler_project/crawler/content_extractor.py:48-52 | exactly the non-empty item texts, with their multiplicities, in document order |
| Extractor.Instructions | web_crawler_project/crawler/content_extractor.py:53-59 | the direction items' texts are kept as they are, empty ones included; when there are none, the result is the texts of the `step`-class items, in document order; the result is empty exactly when both sources are |
| Extractor.StepTexts | web_crawler_project/crawler/content_extractor.py:55-59 | every fallback text is the text of some `step`-class item, every such item contributes its text, and the fallback is empty exactly when there is no such item |
| Extractor.NutritionEntry | web_crawler_project/crawler/content_extractor.py:70-72 | a text without a colon gives nothing; otherwise a colon-free stripped label and a stripped value |
| Extractor.NutritionEntrySplit | web_crawler_project/crawler/content_extractor.py:72 | the split is at the first colon, so the value keeps any later colons |
| Extractor.Fill | web_crawler_project/crawler/content_extractor.py:68-73 | dictionary assignment in item order: every key comes from some item, and the last item's key holds the last item's value |
| Extractor.FillKeys | web_crawler_project/crawler/content_extractor.py:68-73 | the dictionary's keys are exactly the labels of the colon items |
| Extractor.FillLastWins | web_crawler_project/crawler/content_extractor.py:73 | the last item with a label decides its value |
| Extractor.LastWithKey | web_crawler_project/crawler/content_extractor.py:73 | the last item carrying a given label exists and no later item carries it |
| Extractor.FillValues | web_crawler_project/crawler/content_extractor.py:68-73 | every key holds the value of its last item |
| Extractor.FillClean | web_crawler_project/crawler/content_extractor.py:68-73 | filling from entries whose labels hold no colon and whose both sides are stripped gives a dictionary with the same properties |
| Extractor.Nutrition | web_crawler_project/crawler/content_extractor.py:67-73 | one key per labelled item, holding the value of the last item with that label; keys hold no colon and both sides are stripped |
| Extractor.Categories | web_crawler_project/crawler/content_extractor.py:76 | one entry per category link, in order: that link's `get_text(strip=True)` |
| Extractor.ExtractRecipeData | web_crawler_project/crawler/content_extractor.py:36-102 | the record carries its URL, and each field is the value its extractor computes: title, description, rating and times from `safe_get` with their selectors, the chosen image URL, the non-empty ingredient texts, the instructions with their fallback, the nutrition map, the category texts, and the keywords of the description and instructions; hence text fields are stripped, ingredients non-empty, keywords at most ten, nutrition keys colon-free |
| Extractor.ScrapeStep | web_crawler_project/crawler/content_extractor.py:111-113 | scraping one more URL appends its record exactly when it has ingredients |
| Extractor.ScrapeAll | web_crawler_project/crawler/content_extractor.py:109-113 | the kept records are exactly the scraped records that have ingredients, in URL order |
| Extractor.ScrapedUrl | web_crawler_project/crawler/content_extractor.py:89 | a scraped record carries the URL it was scraped from |
| Extractor.KeptRecipes | web_crawler_project/crawler/content_extractor.py:112-113 | every kept record has ingredients and comes from one of the scraped URLs |
| Extractor.BatchScrapeAndSave | web_crawler_project/crawler/content_extractor.py:104-113 | the URLs come from the extraction contract above; a failure of the index or of any child sitemap request aborts before anything is saved, and records are saved exactly when collection succeeds; the saved records are exactly the scraped records with ingredients, in URL order; with `limit >= 0` there are no more of them than URLs, and at most `limit` URLs |
| Robots.LowerStartsWithMeaning | web_crawler_project/crawler/crawlability_checker.py:26-28 | the character-wise prefix test equals `line.lower().startswith(p)` |
| Robots.ClassifyChain | web_crawler_project/crawler/crawlability_checker.py:22-29 | the classification is the `if`/`elif` chain of the code: a directive is chosen exactly when its test (`startswith`, or `lower().startswith` for the last two) passes and every earlier test fails |
| Robots.ClassifyExact | web_crawler_project/crawler/crawlability_checker.py:22-25 | lines starting `Disallow` or `Allow` are those rules |
| Robots.ClassifyCaseSensitive | web_crawler_project/crawler/crawlability_checker.py:22-28 | `disallow…` and `ALLOW…` match no rule, because the first two tests are case-sensitive |
| Robots.ClassifySitemap | web_crawler_project/crawler/crawlability_checker.py:26-27 | `Sitemap…` and `SITEMAP…` are sitemap lines |
| Robots.ClassifyCrawlDelay | web_crawler_project/crawler/crawlability_checker.py:28-29 | `Crawl-delay…` and `CRAWL-DELAY…` are crawl-delay lines |
| Robots.ClassifySitemapAnyCase | web_crawler_project/crawler/crawlability_checker.py:22-27 | every line whose lower-cased form starts with `sitemap` is a sitemap line, whatever its capitalisation, since it cannot start with `Disallow` or `Allow` |
| Robots.ClassifyCrawlDelayAnyCase | web_crawler_project/crawler/crawlability_checker.py:22-29 | every line whose lower-cased form starts with `crawl-delay` is a crawl-delay line, whatever its capitalisation |
| Robots.FirstMalformed | web_crawler_project/crawler/crawlability_checker.py:20-29 | the first directive line without a colon, before which every line is well-formed |
| Robots.SecondField | web_crawler_project/crawler/crawlability_checker.py:23 | `split(":")[1]` is colon-free text that directly follows the first colon |
| Robots.AfterFirstColon | web_crawler_project/crawler/crawlability_checker.py:27 | `split(":", 1)[1]` is everything after the first colon |
| Robots.Value | web_crawler_project/crawler/crawlability_checker.py:21-29 | a sitemap line's value is everything after its first colon, stripped; any other directive's value is its second colon-separated field, stripped |
| Robots.RuleValue | web_crawler_project/crawler/crawlability_checker.py:23-25 | `Disallow: /path` gives back `/path` whatever whitespace follows the colon |
| Robots.RuleValueTruncated | web_crawler_project/crawler/crawlability_checker.py:23 | a second colon cuts a rule's value short: `Disallow: /a:b` gives `/a` |
| Robots.SitemapValue | web_crawler_project/crawler/crawlability_checker.py:27 | a sitemap URL keeps its own colons: `Sitemap: https://x/a.xml` gives `https://x/a.xml` |
| Robots.ValuesProjection | web_crawler_project/crawler/crawlability_checker.py:20-29 | each list holds the value of every line of its directive, in line order, and nothing else |
| Robots.AddFields | web_crawler_project/crawler/crawlability_checker.py:22-29 | one line appends its value to its own directive's list, or replaces the crawl delay, and leaves the other three fields unchanged |
| Robots.ScannedStep | web_crawler_project/crawler/crawlability_checker.py:20-29 | one more line extends the scan of its own directive by its value and leaves every other directive's scan unchanged |
| Robots.CollectScanned | web_crawler_project/crawler/crawlability_checker.py:20-29 | the accumulated lists are the per-directive scans, and the crawl delay is the value of the last crawl-delay line, or none |
| Robots.AnalyzeRobotsTxt | web_crawler_project/crawler/crawlability_checker.py:10-36 | the result is the status error exactly when the status is not 200; otherwise a directive line without a colon stops the scan with an error at the first such line, and a file without one gives the summary, whose lists hold their directives' values in line order and whose crawl delay is the last one, or none |
| Dashboard.AnyContains | web_crawler_project/crawler/app.py:381-383 | true exactly when some lower-cased ingredient contains the term |
| Dashboard.Match | web_crawler_project/crawler/app.py:377-384 | true exactly when the lower-cased term occurs in the lower-cased title (empty if absent) or in some lower-cased ingredient |
| Dashboard.EmptyTermMatches | web_crawler_project/crawler/app.py:377-379 | every recipe matches the empty term |
| Dashboard.ShortcutRedundant | web_crawler_project/crawler/app.py:392 | the `not search_term` shortcut never changes the outcome |
| Dashboard.IngredientFilter | web_crawler_project/crawler/app.py:386-388 | a recipe passes only when the minimum does not exceed the maximum |
| Dashboard.IngredientFilterInclusive | web_crawler_project/crawler/app.py:386-388 | both bounds are inclusive and exact: the recipe's own count passes as both bounds, one past it fails on either side |
| Dashboard.FilterRecipes | web_crawler_project/crawler/app.py:390-393 | the kept recipes are, in order, exactly those that match the search (or the search is empty) and have an ingredient count within both inclusive bounds |
| Dashboard.EmptySearchOnlyCounts | web_crawler_project/crawler/app.py:386-393 | with an empty search only the ingredient-count bounds decide |
| Dashboard.TotalPages | web_crawler_project/crawler/app.py:411-412 | the page count is at least one, is one for no recipes, and is otherwise the ceiling of the count over ten |
| Dashboard.PageSlice | web_crawler_project/crawler/app.py:416-420 | a page holds at most ten recipes, exactly ten before the last page, none only when nothing was found, and a contiguous run starting at `(page-1)*10` |
| Dashboard.ItemPage | web_crawler_project/crawler/app.py:416-420 | recipe `i` appears on page `i // 10 + 1` at row `i % 10` |
| Dashboard.PagesFromCover | web_crawler_project/crawler/app.py:416-420 | the pages from page `k` on, read in order, are the recipes from position `(k-1)*10` on |
| Dashboard.PagesConcatenate | web_crawler_project/crawler/app.py:411-420 | there is one page per page number, and the pages read in order give back the filtered list |
| Dashboard.CountedWordsMeaning | web_crawler_project/crawler/app.py:54-60 | a word is counted exactly when it is a whitespace-separated lower-cased word of some ingredient, longer than three characters and not a unit |
| Dashboard.Tally | web_crawler_project/crawler/app.py:54-60 | the counter has one key per distinct counted word, holding its number of occurrences |
| Dashboard.AnalyzeRecipeData | web_crawler_project/crawler/app.py:44-74 | no recipes give empty results; `all_ingredients` is every recipe's ingredients in order; the counter counts exactly the eligible words; one complexity row per recipe, in order, with its title (default `Unknown`) and its two counts |
| Dashboard.EmptyAnalysisAgrees | web_crawler_project/crawler/app.py:46-47 | with the results modelled as a map and two sequences, the early return for no recipes equals what the general computation gives for no recipes |
| Dashboard.AllIngredientsConcat | web_crawler_project/crawler/app.py:50-52 | the ingredients of two batches are those of the first followed by those of the second |

## Left out

- Network requests, `raise_for_status` and status checks are modelled as `Fetch` values and a status input. The error message text is not modelled.
- Headless-browser rendering, the fixed three-second wait and the driver's lifetime are left out, as is any rendering failure: `render` is a total function.
- BeautifulSoup parsing and selector queries are taken as inputs (`Page`, `Element`, the `<loc>` lists). Tag truthiness is `Some`.
- `splitlines` on the robots.txt body is an input: the model receives the lines.
- Directory creation, JSON files, progress prints and the Streamlit and Plotly interface are left out.
- Dictionary and `Counter` key order is not modelled: dictionaries are maps.
- Dashboard.AnalyzeRecipeData: the early return for no recipes gives three empty dictionaries, while the general path gives a `Counter` and two lists. The model gives an empty map and two empty sequences in both cases, so that difference in type is not modelled.
- `fetch` and `render` are functions of the URL: a URL requested twice gets the same response or page, whereas each request in the code can get a different outcome.
- `explore_sitemap_index.py` is not part of this model; it only fetches and prints an index.
- The float `complexity_score`, the `np.mean` averages, `highlight_search` and `get_crawlability_score` are left out: floating point, regex substitution and constants.
- Text.Lower: lower-cases ASCII letters only, and keyword tokens use ASCII `\w`; non-ASCII case mappings and word characters are not modelled.
- Robots.AnalyzeRobotsTxt: the `IndexError` that a directive line without a colon raises is modelled as a `LineError` result naming the line, rather than as an exception.
- Extractor.BatchScrapeAndSave: records are returned rather than written; the `if data` test is always true for a returned dictionary, so it is not modelled.
