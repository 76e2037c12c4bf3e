# Price-scraper core, modelled in Dafny

A model of the matching, caching and crawl bookkeeping of a Romanian
price-scraper bot. The bot searches PC Garage, eMAG and Altex for a product
name. It scores the result cards against the query and keeps the best card.
It keeps the winners in a JSON cache, keyed by site and by normalised query.
Standalone crawlers walk the Vexio and Altex listings page by page.

The browser, the file system, the clock and randomness are abstracted away:

- what a page shows enters as a sequence of cards or tiles;
- the cache file is a value (`Cache.Raw`), and every operation returns the value written back;
- clock readings, random delays and jitter are parameters;
- the rapidfuzz ratios are function-valued parameters, assumed to lie in [0, 100] where a bound is claimed.

Modules:

- `Text`: the Python string built-ins the code uses.
- `Decimal`: `float()` on decimal literals, with exact reals.
- `Similarity`: the scorer of `scrapers/utils.py`.
- `Throttle`: the pacing and soft-block retry of `_throttled_get`.
- `Cache`: `cache.py`.
- `Selection`: the best-candidate scan shared by the site searches and the legacy matcher.
- `Search`: `search_pcgarage`, `search_emag` and `search_altex`.
- `Legacy`: the word-combination matcher of `scrapers.py` and `test/emag_test.py`.
- `Retry`: the retry loops of `safe_get` and `fetch_page_async`.
- `CrawlPrice`: the `parse_price` variants of the standalone crawlers.
- `Crawl`: page URLs, the keep rule, de-duplication and the page loops of the standalone crawlers.
- `Categories`: `get_main_categories`.

The two Vexio crawlers clean prices differently, and each is modelled as written.

- `vexio_crawler.py` reads a point as a decimal point. So `1.299 Lei` is 1.299 (`CrawlPrice.ThousandsAsWritten`).
- `vexio_test.py` drops points as thousands separators. So the same text is 1299 (`CrawlPrice.ThousandsRead`).

## Model

| member | source | states |
|---|---|---|
| Similarity.MatchScore | scrapers/utils.py:15-21 | the score is one of the two metrics on the lowercased query and title, at least each of them, and within [0, 100] when the metrics are |
| Similarity.DropStopWords | scrapers/utils.py:26-27 | a word survives exactly when it was in the input and is not one of the eleven stop words |
| Similarity.DropStopWordsCounts | scrapers/utils.py:27 | every word that is not a stop word is kept as many times as it occurs, and stop words not at all |
| Similarity.DropStopWordsAppend | scrapers/utils.py:27 | the words are filtered one by one in input order: filtering a concatenation is filtering each part |
| Similarity.Tokens | scrapers/utils.py:24-27 | a word is a token exactly when it is a maximal run of word characters of the lowercased text and not a stop word; each token is non-empty, lowercase and made of word characters |
| Similarity.TokensCounts | scrapers/utils.py:24-27 | a token occurs as many times as it occurs among the runs of the lowercased text, which `_token_coverage` counts |
| Similarity.TokensOfWord | scrapers/utils.py:24-27 | a lowercase word of word characters that is not a stop word tokenises to itself |
| Similarity.TokensAcrossGap | scrapers/utils.py:24-27 | the tokens keep text order: across a gap of non-word characters, the tokens are those of the left part followed by those of the right |
| Similarity.Vocabulary | scrapers/utils.py:31 | the title's token set holds exactly the title's tokens |
| Similarity.Hits | scrapers/utils.py:35 | the count of query tokens (with repetition) found is at most their number; it equals it exactly when all are found, and is 0 exactly when none is |
| Similarity.Share | scrapers/utils.py:33-36 | 0 for no words; otherwise hits divided by the word count, in [0, 1], 1 exactly when every word is found and 0 exactly when none is |
| Similarity.Coverage | scrapers/utils.py:30-36 | 0 for a query without tokens; otherwise hits over query tokens (with repetition) against the title's token set, in [0, 1], with both extremes characterised |
| Similarity.Penalty | scrapers/utils.py:39-53 | 25 exactly when a query digit run is missing from the title, plus 15 exactly when an extra title run has at most two digits, plus 5 exactly when one has four |
| Similarity.PenaltyValues | scrapers/utils.py:42-53 | the penalty is one of 0, 5, 15, 20, 25, 30, 40, 45, and 0 when the digit-run sets agree |
| Similarity.PreciseScoreBounds | scrapers/utils.py:56-61 | for a non-negative base, base/2 − pen ≤ score ≤ base − pen; with bounded metrics the score lies in [−45, 100] |
| Similarity.PerfectMatchKeepsBase | scrapers/utils.py:56-61 | full coverage and equal digit runs leave the base score unchanged |
| Throttle.Wait | scrapers/utils.py:117-123 | the pause is non-negative, ends no earlier than last hit plus the minimum delay (an unseen host counts as 0), and is 0 unless it ends exactly there |
| Throttle.Navigations | scrapers/utils.py:125-142 | between 1 and the allowed attempts; every page before the last loaded and shows a block marker; the last navigation raised, or loaded a clean page, or used the final attempt |
| Throttle.ThrottledGet | scrapers/utils.py:116-144 | the wait as above, 0 navigations for a negative retry count and otherwise 1 to max_retries + 1, back-offs of 2.5·(k+1) plus jitter between navigations; it raised exactly when the last navigation raised, and then the host map is unchanged; otherwise only the host's timestamp is rewritten, to the finishing time |
| Throttle.PacedAcrossCalls | scrapers/utils.py:116-144 | when the first of two calls for a host did not raise, the second starts its first request at least its minimum delay after the first finished, whatever the first call's retries |
| Throttle.RaisedCallIsForgotten | scrapers/utils.py:116-144 | a call whose navigation raised leaves no timestamp, so the next call for the host behaves exactly as if it had not been made |
| Cache.SaveCache | cache.py:49-58 | only the `items` key is replaced, every other key is kept, and `load_cache` of the result gives back the saved items |
| Cache.FirstMatch | cache.py:69-74 | the index the upsert loop stops at: the first item with the same stripped URL or stripped lowercased title, or none when no item matches |
| Cache.UpsertItems | cache.py:64-80 | with a match, only the first matching item changes: fields the entry gives overwrite, others are kept, `saved_at` is refreshed, the length is kept; without one, one item is appended and the rest is unchanged |
| Cache.Upsert | cache.py:61-82 | the loaded items are the old ones with this site's list replaced by the upserted list; every key but `items` is kept; the file now has the current schema |
| Cache.UpsertedIsFound | cache.py:65-79 | after an upsert some item matches the entry, and one has its stripped URL when that URL is non-empty |
| Cache.UpsertTwiceGrowsByAtMostOne | cache.py:61-82 | upserting the same entry twice grows the site's list by at most one |
| Cache.FindBest | cache.py:85-104 | an item is returned exactly when the first strictly greatest positive score is at least 90 on a non-empty item, and it is that item |
| Cache.NormQueryIdempotent | cache.py:107-108 | normalising a key again changes nothing |
| Cache.NormQueryShape | cache.py:107-108 | a key is lowercase, with single spaces between words and none at either end |
| Cache.NormQueryFixpoint | cache.py:107-108 | a text is its own key exactly when it is lowercase and single-spaced |
| Cache.SameKeyIffSameWords | cache.py:107-108 | two queries share a key exactly when their lowercased texts split into the same words |
| Cache.NormQueryIgnoresCase | cache.py:107-108 | lowercasing a query first does not change its key |
| Cache.NormQueryIgnoresGapWidth | cache.py:107-108 | any non-empty run of whitespace between two parts gives the same key as a single space |
| Cache.NormQueryIgnoresPadding | cache.py:107-108 | leading and trailing whitespace does not change the key |
| Cache.AsMapping | cache.py:115-116 | `x or {}` used as a dict fails only with the not-a-mapping error |
| Cache.SetIndexEntry | cache.py:119-121 | writing the index entry keeps every top-level key except `query_index` |
| Cache.IndexQuery | cache.py:114-127 | succeeds exactly when `query_index` is usable and either the URL is empty or the site's map is usable; with an empty URL nothing is written; only `query_index` changes |
| Cache.UpsertForQuery | cache.py:111-127 | the items are those of the upsert; it raises exactly when the index half cannot be written, and then the upsert has already been saved; with an empty URL only the upsert happens |
| Cache.FirstWithUrl | cache.py:133-136 | the item at the lowest position whose stripped URL is the key, no earlier item having it; none when no item has it |
| Cache.NoIndexNoAnswer | cache.py:139-147 | a file without a query index answers every query with nothing, without raising |
| Cache.IndexedKeyLooksUpUrl | cache.py:139-147 | after the index maps a key to a URL, looking up that key finds the item by that URL |
| Cache.IndexedQueryLooksUpUrl | cache.py:111-147 | after indexing a query, every query with the same key is looked up by the indexed URL |
| Cache.GetAfterUpsertForQuery | cache.py:111-147 | after `upsert_for_query` with a non-empty URL on a usable index, `get_for_query` for any query with the same key returns an item with that URL |
| Selection.Scanned | scrapers/emag.py:39-72 | the scan visits candidates up to the first one it stops at, or all of them |
| Selection.Visit | scrapers/emag.py:40-70 | one loop turn keeps the running best the earliest greatest eligible card so far; when it breaks, the scan stops at this card, and otherwise the scan goes on from the next card |
| Selection.Choose | scrapers/pcgarage.py:76-115 | the winner is the earliest eligible candidate of greatest score among those visited: at least 60, a truthy price and link, a strict improvement; none exactly when no visited candidate is eligible |
| Selection.ConfidentStopWins | scrapers/pcgarage.py:109-113 | without a cut-off, a scan that ended early ended on its winner, which reached the confident score |
| Search.CleanPriceDots | scrapers/emag.py:49-54 | the cleaned price text has as many points as the text had points and commas |
| Search.TwoSeparatorsNoPrice | scrapers/emag.py:47-57 | a price text with two or more points and commas in all has no price |
| Search.WholePriceRoundTrip | scrapers/altex.py:47-53 | a whole amount followed by a no-break space and the site's currency word reads back as that amount |
| Search.SearchSite | scrapers/pcgarage.py:64-136 | raises only out of the cache lookup; a non-empty cached item is returned without fetching; otherwise the winner of the site's scan, written back through `upsert_for_query`, else `upsert`, else not at all; nothing is written without a winner |
| Search.WrittenWinnerIsNextHit | scrapers/emag.py:19-86 | once a winner with a non-blank link has been written into a usable index, the next search with the same key is a cache hit on that link |
| Legacy.Combinations | scrapers.py:113-114 | every `r`-combination has `r` words, all taken from the query |
| Legacy.CombinationBound | scrapers.py:113-117 | no combination larger than the number of query words found can lie wholly in the title |
| Legacy.PresentIsCombination | scrapers.py:113-117 | the words found form one of the combinations of their own size |
| Legacy.MatchCountIsHits | scrapers.py:112-119 | the match count equals the number of query words (with repetition) that occur in the title, so it is at most the number of words |
| Legacy.BestByWordCount | scrapers.py:97-146 | raises `KeyError` exactly when a counted card's anchor has no `href`; otherwise the first card with the strictly largest non-zero count and a truthy price and link, or none |
| Legacy.ShadowedBestByWordCount | scrapers.py:21-94 | the same rule on Altex cards, with cards whose title cannot be read skipped |
| Legacy.WinnerHasAWord | scrapers.py:112-122 | a winning card's lowercased title contains some query word |
| Legacy.WholePriceRoundTrip | scrapers.py:124-137 | a whole amount followed by a no-break space and "Lei" reads back as that amount |
| Retry.AttemptsFromFirstSuccess | standalone/vexio_crawler/vexio_crawler.py:69-73 | the attempt count is the position of the first success plus one |
| Retry.AttemptsFromAllFail | standalone/vexio_crawler/vexio_crawler.py:69-78 | when every attempt fails, all of them are made |
| Retry.Attempt | standalone/vexio_crawler/vexio_crawler.py:69-76 | the loop makes at least one and at most the allowed attempts, all failing but the last, and the last succeeds unless the attempts ran out |
| Retry.SafeGet | standalone/vexio_crawler/vexio_crawler.py:67-78 | at most retries + 1 navigations, returning on the first that loads; it raises the last attempt's exception exactly when all fail; the pause after each attempt is the back-off on failure and `wait_after` on success |
| Retry.FetchPage | standalone/vexio_crawler/vexio_test.py:121-140 | at most `RETRY_COUNT` tries; the first success gives the products and the next flag; when all tries fail the result is `([], False)` |
| Crawl.UrlJoin | standalone/vexio_crawler/vexio_crawler.py:119 | the joined URL ends with the relative part |
| Crawl.UrlJoinKeepsHost | standalone/vexio_crawler/vexio_crawler.py:119 | joining to a base with a host and no path keeps the host and adds a `/` |
| Crawl.UrlJoinReplacesLastSegment | standalone/vexio_crawler/vexio_crawler.py:119 | joining replaces the last path segment of the base |
| Crawl.UrlJoinSlash | standalone/altex_crawler/altex_crawler.py:133-136 | a base ending with `/` is extended by the relative part |
| Crawl.Slashed | standalone/altex_crawler/altex_crawler.py:133-136 | the base with its slash ends with `/` |
| Crawl.VexioPageUrlOfCategory | standalone/vexio_crawler/vexio_crawler.py:118-119 | page n ≥ 2 of a category URL is the URL followed by `pagina{n}/` |
| Crawl.AltexPageUrlAppends | standalone/altex_crawler/altex_crawler.py:129-136 | page n ≥ 2 is the base with its slash followed by `p/{n}/`, so it starts with the base |
| Crawl.Keep | standalone/altex_crawler/altex_crawler.py:120-121 | every product kept has a non-empty title and URL, and there are no more products than tiles |
| Crawl.KeepAppend | standalone/vexio_crawler/vexio_crawler.py:92-110 | keeping works tile by tile, in page order |
| Crawl.KeepAllKept | standalone/vexio_crawler/vexio_crawler.py:105-110 | a page whose every tile has a title and a URL loses none |
| Crawl.FreshSound | standalone/vexio_crawler/vexio_test.py:155-159 | what is kept comes from the input, has an unseen URL, and no two kept products share a URL |
| Crawl.FreshUrls | standalone/vexio_crawler/vexio_test.py:155-159 | the URLs kept are exactly the input's URLs that were not seen |
| Crawl.FreshNone | standalone/vexio_crawler/vexio_test.py:155-163 | nothing is added exactly when every URL of the page was seen |
| Crawl.FreshKeepsFirst | standalone/vexio_crawler/vexio_crawler.py:140-144 | the first product with a given new URL is the one kept |
| Crawl.FreshAppend | standalone/vexio_crawler/vexio_test.py:155-159 | de-duplicating two parts in turn equals de-duplicating their concatenation |
| Crawl.DedupSound | standalone/vexio_crawler/vexio_crawler.py:137-145 | the de-duplicated list has distinct non-empty URLs taken from the input and keeps every non-empty URL |
| Crawl.DedupLoop | standalone/altex_crawler/altex_crawler.py:143-151 | the `seen`/`deduped` loop computes the first-occurrence de-duplication with the empty URL excluded |
| Crawl.RaisedIffUnreachable | standalone/vexio_crawler/vexio_crawler.py:67-78 | `safe_get` raises exactly when every attempt at the URL fails |
| Crawl.PageLoop | standalone/vexio_crawler/vexio_crawler.py:114-135 | at most `max_pages` pages, at the page URLs in order; every page before the last loaded, had products and a next link; it raises exactly when the last page could not be loaded; otherwise the pages' products in order, and an early end is an empty page or a missing next link |
| Crawl.CrawlListing | standalone/vexio_crawler/vexio_crawler.py:114-145 | the page loop's guarantees, and the result is the de-duplication of the gathered products (nothing when it raised) |
| Crawl.VexioCrawlListing | standalone/vexio_crawler/vexio_crawler.py:114-145 | the guarantees of `Crawl.CrawlListing` (page bounds, when it raises and that it then returns nothing, the de-duplicated products) with the `pagina{n}/` URLs, the next-link stop and Vexio's tile rules |
| Crawl.AltexCrawlListing | standalone/altex_crawler/altex_crawler.py:125-151 | the guarantees of `Crawl.CrawlListing` (page bounds, when it raises and that it then returns nothing, the de-duplicated products) with the `p/{n}/` URLs and only an empty page (or the page limit) ending the loop |
| Crawl.Absorb | standalone/vexio_crawler/vexio_test.py:155-159 | the inner loop appends exactly the products with unseen URLs and records their URLs |
| Crawl.Walk | standalone/vexio_crawler/vexio_test.py:147-168 | the walk visits at most `max_pages` pages, at least one when allowed |
| Crawl.WalkUrls | standalone/vexio_crawler/vexio_test.py:147-148 | page i of the walk is at the i-th page URL |
| Crawl.WalkGoesOn | standalone/vexio_crawler/vexio_test.py:151-168 | no page before the last is empty, all-seen or without a next link |
| Crawl.WalkEnds | standalone/vexio_crawler/vexio_test.py:151-168 | unless the page limit ended it, the last page is empty, adds no new URL, or has no next link |
| Crawl.CategoryPages | standalone/vexio_crawler/vexio_test.py:147-148 | the category crawl visits at most `max_pages` pages, page n at `pagina{n}/` of the category |
| Crawl.CategoryPage | standalone/vexio_crawler/vexio_test.py:149-163 | one page adds the first-seen products of the fetched page, and adds none exactly when all its URLs were seen |
| Crawl.CategoryLoop | standalone/vexio_crawler/vexio_test.py:147-170 | the pages visited are the walk's, and the items are the first occurrences over those pages |
| Crawl.CrawlCategory | standalone/vexio_crawler/vexio_test.py:142-170 | the walk's pages with the stop rules, at most `max_pages` of them, and items with pairwise distinct URLs in first-seen order |
| Categories.Insert | standalone/vexio_crawler/vexio_crawler.py:164 | adding to the category set keeps it sorted and without repeats, and it grows by at most one |
| Categories.Collect | standalone/vexio_crawler/vexio_crawler.py:159-166 | the collected set holds exactly the slashed in-shop links, sorted |
| Categories.SortedUnique | standalone/vexio_crawler/vexio_crawler.py:167 | a sorted repeat-free list is determined by its members |
| Categories.MainCategories | standalone/vexio_crawler/vexio_crawler.py:149-167 | no categories when the menu never appeared; otherwise exactly the slashed links that start with the shop root, strictly sorted |
| Categories.CategoriesIgnoreLinkOrder | standalone/vexio_crawler/vexio_test.py:60-69 | reordering or repeating the menu links gives the same list |
| Categories.CategoriesAreShopDirectories | standalone/vexio_crawler/vexio_crawler.py:163-164 | every category starts with `https://www.vexio.ro/` and ends with `/` |
| Categories.SlashedMerges | standalone/vexio_crawler/vexio_test.py:66 | a link with and without its trailing `/` names one category, and a category is its own slashed form |
| Categories.CategoriesDistinct | standalone/vexio_crawler/vexio_test.py:61-69 | each category is listed once |
| CrawlPrice.Clean | standalone/vexio_crawler/vexio_crawler.py:50-58 | the cleaned string holds only digits and points |
| CrawlPrice.ParsePrice | standalone/altex_crawler/altex_crawler.py:53-55 | empty text has no price |
| CrawlPrice.CleanIsSeparatorsAndDigits | standalone/vexio_crawler/vexio_crawler.py:50-58 | the cleaned string is exactly the digits, points and commas of the text, in order, with commas read as points; both crawlers agree |
| CrawlPrice.NoDigitsNoPrice | standalone/vexio_crawler/vexio_crawler.py:58-60 | a text without digits, points or commas has no price |
| CrawlPrice.TwoSeparatorsNoPrice | standalone/vexio_crawler/vexio_crawler.py:55-64 | two or more points and commas in all fail the conversion |
| CrawlPrice.WholeAmount | standalone/altex_crawler/altex_crawler.py:53-70 | a whole amount followed by " Lei" reads back as that amount |
| CrawlPrice.ThousandsAsWritten | standalone/vexio_crawler/vexio_crawler.py:47-64 | `a.bbb Lei` reads as the decimal a + bbb/1000 |
| CrawlPrice.ParseThousands | standalone/vexio_crawler/vexio_test.py:73-74 | empty text has no price |
| CrawlPrice.ThousandsDigitsShape | standalone/vexio_crawler/vexio_test.py:75-78 | after dropping spaces and points none is left, and every comma of the text is kept |
| CrawlPrice.ThousandsCleanShape | standalone/vexio_crawler/vexio_test.py:75-81 | the cleaned text has no space, and its points are exactly the text's commas |
| CrawlPrice.ThousandsTwoCommas | standalone/vexio_crawler/vexio_test.py:81-86 | two or more commas fail the conversion |
| CrawlPrice.ThousandsRead | standalone/vexio_crawler/vexio_test.py:72-86 | `a.bbb Lei` reads as a·1000 + bbb |
| Decimal.ParseDigits | standalone/vexio_crawler/vexio_crawler.py:62 | a string of digits converts to its value |
| Decimal.ParsePointed | standalone/vexio_crawler/vexio_crawler.py:62 | `w.f` with digit strings converts to w + f/10^len(f) |
| Decimal.ParseNatString | standalone/vexio_crawler/vexio_crawler.py:62 | `str(n)` converts back to n |
| Decimal.TwoDotsRejected | standalone/vexio_crawler/vexio_crawler.py:61-64 | text with two or more points does not convert |
| Text.RunsOfJoin | cache.py:108 | splitting words joined by one space gives the words back |
| Text.RunsOfSingleSeparated | cache.py:108 | a single-spaced text is the join of its words |

## Left out

- Browser and driver construction (`_build_driver`, `build_driver`), Selenium waits, CSS selectors and BeautifulSoup parsing: what a page shows enters as a sequence of cards or tiles.
- `_extract_pcgarage_specs`: the winner's specs are a parameter of `Search.SearchSite`.
- JSON reading and writing, `os.makedirs`, and the exceptions `_load_raw` and `save_cache` swallow: the file is a value, and an unreadable file is `{}`.
- The clock, `random.uniform`, `random.random` and `random.choice` are parameters; `time.sleep` is not performed.
- `print` and logging are dropped everywhere.
- Everything asyncio does in `vexio_test.py`: the semaphore, the progress lock and counter, `as_completed`, `crawl_all_categories_async` and its streaming JSON output.
- `main.py` is CLI glue; `test/altex_test.py` and `test/test.py` only print; `scrapers/__init__.py` only imports. The `main` functions of the crawlers are left out too.
- Cache.UpsertForQuery: the upsert and the index write are two separate writes; another process writing in between is not modelled.
- Cache.LoadCache: list elements that are not dicts are not represented; entries have the five known keys.
- Text.Lower: lowers ASCII, the Latin-1 capitals (which hold Â and Î) and the Romanian Ă, Ș, Ț, Ş, Ţ; other capitals, such as Greek or Cyrillic letters or İ, are kept as they are.
- Text.IsWordChar: the regex class `\w` is read as ASCII letters, digits and `_`.
- Text.IsDigit: the regex class `\d` and `str.isdigit` are read as the ASCII digits.
- Decimal.ParseFloat: only decimal literals with an optional sign convert; exponents (`1e3`), underscores (`1_000`), `inf` and `nan`, which `float()` accepts, give no value; values are exact reals, not doubles.
- Legacy.CleanPrice: `get_text(strip=True)` strips each text fragment of the tag and joins them; the model strips the tag's text once.
- Throttle.ThrottledGet: the pause of 0.5 to 1.2 seconds after each navigation is not reported; the pre-request wait and the back-offs are. A navigation that raises is a bare `Raised`, without the exception's type.
- Similarity.PreciseScore: scores, coverage and penalties are exact reals, not doubles; a card whose double score rounds just below 60 (base 72 with two of three query tokens, say, is 59.99999999999999 in doubles) is skipped by the site but considered by the model.
- Similarity.MatchScore: rapidfuzz's `token_set_ratio` and `partial_ratio` are parameters, not defined.
- Legacy.ShadowedBestByWordCount: the `TimeoutException` that escapes the `try`/`finally` when no product appears within five seconds is not modelled; nor are the `driver.quit()` and the early `return None` for no products, which gives the same result as an empty scan.
- Crawl.UrlJoin: only relative paths without `..`, `.`, query or fragment are joined, which are the ones the crawlers build; and only bases without a query, a fragment or an empty path segment are joined as `urljoin` does. `urljoin` merges with the base's path alone and drops empty segments, so for a category link such as `https://www.vexio.ro/x?y/` or `https://www.vexio.ro/a//`, which `get_main_categories` keeps as it is, the model's page URLs differ.
- Crawl.TestRaw: the product URL `urljoin(base_url, href)` of `get_products_from_html` enters already joined.
- Crawl.CrawlCategory: the `category` key added to each product is dropped; so is the one `vexio_crawler.py`'s `main` adds.
- Categories.MainCategories: the home-page navigation (`safe_get` in `vexio_crawler.py`, which can raise, and `driver.get` in `vexio_test.py`) is not modelled; the page enters as whether the menu appeared and each link's `href`.
