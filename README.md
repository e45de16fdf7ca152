# Car price scrapers, modelled in Dafny

This project models the extraction engine of the two auction scrapers in
`carPriceScraper/`: Bring a Trailer (`bringATrailerScraper.py`) and
Cars & Bids (`carsAndBidsScraper.py`). Each script

1. loads an ordered make dictionary from a CSV file (`load_car_makes`);
2. walks the result pages of the auction site. For every listing it reads
   the title and the sale status, the status with a bounded retry and one
   scroll-then-read fallback;
3. cuts the price out of the status;
4. splits the title into year, make and model with a regex and a first-match
   search over the dictionary keys;
5. sorts the gathered records by make rank and model.

The browser is replaced by plain data (module `Provider`):

- a `Site` is the sequence of pages the browser shows after 0, 1, 2, …
  clicks on the next-page button;
- a `Page` says whether the wait for its items succeeds, what its listing
  elements are, and whether its button is absent, disabled or enabled;
- a `Listing` carries its URL, its title text (or nothing, when the title
  element is missing) and the outcome of each successive status lookup.

All waits, sleeps and scrolls become these given outcomes.

The two scripts differ, and the model keeps each difference:

- Bring a Trailer deduplicates listings by URL. It catches the visibility
  timeout and ends the loop normally. It drops everything before the first
  four-digit run of a title. It cuts the date off the price.
- Cars & Bids skips listings whose status says "Bid to" or "Canceled". It
  keeps the date in the price. It anchors the year at the start of the
  title. A visibility timeout is uncaught and aborts the run with no output
  (`Run.TimedOut`, `Scrape` returns `None`).

Modules:

- `Wrappers` (Option), `Collections` (distinct sequences);
- `Text`: the ASCII `str` operations the scripts use — `strip`, `lower`,
  `startswith`, `in`, `split(sep)[0]` and `split(sep)[1]`, and string `<=`;
- `Records`: the record dictionary of four strings and the "N/A" constant;
- `MakeDictionary`, `TitleParser`, `SaleStatus`, `Sorter`: the shared
  engine;
- `Provider`: the browser as data;
- `BringATrailer` and `CarsAndBids`: the two scripts' item and page loops.

The loops of the source are methods with loop invariants.

- `LoadCarMakes` is proved against a relational description of the
  dictionary: which keys it holds, their ranks and their order.
- The retry loop in `ReadStatus`, the make search in `MatchMake` and the
  item and page loops in `ScrapePages`/`ScrapeItems` are each proved equal
  to a specification function.

The lemmas state what those functions mean.

## Model

| member | source | states |
|---|---|---|
| MakeDictionary.LoadCarMakes | carPriceScraper/bringATrailerScraper.py:13-21 | An empty file (no header for `next`) gives None. Otherwise the dictionary is a valid dict; its keys are exactly the stripped, lower-cased first cells of the non-empty data rows; each key maps to the 0-based data-row index of the LAST row storing it; keys are ordered by the FIRST row storing them. Empty rows use up an index. Every key is already normalised (`Normalised`). The same function is at carPriceScraper/carsAndBidsScraper.py:13-21. |
| MakeDictionary.LoadedAdd | carPriceScraper/bringATrailerScraper.py:18-20 | A row with a make not yet stored appends it to the key order with this row's index, and keeps the loop invariant (membership, last index, first-occurrence order). |
| MakeDictionary.LoadedUpdate | carPriceScraper/bringATrailerScraper.py:18-20 | A row with a make already stored moves its value to this row's index and keeps its place in the key order. |
| MakeDictionary.LoadedSkip | carPriceScraper/bringATrailerScraper.py:18-19 | An empty row changes nothing but still advances the index. |
| MakeDictionary.CellKey | carPriceScraper/bringATrailerScraper.py:20 | `row[0].strip().lower()`: no longer than the cell, no whitespace at either end, and no upper-case letter. |
| MakeDictionary.CellKeyIdempotent | carPriceScraper/bringATrailerScraper.py:20 | Normalising a stored key with `.strip().lower()` again gives the key back. LoadCarMakes uses it to promise `Normalised`, on which Sorter.StoredMakeRanked and BringATrailer.ResolvedMakesRanked rest. |
| Text.Strip | carPriceScraper/bringATrailerScraper.py:105 | `strip()` returns a slice of its input with no whitespace at either end, and every character dropped before or after that slice is whitespace. |
| Text.Before | carPriceScraper/bringATrailerScraper.py:138 | `split(sep)[0]` is a prefix of the input. It is the whole input when `sep` does not occur; otherwise `sep` follows it, and no earlier occurrence exists. |
| Text.After | carPriceScraper/bringATrailerScraper.py:136 | The text after the first occurrence of `sep`: a suffix preceded by that occurrence and by no earlier one. |
| Text.NoneBefore | carPriceScraper/bringATrailerScraper.py:138 | The text before the first occurrence of a separator does not contain it. |
| Text.StrLeTransitive | carPriceScraper/bringATrailerScraper.py:197 | Python's string order on models is transitive (with StrLeTotal, StrLeReflexive and StrLeAntisymmetric it is a total order). |
| TitleParser.FindYear | carPriceScraper/bringATrailerScraper.py:141 | The first position from which four digits follow, with no newline before it; None when there is none. This is the lazy `^.*?(\d{4})`. |
| TitleParser.DropBeforeYear | carPriceScraper/bringATrailerScraper.py:141 | The title from its first four-digit run on, or the title unchanged when the regex does not match. |
| TitleParser.FindYearSkips | carPriceScraper/bringATrailerScraper.py:141 | The year search passes over a stretch that holds no digit and no newline. |
| TitleParser.DropBeforeYearPrefix | carPriceScraper/bringATrailerScraper.py:141 | A prefix with no digit and no newline, in front of a text that starts with four digits, is exactly what `re.sub` removes. |
| TitleParser.YearSplit | carPriceScraper/bringATrailerScraper.py:143-146 | `re.match(r"(\d{4})\s+(.+)")`. It matches exactly when the title starts with four digits followed by whitespace and then a character on the same line. The year is the four digits. The rest is the longest line remainder after a whitespace run that leaves it non-empty, which models the backtracking of `\s+`. |
| TitleParser.YearSplitTypical | carPriceScraper/carsAndBidsScraper.py:111-114 | On "year + whitespace + one-line rest", the split gives that year and that rest. |
| TitleParser.FirstMatch | carPriceScraper/bringATrailerScraper.py:153-157 | The index of the first key, in dictionary order, that starts the lower-cased text; no earlier key does. |
| TitleParser.MatchMake | carPriceScraper/bringATrailerScraper.py:149-157 | The make-search loop with `break` returns the first matching key and the original-case remainder after it, stripped. It returns two empty strings when no key matches. |
| TitleParser.TitleOf | carPriceScraper/bringATrailerScraper.py:143-163 | The title triple. There are three unresolved cases: no regex match, no matching key, or a matched empty key (`if not make`); each gives the all-"N/A" triple. The make is "N/A" exactly when unresolved. A resolved title has: the four digits as year; a non-empty dictionary key as make, a prefix of the lower-cased rest, with no earlier key matching; and the stripped original-case remainder as model. |
| TitleParser.ParseTitle | carPriceScraper/carsAndBidsScraper.py:111-131 | The statements of the title split and make search compute TitleOf. |
| TitleParser.TitleOfTypical | carPriceScraper/carsAndBidsScraper.py:111-131 | On a title of the usual shape, the result depends only on the first key matching the rest. |
| TitleParser.FirstKeyNotLongest | carPriceScraper/bringATrailerScraper.py:152-157 | With "aston" listed before "aston martin", "1964 Aston Martin DB5" gives make "aston" and model "Martin DB5": the first match wins, not the longest the comment promises. |
| TitleParser.LongerKeyFirst | carPriceScraper/bringATrailerScraper.py:153-157 | With the longer key listed first, the same title gives "aston martin" / "DB5". |
| SaleStatus.FirstFound | carPriceScraper/bringATrailerScraper.py:110-117 | The first of the five loop lookups that finds the element; all five when none does. |
| SaleStatus.ReadOutcome | carPriceScraper/bringATrailerScraper.py:108-127 | Between one and five loop lookups are made. All but the last find nothing; the last finds the element unless all five were used. The fallback runs exactly when the loop's stripped text is "N/A". The status is the fallback lookup's text then, and the loop's last text otherwise. |
| SaleStatus.ReadStatus | carPriceScraper/carsAndBidsScraper.py:74-93 | The retry loop with `break` and the fallback compute ReadOutcome. |
| SaleStatus.NeverFound | carPriceScraper/bringATrailerScraper.py:108-127 | When no lookup ever finds the element, all five loop lookups and the fallback are made, and the status stays "N/A". |
| SaleStatus.EmptyTextFound | carPriceScraper/carsAndBidsScraper.py:76-86 | A lookup that finds an empty text ends the loop, and no fallback follows. |
| SaleStatus.LiteralNAScrolls | carPriceScraper/bringATrailerScraper.py:113-125 | A found text that strips to "N/A" still triggers the fallback, which then decides the status. |
| SaleStatus.PriceBringATrailer | carPriceScraper/bringATrailerScraper.py:134-138 | "N/A" unless the status contains "Sold for"; otherwise a string with no whitespace at either end. |
| SaleStatus.PriceHasNoDate | carPriceScraper/bringATrailerScraper.py:136-138 | Bring a Trailer's price of a sold status never contains " on ". |
| SaleStatus.PriceCarsAndBids | carPriceScraper/carsAndBidsScraper.py:104-107 | "N/A" unless the status contains "Sold for"; otherwise a string with no whitespace at either end. |
| SaleStatus.SoldForAmountOnDate | carPriceScraper/carsAndBidsScraper.py:104-107 | On "Sold for <amount> on <date>", Bring a Trailer's price is the amount and Cars & Bids' price is "<amount> on <date>". This holds when the amount is non-empty and has no whitespace and no 'S', and the date is non-empty, has no 'S' and does not end in whitespace. |
| SaleStatus.SoldForExample | carPriceScraper/bringATrailerScraper.py:134-138 | "Sold for $12,000 on 3/4/21" gives "$12,000" on Bring a Trailer and "$12,000 on 3/4/21" on Cars & Bids. |
| Sorter.SortCarsCorrect | carPriceScraper/bringATrailerScraper.py:197 | The sorted output is in key order: rank of `Make.strip().lower()`, with unranked makes after all ranked ones, then Model. It is a permutation of the input. Records with equal keys keep their input order. The same sort is at carPriceScraper/carsAndBidsScraper.py:165. |
| Sorter.SortBySorted | carPriceScraper/carsAndBidsScraper.py:165 | The sort's output is sorted by the key. |
| Sorter.SortByPermutation | carPriceScraper/carsAndBidsScraper.py:165 | The sort's output is a permutation of its input. |
| Sorter.SortByStable | carPriceScraper/carsAndBidsScraper.py:165 | The records of any one key appear in the output in their input order. |
| Sorter.KeyOf | carPriceScraper/bringATrailerScraper.py:197 | The key lambda: the rank of the stripped, lower-cased make when the dictionary holds it, `float('inf')` (Unranked) when it does not, then the model. |
| Sorter.SortBy | carPriceScraper/bringATrailerScraper.py:197 | `sorted` with a key, as a stable insertion sort. Its length is kept; SortBySorted, SortByPermutation and SortByStable state the rest. |
| Sorter.SortCars | carPriceScraper/carsAndBidsScraper.py:165 | The scrapers' sort by the dictionary's key. Its length is kept; SortCarsCorrect states the rest. |
| Sorter.StoredMakeRanked | carPriceScraper/bringATrailerScraper.py:197 | With a normalised dictionary, a record whose make is a key gets that key's rank, not `float('inf')`. |
| Sorter.KeyLeTotal | carPriceScraper/bringATrailerScraper.py:197 | Any two sort keys are comparable. |
| Sorter.KeyLeAntisymmetric | carPriceScraper/bringATrailerScraper.py:197 | Keys ordered both ways are equal. |
| BringATrailer.ProcessListing | carPriceScraper/bringATrailerScraper.py:103-171 | The body of the item `try` for an unseen URL computes ListingOutcome. |
| BringATrailer.ListingOutcome | carPriceScraper/bringATrailerScraper.py:103-175 | A listing gives a record exactly when its title element exists, whatever its status. The record's make is "N/A" or a non-empty dictionary key with a four-digit year. Its price is "N/A" when the status does not say "Sold for". |
| BringATrailer.Visit | carPriceScraper/bringATrailerScraper.py:91-98 | A URL already in `scraped_urls` changes nothing. Otherwise the URL is added whatever the parse gives. |
| BringATrailer.VisitAll | carPriceScraper/bringATrailerScraper.py:88-171 | The item loop over one page's listings only appends records, at most one per listing, and only adds URLs. |
| BringATrailer.Traverse | carPriceScraper/bringATrailerScraper.py:70-194 | The page loop from a given page never moves `current_page` back. It only appends records and only adds URLs. |
| BringATrailer.Scraped | carPriceScraper/bringATrailerScraper.py:65-194 | The whole page loop from nothing gathered; `current_page` ends at most at the requested page count, or 0 when that is not positive. |
| BringATrailer.ScrapePages | carPriceScraper/bringATrailerScraper.py:65-194 | The page loop with its item loop computes the records, the URL set and `current_page` that Scraped gives. |
| BringATrailer.Scrape | carPriceScraper/bringATrailerScraper.py:197 | The output is the sort of the gathered records: sorted by key, a permutation of them, and stable per key. |
| BringATrailer.CarsAtMostUrls | carPriceScraper/bringATrailerScraper.py:91-98 | Across all pages each record comes from its own URL, and every such URL is in the set, so `len(cars) <= len(scraped_urls)`. |
| BringATrailer.TraverseDeduped | carPriceScraper/bringATrailerScraper.py:88-98 | The page loop keeps "one record per URL, and each such URL in the set". |
| BringATrailer.ScrapedRecords | carPriceScraper/bringATrailerScraper.py:86-171 | Which records the run gathers. Take the listings of the visited pages in the order met, and the first listing of each URL (`Fresh`). For each such listing that has a title element (`Kept`), there is one record, in order. That record is the listing's ListingOutcome record, its origin is that URL, and the listing is the first in the stream with that URL. The URL set is exactly the URLs met. |
| BringATrailer.OneRecordPerUrl | carPriceScraper/bringATrailerScraper.py:91-171 | When every listing met has its title element, `len(cars) == len(scraped_urls)`: a page that shows the same listings again adds no record. |
| BringATrailer.ResolvedMakesRanked | carPriceScraper/bringATrailerScraper.py:149-197 | With a valid, normalised dictionary, every gathered record whose make is not "N/A" has a make the dictionary holds, and the sort places it by that key's rank. |
| BringATrailer.VisitAllFromEmpty | carPriceScraper/bringATrailerScraper.py:88-171 | The item loop over a listing stream from nothing gathered: the URL set is the stream's URLs, with one record for each URL whose first listing has a title, in order. |
| BringATrailer.TraverseStream | carPriceScraper/bringATrailerScraper.py:70-194 | The page loop equals one item loop over the concatenated listings of the pages it got past the wait on. |
| BringATrailer.VisitAllConcat | carPriceScraper/bringATrailerScraper.py:86-98 | The item loop over a + b is the loop over a followed by the loop over b, the URL set carried over. |
| BringATrailer.FreshCount | carPriceScraper/bringATrailerScraper.py:91-98 | There are as many first listings as distinct URLs. |
| BringATrailer.FreshFirst | carPriceScraper/bringATrailerScraper.py:91-98 | Each first listing is the listing at the first position where its URL occurs. |
| BringATrailer.FirstUrlIndex | carPriceScraper/bringATrailerScraper.py:94-95 | The first position of a URL in a listing stream: that listing has the URL and no earlier one does. |
| BringATrailer.RepeatedListingOnce | carPriceScraper/bringATrailerScraper.py:93-95 | A listing repeated on a page is processed once. |
| BringATrailer.FailedListingKeepsUrl | carPriceScraper/bringATrailerScraper.py:97-104 | A listing whose title element is missing adds its URL, so it is never retried, but adds no record. |
| BringATrailer.NoStatusStillEmitted | carPriceScraper/bringATrailerScraper.py:107-138 | A listing whose status never appears is still emitted, with price "N/A". |
| BringATrailer.VisitAllUrls | carPriceScraper/bringATrailerScraper.py:88-98 | The item loop adds exactly the URLs of the page's listings to the set. |
| BringATrailer.TraverseBounds | carPriceScraper/bringATrailerScraper.py:70-194 | The loop does not run at or past the limit, and `current_page` never passes it. `current_page` advances once per enabled button, so every page left behind had visible items and an enabled button. Short of the limit, the loop stops on a page whose items never became visible or whose button is missing or disabled. |
| BringATrailer.TraverseUrls | carPriceScraper/bringATrailerScraper.py:70-194 | The URL set ends up holding the URLs of every listing on every page visited, and no others. |
| BringATrailer.NothingRequested | carPriceScraper/bringATrailerScraper.py:67-70 | With a page count of zero or less, nothing is gathered and `current_page` stays 0. |
| CarsAndBids.ListingOutcome | carPriceScraper/carsAndBidsScraper.py:69-143 | The item `try` body: a listing fails exactly when its title element is missing. ListingOutcomeCases states the skip and emit cases. |
| CarsAndBids.ListingOutcomeCases | carPriceScraper/carsAndBidsScraper.py:65-143 | A listing fails exactly when its title element is missing. It is skipped exactly when its status says "Bid to" or "Canceled". Otherwise it gives a record whose make is "N/A" or a non-empty key with a four-digit year, and whose price is "N/A" unless the status says "Sold for". |
| CarsAndBids.ProcessListing | carPriceScraper/carsAndBidsScraper.py:69-139 | The body of the item `try` computes ListingOutcome. |
| CarsAndBids.ScrapeItem | carPriceScraper/carsAndBidsScraper.py:64-143 | One pass of the item loop appends the listing's record, or nothing when it is skipped or fails. |
| CarsAndBids.ScrapeItems | carPriceScraper/carsAndBidsScraper.py:64-143 | The item loop appends the records of the page's listings, in order. |
| CarsAndBids.GatheredStep | carPriceScraper/carsAndBidsScraper.py:134-139 | One more listing appends its record, if any, after those of the listings before it. |
| CarsAndBids.ScrapePage | carPriceScraper/carsAndBidsScraper.py:62-143 | The item loop on page p appends that page's records after those of pages 0 .. p - 1, giving the records of pages 0 .. p (`RecordsBefore`). |
| CarsAndBids.ScrapePages | carPriceScraper/carsAndBidsScraper.py:45-162 | The page loop computes PageLoop. When it finishes, its records are those of every page visited, in page order. |
| CarsAndBids.Scrape | carPriceScraper/carsAndBidsScraper.py:165 | A timeout gives no output. Otherwise the output is the sort of the gathered records: sorted by key, a permutation, and stable per key. |
| CarsAndBids.PageLoopEnds | carPriceScraper/carsAndBidsScraper.py:49-162 | What `PageLoop` (the page loop's end: finished at `current_page`, or timed out at a page) means. A finished run ends at the limit, never past it, or short of it on a visible page whose button is missing or disabled. A timed-out run stops, short of the limit, on the first page whose items never became visible. Every page before either end had visible items and an enabled button. |
| CarsAndBids.RepeatedListingTwice | carPriceScraper/carsAndBidsScraper.py:64-139 | With no URL set, a listing that appears twice gives its record twice. |
| CarsAndBids.EmissionsOfOne | carPriceScraper/carsAndBidsScraper.py:99-139 | A skipped or failed listing adds nothing; an emitted one adds its record. |
| CarsAndBids.AnchoredAtStart | carPriceScraper/carsAndBidsScraper.py:111-131 | A title that does not begin with four digits is unresolved: nothing before the year is dropped. |
| CarsAndBids.NothingRequested | carPriceScraper/carsAndBidsScraper.py:46-49 | With a page count of zero or less, no page is waited for and the output holds no record. |

## Left out

- Selenium: driver setup, navigation, `execute_script` scrolls and clicks, `WebDriverWait` and `time.sleep`. This is browser I/O. Each wait and lookup is a given outcome in the `Provider` data, and the sleeps have no effect on what is computed.
- A failing click or a failing `is_enabled()` on the next-page button: the `except` branch ends the loop just as a missing button does, so both are folded into `Button.Absent`.
- `get_attribute('href')` raising: the URL is taken as given. A listing whose URL read fails would only be skipped by the `except`.
- `input()` and `int()` for the page count and the time frame: interactive I/O. The page count is a parameter.
- Bring a Trailer's time-frame URL table (carPriceScraper/bringATrailerScraper.py:43-55): only a navigation target. An answer outside 1–6 leaves `url` unbound and the script stops with a NameError at line 60, before any scraping.
- CSV reading and writing: `LoadCarMakes` takes the file's rows as given, and the output is the sorted record sequence rather than the written file.
- `print` diagnostics and the debug `outerHTML` dump: reporting only.
- `float('inf')` as a float: modelled as `Rank.Unranked`, which compares above every index.
- Unicode case mapping and whitespace: `lower`, `strip`, `isspace` and `\s`/`\d` are modelled on ASCII only.
- carPriceScraper/motorcycleBrandScraper.py is not part of this model. It is an HTTP request plus an HTML selector over libraries that cannot be seen.
- A raising `scrollIntoView` before the fallback status read, or a raising debug `get_attribute('outerHTML')`, is not modelled (carPriceScraper/bringATrailerScraper.py:121 and 131, carPriceScraper/carsAndBidsScraper.py:87 and 97). Both sit outside the inner `try`, so such a listing would fail; on Bring a Trailer its URL would already be recorded. The model always makes the fallback read and never fails on the dump.
- CarsAndBids.PageLoop, CarsAndBids.RecordsBefore and CarsAndBids.Scraped carry no contract of their own. Their meaning is stated by CarsAndBids.PageLoopEnds and by the contracts of CarsAndBids.ScrapePages and CarsAndBids.Scrape. A contract on PageLoop makes the page-loop proof too costly for the verifier.
- Python's sort algorithm: `sorted` is modelled by a stable insertion sort. Its result is determined by stability and the key order, which is what the lemmas state.
