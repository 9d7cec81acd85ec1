# Depop storefront scraper — a Dafny model

This project models the logic of `depop_scraper_full.py`, a script that
collects the product tiles of a Depop seller's storefront, visits each
listing page, skips sold listings, extracts title, description, price and up
to eight images, and gathers one row per active listing (`title`, `desc`,
`price`, `PictureURL`, `image_count`, `listing_url`).

Selenium is not modelled. Each DOM lookup becomes an input value instead:

- `find_element` gives an `Option` (None when the lookup raises);
- `get_attribute` gives an `Option<string>` (None for Python's None);
- `find_elements` gives a sequence.

The modules follow the script's structure:

- `Wrappers`: the `Option` datatype.
- `Text`: the Python string builtins the script uses. These are `str.strip()`, `sub in s`,
  `s.split("?")[0]` and `" | ".join(...)`. The module adds `Split`, the inverse of the join.
- `Price`: `clean_price`, with values as exact decimals (`real`). It also has the
  `try`/`except` wrapper its callers put around it.
- `Tiles`: the record logic and collection loop of `get_tiles`. The loop is the method `CollectTiles`.
- `Details`: `scrape_listing_details`. This covers the sold check, the price fallback,
  the image loop (the method `CollectImages`) and the assembly of the record.
- `Pipeline`: the loop of `main` (the method `CollectListings`), the image fallback
  merge, and `Scrape`, which runs both loops.

Each loop is a method proved against a recursive function, such as
`TileRecords`, `ImageList` or `Collected`. The properties are lemmas about
that function.

Some behaviour of the code may be unexpected. The model follows the code in each case:

- Tile URLs are not deduplicated (`DuplicateTilesKept`), and neither are images
  (`DuplicateImagesKept`).
- The sold check matches only the substrings "Sold" and "SOLD". So a displayed
  "sold out" does not mark a listing sold (`SoldExamples`).
- The merge in `main` fills in only the picture list. It never replaces a zero
  price with the tile price (`FallbackExample`).
- `main` has no handler around `scrape_listing_details`. An exception while
  visiting one listing therefore ends the whole run, with nothing saved
  (`AbortsAtFirstRaise`). It does not skip just that listing.
- The detail price falls back to the second locator only when the first
  lookup or parse raises, never on 0.0. The tile price falls back on 0.0. The
  two rules differ exactly when the discounted price parses to zero and the
  other price is non-zero (`TileAndDetailPriceRules`).
- An image src such as `"?depop"` is kept as the empty string. The row then has
  an empty `PictureURL` and an `image_count` of 1 (`DetailRecord`).

## Model

| member | source | states |
|---|---|---|
| `Text.Strip` | depop_scraper_full.py:90 | `.strip()`: the result is the slice of the text that starts after the leading whitespace; everything around it is whitespace and it neither starts nor ends with whitespace |
| `Text.StripFixesUnspaced` | depop_scraper_full.py:90 | `.strip()` leaves a text that neither starts nor ends with whitespace unchanged |
| `Text.StripIdempotent` | depop_scraper_full.py:90 | stripping an already stripped title or description changes nothing |
| `Text.StripEmptyIff` | depop_scraper_full.py:96 | a stripped text is empty exactly when the text is all whitespace |
| `Text.Contains` | depop_scraper_full.py:116 | Python's `sub in s` (also the substring test of the sold XPath on line 84): the empty string is in every string, and a contained string is never longer than the text |
| `Text.ContainsAt` | depop_scraper_full.py:116 | the `in` test holds exactly when the substring occurs at some position |
| `Text.OccurrenceOf` | depop_scraper_full.py:116 | when the `in` test holds, there is a position where the substring occurs |
| `Text.ContainsFrom` | depop_scraper_full.py:116 | an occurrence at any position makes the `in` test hold |
| `Text.BeforeQuery` | depop_scraper_full.py:117 | `src.split("?")[0]` holds no '?', is a prefix of the src and is followed by '?' unless it is the whole src |
| `Text.BeforeQueryFixes` | depop_scraper_full.py:117 | a src without '?' is kept whole |
| `Text.BeforeQueryIdempotent` | depop_scraper_full.py:117 | cutting a src at its first '?' twice is the same as once |
| `Text.JoinEmptyIff` | depop_scraper_full.py:124 | the joined picture list is empty exactly when there are no images or the only image is empty |
| `Text.Join` | depop_scraper_full.py:124 | `join` with the picture separator: empty for no images, starts with the first image, and puts the separator right after it when there are two or more |
| `Text.FindFrom` | depop_scraper_full.py:124 | the search for the separator gives its first occurrence from the start position on, or none when it occurs nowhere after it |
| `Text.Split` | depop_scraper_full.py:124 | splitting a `PictureURL` on its separator always gives at least one piece |
| `Text.FirstSeparator` | depop_scraper_full.py:124 | in a joined picture list, the first separator follows the first image when that image holds no vertical bar |
| `Text.SplitJoinStep` | depop_scraper_full.py:124 | splitting a list of two or more images joined with the separator gives the first image, then the split of the rest, when the first image holds no vertical bar |
| `Text.SplitJoin` | depop_scraper_full.py:124 | splitting `PictureURL` on its separator gives the image list back when it is non-empty and no image holds a vertical bar |
| `Price.FirstRun` | depop_scraper_full.py:24 | `re.findall(r'[\d.]+', text)[0]`: none exactly when no character is a digit or '.', otherwise a non-empty run of such characters |
| `Price.RunStart` | depop_scraper_full.py:24 | the run starts at the first digit or '.', and everything before it is neither |
| `Price.RunEnd` | depop_scraper_full.py:24 | the run is maximal: it ends at the end of the text or before a character that is neither a digit nor '.' |
| `Price.DotIndex` | depop_scraper_full.py:25 | the position of the first '.' of a token, or its length when it has none |
| `Price.ParseFloat` | depop_scraper_full.py:25 | `float(token)` on a token of digits and dots never yields a negative value |
| `Price.DecimalValue` | depop_scraper_full.py:25 | the value of a decimal token "whole.frac" is never negative |
| `Price.CleanPrice` | depop_scraper_full.py:21-25 | `clean_price`: 0.0 for empty text and for text without a digit or '.'; a value is never negative |
| `Price.ParseFloatRaises` | depop_scraper_full.py:25 | `float()` raises on a non-empty token of digits and dots exactly when it is "." or holds two dots |
| `Price.CleanPriceRaises` | depop_scraper_full.py:24-25 | `clean_price` raises exactly when the first run is "." or holds two dots |
| `Price.LaterTextIgnored` | depop_scraper_full.py:24-25 | once the first run has ended, any text appended does not change the result: later numbers are ignored |
| `Price.PriceRoundTrip` | depop_scraper_full.py:21-25 | a price rendered as "d…d.dd" behind a prefix without digits or dots (such as "$") normalises back to its exact value |
| `Price.ParseCents` | depop_scraper_full.py:25 | `float()` reads a rendered amount of cents back exactly |
| `Price.ParseDecimal` | depop_scraper_full.py:25 | `float()` reads digits, a '.' and digits as the exact decimal they denote |
| `Price.DecimalToken` | depop_scraper_full.py:24-25 | digits, a '.' and digits form a run of `[\d.]` characters whose first '.' follows the whole part |
| `Price.TwoDigitsValue` | depop_scraper_full.py:25 | the two rendered cent digits read back as the number of cents |
| `Price.FirstRunAfter` | depop_scraper_full.py:24 | a run that follows a prefix without digits or dots is the first run |
| `Price.ExampleDollarPrice` | depop_scraper_full.py:21-25 | `clean_price("$30.00")` is 30 |
| `Price.ExampleToken` | depop_scraper_full.py:25 | `float("30.00")` is 30 |
| `Price.ExampleSaleRaises` | depop_scraper_full.py:24-25 | `clean_price("Sale. $30")` raises, because its first run is "." |
| `Price.PriceOrZero` | depop_scraper_full.py:57-61 | a price element inside its `try` gives the parsed price when present and parsable, and 0.0 otherwise; never negative |
| `Price.PriceOf` | depop_scraper_full.py:101-107 | a price element's value when it is present and `clean_price` does not raise (never negative); none when it is missing or `clean_price` raises |
| `Tiles.AbsoluteUrl` | depop_scraper_full.py:47 | an href starting with "/" gets the site origin prefixed and any other href is kept verbatim; the href is a suffix of the result, which never starts with "/" |
| `Tiles.AbsoluteUrlIdempotent` | depop_scraper_full.py:47 | making a URL absolute twice is the same as once |
| `Tiles.TilePrice` | depop_scraper_full.py:72 | `price if price else full_price` is one of the two prices, is the discounted one when that is non-zero, and is 0.0 exactly when both are |
| `Tiles.Resolves` | depop_scraper_full.py:45-47 | the link element and its href are both present; otherwise the link lookup raises and the tile goes to the `except` of lines 74-75 that drops it |
| `Tiles.RecordOf` | depop_scraper_full.py:45-73 | a tile record has a non-negative price and a URL that is not site-relative |
| `Tiles.TilePriceRule` | depop_scraper_full.py:56-72 | a missing, unparsable or zero discounted price falls back to the full price; otherwise the discounted price is used; the price is 0.0 exactly when neither element gives a non-zero price |
| `Tiles.TileRecords` | depop_scraper_full.py:41-76 | there are never more records than tiles |
| `Tiles.CollectTiles` | depop_scraper_full.py:41-76 | the `get_tiles` loop computes `TileRecords` of the tiles, and every collected price is non-negative |
| `Tiles.TileRecordsAppend` | depop_scraper_full.py:42-75 | tiles are handled independently and in order: the records of `a + b` are those of `a` followed by those of `b` |
| `Tiles.FailingTileSkipped` | depop_scraper_full.py:74-75 | a tile whose link lookup raises is dropped and the tiles after it are still collected |
| `Tiles.TileRecordsCount` | depop_scraper_full.py:42-75 | collected records plus tile errors equal the number of tiles |
| `Tiles.TileRecordsFromTiles` | depop_scraper_full.py:69-73 | every record is the record of one of the tiles |
| `Tiles.DuplicateTilesKept` | depop_scraper_full.py:69-73 | two tiles linking to the same listing give two records |
| `Details.SoldElements` | depop_scraper_full.py:84 | the elements the sold XPath returns all come from the page and carry "Sold" or "SOLD" |
| `Details.SoldMarked` | depop_scraper_full.py:84 | the XPath test `contains(text(),'Sold') or contains(text(),'SOLD')`; a marked text has at least four characters |
| `Details.AnyDisplayed` | depop_scraper_full.py:85 | `any(elem.is_displayed() ...)`: some element is displayed, so there is at least one element |
| `Details.SoldOnlyIfMarked` | depop_scraper_full.py:84-85 | a displayed element the sold XPath returns is a displayed page element carrying "Sold" or "SOLD" |
| `Details.SoldIfMarked` | depop_scraper_full.py:84-85 | a displayed page element carrying "Sold" or "SOLD" makes the `any(...)` test hold |
| `Details.SoldIff` | depop_scraper_full.py:84-85 | the page is classified sold exactly when a displayed element carries "Sold" or "SOLD" |
| `Details.LowerCaseNotSold` | depop_scraper_full.py:84 | a text without a capital 'S' (such as "sold out") is never a sold marker |
| `Details.DetailPrice` | depop_scraper_full.py:101-109 | the detail price is never negative |
| `Details.DetailPriceRule` | depop_scraper_full.py:101-109 | a discounted price that parses is used, even 0.0; only a raising lookup or parse falls back to the listing price; 0.0 when both raise |
| `Details.ImageOf` | depop_scraper_full.py:115-118 | one image element adds at most one entry, and no entry holds a '?' |
| `Details.TrustedHost` | depop_scraper_full.py:116 | the src contains "cloudfront" or "depop" |
| `Details.KeptImages` | depop_scraper_full.py:114-118 | the images the loop keeps from the given elements, in order: at most one per element |
| `Details.KeptImagesStep` | depop_scraper_full.py:114-118 | looking at one more element appends exactly what that element contributes |
| `Details.ImageList` | depop_scraper_full.py:112-118 | `images` from `img_elements[:8]`: at most eight entries, and no more than there are elements |
| `Details.KeptImagesShape` | depop_scraper_full.py:112-118 | the kept images number at most the elements looked at and hold no '?'; each is the query-free part of a non-empty src containing "cloudfront" or "depop" |
| `Details.KeptImagesAppend` | depop_scraper_full.py:114-118 | image elements are handled in order, without reordering or deduplication |
| `Details.ImageListBounds` | depop_scraper_full.py:114 | at most eight images, none with a '?'; elements after the eighth are never looked at |
| `Details.DuplicateImagesKept` | depop_scraper_full.py:114-118 | the same trusted image twice is kept twice |
| `Details.CollectImages` | depop_scraper_full.py:112-118 | the image loop computes `ImageList` of the elements: at most eight entries, none with a '?' |
| `Details.StrippedOrEmpty` | depop_scraper_full.py:89-98 | a title or description is "" when its element is missing, and otherwise has no surrounding whitespace |
| `Details.ListingDetails` | depop_scraper_full.py:84-127 | the value `scrape_listing_details` returns: None for a sold page, otherwise a record whose `listing_url` is the visited URL, whose price is non-negative and whose `image_count` is at most 8 |
| `Details.ScrapeListingDetails` | depop_scraper_full.py:84-127 | the function computes `ListingDetails`, and returns None exactly when a displayed element carries a sold marker |
| `Details.SoldShortCircuit` | depop_scraper_full.py:84-86 | a displayed sold marker gives None whatever else the page holds, and only a displayed sold marker does |
| `Details.DetailRecord` | depop_scraper_full.py:120-127 | `image_count` is the number of images (at most 8), and `listing_url` is the visited URL; `PictureURL` is empty exactly when the images are none or a single empty one, and, when there is at least one image and no image holds a vertical bar, it splits back into the images |
| `Details.SoldExamples` | depop_scraper_full.py:84-86 | a displayed "sold out" is scraped, a displayed "SOLD OUT" is skipped, and a hidden "Sold" is scraped |
| `Pipeline.MergeFallback` | depop_scraper_full.py:144-146 | the merge changes only `PictureURL` and `image_count` (to the tile's main image and 1), and only when `PictureURL` is empty and the main image is non-empty; title, description, price and URL are kept |
| `Pipeline.MergeIdempotent` | depop_scraper_full.py:144-146 | merging twice is the same as merging once |
| `Pipeline.RowsOf` | depop_scraper_full.py:141-147 | a loaded page adds at most one row, and none exactly when `scrape_listing_details` returns None |
| `Pipeline.EffectOf` | depop_scraper_full.py:139-147 | visiting one tile raises exactly when its visit raises; otherwise it adds at most one row |
| `Pipeline.Effects` | depop_scraper_full.py:138 | one effect per tile of `tile_data` |
| `Pipeline.EffectsAt` | depop_scraper_full.py:138-147 | the i-th effect is that of the i-th tile and its visit |
| `Pipeline.Step` | depop_scraper_full.py:138-147 | one iteration: the run goes on exactly when it had not aborted and the visit did not raise, and rows are only ever appended |
| `Pipeline.Run` | depop_scraper_full.py:137-147 | the loop over the tiles' effects; an abort names the position of a tile that was visited |
| `Pipeline.Collected` | depop_scraper_full.py:137-149 | the outcome of `main`'s loop over `tile_data` and the visits; an abort names one of the tiles |
| `Pipeline.VisitTile` | depop_scraper_full.py:139-147 | the loop body for tile `i` has the effect of that tile's visit: it raises, or appends the merged row unless the page is sold |
| `Pipeline.RunShape` | depop_scraper_full.py:138-147 | an aborted loop stopped at a raising visit and every earlier visit appended; the loop finishes exactly when no visit raises |
| `Pipeline.AbortedPrefix` | depop_scraper_full.py:138-141 | once a visit raises, the run ends with that exception |
| `Pipeline.CollectListings` | depop_scraper_full.py:137-149 | the loop of `main` computes `Collected` of the tiles and their visits |
| `Pipeline.Scrape` | depop_scraper_full.py:134-149 | collecting tiles and then running the loop gives `Collected` of the tile records |
| `Pipeline.ThenStep` | depop_scraper_full.py:138-149 | one more loop iteration on the second run is one more on the sequenced runs |
| `Pipeline.RunAppend` | depop_scraper_full.py:138-147 | rows stay in discovery order: the loop over two runs of effects, one after the other, is the first run followed by the second, which is reached only when the first finishes |
| `Pipeline.CollectedSingle` | depop_scraper_full.py:139-147 | a single tile gives its merged row, nothing when its page is sold, or an abort when its visit raises |
| `Pipeline.FirstRaised` | depop_scraper_full.py:141 | the index of the first raising visit; every earlier visit loaded |
| `Pipeline.EffectsMatch` | depop_scraper_full.py:139-147 | a tile's effect raises exactly when its visit raises, and a loaded page adds at most one row |
| `Pipeline.RunFirstRaise` | depop_scraper_full.py:138-141 | over effects that raise where the visits do, the loop aborts exactly when some visit raises, and then at the first |
| `Pipeline.AbortsAtFirstRaise` | depop_scraper_full.py:138-141 | the run aborts exactly when some visit raises, and then at the first one |
| `Pipeline.RunCount` | depop_scraper_full.py:141-149 | a loop where every tile adds at most one row and none raises finishes with one row per tile that adds one |
| `Pipeline.KeptPlusSkipped` | depop_scraper_full.py:141-149 | when no visit raises, kept rows plus sold pages equal the number of tiles |
| `Pipeline.EmptyStorefront` | depop_scraper_full.py:137-138 | with no tiles the run finishes with no rows |
| `Pipeline.FallbackExample` | depop_scraper_full.py:144-146 | a row with no images and price 0.0 takes the tile's image, and its price stays 0.0 even though the tile's price is 25 |
| `Pipeline.TileAndDetailPriceRules` | depop_scraper_full.py:101-109 | the tile price rule and the detail price rule, on the same two texts, differ exactly when the discounted price parses to 0.0 and the other price is non-zero |

## Left out

- Browser I/O: `setup_driver`, `driver.get`, page scrolling, the `time.sleep` waits and `driver.quit` (depop_scraper_full.py:11-19, 29-35, 79-81, 156-158). Every lookup result is an input. A visit that raises is `Visit.Raised`.
- Matching of the CSS selectors: the tile list and the image-element list are inputs. The sold XPath is modelled as a substring test on each element's first text node.
- Exceptions outside the handled lookups, such as `find_elements` raising in `get_tiles`: they would end the run before the loop and are not modelled.
- pandas, the CSV file and all console output (depop_scraper_full.py:30, 39, 75, 140, 149, 151-155). The model stops at the in-memory list of rows.
- `Price.CleanPrice`: does not model IEEE doubles. Values are exact decimals, so rounding, and `inf` for absurdly long digit strings, are not modelled.
- `Price.CleanPrice`: `\d` is restricted to the ASCII digits 0-9. Python's `\d` and `float()` also accept other Unicode decimal digits.
- `Price.CleanPrice`: takes a string. Its callers always pass an element's `.text`, which is never None, so `not price_text` is the empty-string case.
- The in-place update of the `details` dict in `main` is modelled as a record update. The dict is fresh for each visit and never shared, so aliasing does not arise.
- `Pipeline.RunAppend`: the order of rows across two runs is stated over their effects, not over two runs of tiles. A tile-level version would also need the effects of concatenated tiles to be the concatenated effects, and the model does not state that.
- app.py: a Streamlit form with no logic of its own.
