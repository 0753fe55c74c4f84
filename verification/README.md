# scraper-demo in Dafny

A model of `scrape_books.py`, the scraper of the "Books to Scrape" catalogue.
For each listing of a rendered catalogue page the scraper does the following:

- strips the title attribute;
- removes the "Â£" artifact from the price text and parses what is left as a number;
- reads the star rating from the first class token that is a rating word;
- makes the link absolute against the site root;
- builds a validated `Book` record.

Records that fail validation are skipped. `main` runs this over a fixed list of two pages and accumulates the records in page order.

The project has six modules:

| module | file | contents |
|---|---|---|
| `Wrappers` | `wrappers.dfy` | `Option` |
| `Text` | `text.dfy` | Python's `str.strip()` and `str.replace`, with their laws |
| `Rating` | `rating.dfy` | `rating_to_int` and the choice of the rating token |
| `Normalize` | `normalize.dfy` | price-text cleaning and link resolution |
| `Books` | `books.dfy` | the `Book` record and its two field constraints |
| `Scrape` | `scrape.dfy` | the per-listing step, the page loop and the run over the page list |

How the model represents the parts it cannot run:

- **Pages.** A rendered page is a sequence of `RawListing` values in document order. Each holds the four pieces of markup the scraper reads.
- **`float()`.** Python's `float` is a parameter `parse: string -> Option<real>`. `None` stands for `ValueError`.
- **The browser.** In `Run`, fetching and parsing a page is a parameter `fetch`.

The page loop is written once for any per-listing step. It is then instantiated with the scraper's own step, `Scrape.Step(parse)`.

A price that does not parse does not skip its listing: `scrape_page` catches only `ValidationError` (scrape_books.py:38), so the `ValueError` from `float()` escapes the loop and ends the page, and with it the run. The model therefore has three outcomes per listing: `Abort`, `Rejected` and `Accepted`.

Two behaviours of the code are proved as they are:

- **Link resolution.** A link that begins with "../../../" gets the site root twice: once from `BASE + rel` and once from the replacement (`Normalize.ResolveUrlTraversal`).
- **Price cleaning.** Removing "Â£" in one pass is guaranteed complete when every "Â" in the text starts a "Â£". Without that condition it can fail: removing an inner "Â£" can join its neighbours into a new one (`Normalize.NormalizePriceCanReintroduce`). A price text such as "Â£51.77" meets the condition.

## Model

| member | source | states |
|---|---|---|
| Books.MakeBook | scrape_books.py:13-17 | a record is built exactly when price >= 0 and 0 <= rating <= 5; it is then valid and carries the four given fields unchanged |
| Text.Strip | scrape_books.py:30 | the result is the input with a maximal whitespace run removed from each end (Python `isspace` characters); it is empty exactly when the input is all whitespace |
| Text.StrippedAtUnique | scrape_books.py:30 | any two cuts that each leave only whitespace outside and non-whitespace at the ends keep the same text, so `strip` is well defined |
| Text.StripSurrounded | scrape_books.py:30 | whitespace before and after a core without whitespace at its ends is removed, and the core comes back unchanged |
| Text.StripUnchanged | scrape_books.py:21 | a text without whitespace at its ends is left as it is |
| Text.StripIdempotent | scrape_books.py:30 | stripping twice equals stripping once |
| Text.Replace | scrape_books.py:31 | Python's `str.replace` with a non-empty pattern, scanning left to right without overlaps; a replacement no longer than the pattern never lengthens the text, one no shorter never shortens it |
| Text.ReplaceAbsent | scrape_books.py:31 | `replace` with a pattern that does not occur returns the text unchanged |
| Text.ReplaceAfterInertPrefix | scrape_books.py:34 | a prefix in which no match can start passes through `replace` untouched |
| Text.ReplacePrefix | scrape_books.py:34 | for a non-empty replacement whose first character is not in the pattern, the first n characters of the output either equal the input's or include a character that is not in the pattern |
| Text.ReplaceLeavesNoMatch | scrape_books.py:34 | for a pattern of at least two characters and a non-empty replacement whose first character is not in the pattern and inside which no match can start, the output holds no occurrence of the pattern |
| Text.ReplaceRemovesLead | scrape_books.py:31 | when every occurrence of the pattern's first character starts a match, and the replacement does not contain it, the output contains neither that character nor the pattern |
| Rating.StarsOf | scrape_books.py:20-21 | the lookup in the five-word table gives 1..5 exactly for the five rating words, the word being at position n-1, and 0 for every other key |
| Rating.RatingToInt | scrape_books.py:19-21 | the result of `rating_to_int` is always between 0 and 5 |
| Rating.RatingToIntMeaning | scrape_books.py:19-21 | `rating_to_int` is positive exactly when the stripped word is a rating word, and is then that word's position counted from one |
| Rating.RatingWordValue | scrape_books.py:20 | "One".."Five" map to 1..5 |
| Rating.PickRatingToken | scrape_books.py:32 | the picked token is "" exactly when no class token is a rating word, and otherwise it is the first class token that is one |
| Rating.ListingRating | scrape_books.py:32 | the listing's rating is between 0 and 5, and, since the picked token needs no stripping, it is the table lookup of that token: 0 for "", otherwise the word's position |
| Rating.ListingRatingFirst | scrape_books.py:32 | the rating is 0 exactly when no class token is a rating word, and otherwise it is the star count of the first rating word among the tokens |
| Normalize.NormalizePrice | scrape_books.py:31 | the price text with every "Â£" removed in one left-to-right pass; the result is never longer than the input |
| Normalize.NormalizePriceUnchanged | scrape_books.py:31 | a price text without "Â£" is left unchanged |
| Normalize.NormalizePriceRemovesArtifact | scrape_books.py:31 | when every "Â" starts a "Â£", the cleaned price text holds no "Â£" |
| Normalize.NormalizePriceIdempotent | scrape_books.py:31 | under the same condition, cleaning twice equals cleaning once |
| Normalize.NormalizePriceCanReintroduce | scrape_books.py:31 | the one-pass removal turns "ÂÂ££" into "Â£", which a second pass turns into "" |
| Normalize.NormalizePriceExample | scrape_books.py:31 | "Â£51.77" is cleaned to "51.77" |
| Normalize.BaseIsInert | scrape_books.py:34 | no position of the site root can start a "../../../" |
| Normalize.ResolveUrl | scrape_books.py:34 | BASE + rel with every "../../../" replaced by BASE in one left-to-right pass; the result starts with BASE and is at least as long as BASE + rel |
| Normalize.ResolveUrlAbsolute | scrape_books.py:34 | every resolved link starts with the site root and contains no "../../../" |
| Normalize.ResolveUrlPlain | scrape_books.py:34 | a link without "../../../" resolves to the site root followed by the link |
| Normalize.ResolveInertLink | scrape_books.py:34 | a link in which no "../../../" can start, whatever follows, resolves to the site root followed by the link |
| Normalize.ResolveUrlTraversal | scrape_books.py:34 | a link starting with "../../../" resolves to the site root twice, followed by the rest with its own "../../../" replaced |
| Normalize.ResolveUrlExample | scrape_books.py:34 | "catalogue/a-light-in-the-attic_1000/index.html" resolves to the site root followed by that link |
| Scrape.BuildListing | scrape_books.py:30-39 | a listing aborts the page exactly when its cleaned price text does not parse, and is rejected exactly when the parsed price is negative, since the rating is always in range; otherwise the record is valid and holds the stripped title, the parsed price, the first-rating-word rating and the resolved link |
| Scrape.AcceptedSound | scrape_books.py:34-37 | every accepted record is valid and its link is absolute |
| Scrape.Outcomes | scrape_books.py:29 | the listings are taken one by one, in document order |
| Scrape.KeptOf | scrape_books.py:37 | the records of the accepted outcomes, appended in order as `out.append` does; never more records than outcomes |
| Scrape.AcceptedIndices | scrape_books.py:29-39 | the accepted positions are listed in strictly increasing order, none missing |
| Scrape.AcceptedIndicesKept | scrape_books.py:37 | the k-th kept record is the one accepted at the k-th accepted position |
| Scrape.KeptOfMembership | scrape_books.py:36-39 | a record is kept exactly when some outcome accepts it |
| Scrape.KeptOfAppend | scrape_books.py:29-39 | keeping the records of two runs of outcomes laid end to end gives the records of each, in order |
| Scrape.AllAcceptedKeptAll | scrape_books.py:29-39 | when every outcome is an acceptance, nothing aborts and every record is kept |
| Scrape.Kept | scrape_books.py:28-40 | a page never yields more records than it has listings |
| Scrape.KeptFrom | scrape_books.py:36-39 | a record is in a page's result exactly when some listing of the page is accepted with it |
| Scrape.OutcomesAppend | scrape_books.py:29 | the outcomes of two listing sequences laid end to end are laid end to end |
| Scrape.ScrapePage | scrape_books.py:28-40 | the page loop fails exactly when some listing aborts, and otherwise returns the accepted records in document order |
| Scrape.KeptValid | scrape_books.py:28-40 | every record a page yields has price >= 0, rating in 0..5 and an absolute link |
| Scrape.KeptInDocumentOrder | scrape_books.py:29-40 | the k-th record comes from the k-th accepted listing, positions increase, and no accepted listing is missed |
| Scrape.AbortsExactly | scrape_books.py:36 | a page aborts exactly when some listing's cleaned price text does not parse |
| Scrape.WellFormedPageKeptAll | scrape_books.py:29-39 | when every price parses to a non-negative number, nothing aborts and every listing gives a record |
| Scrape.ConcatLength | scrape_books.py:49 | the length of the accumulated list is the sum of the per-page lengths |
| Scrape.ConcatKept | scrape_books.py:47-49 | accumulating page by page equals extracting from all pages' listings laid end to end |
| Scrape.ScrapeAll | scrape_books.py:47-49 | the run fails exactly when some page aborts; otherwise the result is the per-page records concatenated in page order, and its length is the sum of theirs |
| Scrape.Run | scrape_books.py:47-49 | over the two fixed pages, the run fails exactly when either page aborts; otherwise the first page's records come before the second's |
| Scrape.TwoPages | scrape_books.py:48-49 | for two pages, the accumulated list is the first page's records followed by the second's, and the run fails exactly when either page aborts |

## Left out

- Browser lifecycle, headless options, `driver.get` and `time.sleep` (scrape_books.py:24-26, 43-46): I/O and timing. A rendered page is given as its listings, and `Run` takes the fetch as a parameter.
- BeautifulSoup parsing and CSS selection (scrape_books.py:27, 29-33): a foreign library. A listing is the four strings the scraper reads from it.
- Python `float()` and IEEE doubles (scrape_books.py:36): the parser is a parameter and prices are reals. NaN and infinities are not modelled.
- JSON serialisation, directory creation, file writing and the final message (scrape_books.py:51-55): I/O.
- Pydantic internals beyond the two numeric bounds and the field values (scrape_books.py:13-17).
- Normalize.NormalizePriceRemovesArtifact: the absence of "Â£" after cleaning is proved only when every "Â" in the text starts a "Â£". Without that condition it can fail (`Normalize.NormalizePriceCanReintroduce`).
- Normalize.NormalizePriceIdempotent: the same condition applies.
- Text.Replace: requires a non-empty pattern, since Python's behaviour for an empty pattern is not modelled and the source only uses non-empty literals; its function contract states only the length relations; what the scan leaves is stated by `Text.ReplaceAbsent`, `Text.ReplaceLeavesNoMatch` and `Text.ReplaceRemovesLead`.
- Normalize.NormalizePrice: its function contract states only the length bound; what the cleaning removes is stated by `Normalize.NormalizePriceUnchanged` and `Normalize.NormalizePriceRemovesArtifact`.
- Normalize.ResolveUrl: its function contract states the prefix and length; the absence of "../../../" is stated by `Normalize.ResolveUrlAbsolute`.
- Scrape.KeptOf: its function contract states only the length bound; the pairing with the accepted outcomes is stated by `Scrape.AcceptedIndicesKept` and `Scrape.KeptOfMembership`.
- Rating.RatingToInt: its function contract states only the bounds; what the result means is stated by `Rating.RatingToIntMeaning`.
- Scrape.Kept: its function contract states only the length bound; membership, order and validity are stated by `Scrape.KeptFrom`, `Scrape.KeptInDocumentOrder` and `Scrape.KeptValid`.
