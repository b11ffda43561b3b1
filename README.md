# buscalibre-scraper, modelled in Dafny

The scraper downloads the catalogue of an online book shop and writes one CSV row per book. Its own logic sits in `main.py`, between the HTTP client and the HTML parser:

- it reads the total number of results from the seed page (`get_number_of_books`);
- it plans how many pages to download (`get_number_of_pages`);
- it turns every `div.producto` card into a record with title, author, price breakdown and url (`get_books`, `get_book_price`, `get_book_url`);
- it flattens the pages (the `flatten` lambda in `main`);
- it writes a header and one row per record, skipping the records whose row cannot be built (`export_to_csv`).

This project models that logic. The parsed HTML is abstracted to the strings the code reads from it. A listing block (`Listing.Block`) holds three things:

- its child nodes, where the first child carries an `href` and the texts of its own children;
- the text of its discount badge;
- the texts of the children of its pre-discount price element.

A missing element is `None`.

Modules, one per concern:

| module | models |
|---|---|
| `Wrappers` | `Option`, and `Result` for an exception that propagates |
| `PyText` | the Python built-ins the code leans on: `str.split` with one separator, `''.join`, `int(str)` (whitespace, sign, `_` between digits), `str(int)`, `int(a / b)`; also the shop's dotted display of numbers ("12.990") used to state round trips |
| `Listing` | the data model: `Node`, `Block`, `Price` (`NoDiscount` is the source's sentinel `0`), `Book`, and the exceptions extraction can raise |
| `Counting` | `CountBooks` (the text step of `get_number_of_books`, with the regular expression characterised by `Admissible`, `LastEnd` and `Search`) and `PageCount` (`get_number_of_pages`) |
| `Pricing` | `DerivePrice` (`get_book_price`) and `Breakdown`, the price arithmetic |
| `Extraction` | `BookUrl` (`get_book_url`), `ExtractBlock` (one iteration of `get_books`), `ExtractPage` and the method `GetBooks` (the loop), `Flatten` |
| `Exporting` | `RowOf` (the row dictionary), `ExportedRows`/`Skipped` and the method `ExportToCsv` (the loop of `export_to_csv`), `BookOfRow` (reading a row back) |
| `Pipeline` | `Run`, the sequencing of `main` with the page downloads as a parameter; `RequestedPages`, `Gather` (`asyncio.gather`), `ExtractPages` |

Points where the behaviour of `main.py` is easy to misread:

- Title and author are taken exactly as the texts of the inner children at positions 1 and 2. They are not trimmed.
- The discounted price is `int(P * (1 - D/100))`, not `P - discount`. With exact arithmetic, for a percentage `0 <= D <= 100` and a price `P >= 0`, the two parts add up to `P`, or to `P - 1` when `P*D` is not a multiple of 100 (`Pricing.BreakdownBounds`). Outside that range the rule fails: a 150% badge on a price of 3 gives a discount of 4 and a discounted price of -1, which add up to `P` although 450 is not a multiple of 100 (`Pricing.BreakdownOverHundred`).
- The count pattern `Encontramos (.+\..*) resultados` requires a `.` in the number. A count below one thousand, shown as "Encontramos 500 resultados", makes the run fail (`Counting.CountExampleUndotted`).
- The badge and the price element are both looked up before the empty-badge test. A card without a price element therefore fails even when it has no discount (`Pricing.DerivePriceNeedsElements`).

## Model

| member | source | states |
|---|---|---|
| `PyText.Split` | main.py:63-66 | `str.split` with one separator yields one more piece than there are separators, and no piece contains the separator |
| `PyText.JoinSplit` | main.py:63-66 | joining the pieces of a split with the separator gives the original text back |
| `PyText.SplitUnique` | main.py:63-66 | the split is the only cutting of a text into separator-free pieces that join back to it |
| `PyText.SplitAtFirst` | main.py:63 | the first piece of `split('%')` is the text before the first `%`, and the rest is split on its own |
| `PyText.Concat` | main.py:66 | `''.join(parts)`: with `Split`, it deletes the separator (`PyText.ConcatSplit`) |
| `PyText.ConcatSplit` | main.py:66 | `''.join(s.split('.'))` is `s` with every `.` deleted |
| `PyText.StripLeftRemovesSpace` | main.py:63 | stripping removes exactly a leading run of whitespace, leaving a non-space first character |
| `PyText.StripRightRemovesSpace` | main.py:63 | stripping removes exactly a trailing run of whitespace, leaving a non-space last character |
| `PyText.ParseShow` | main.py:63 | `int(str(n)) == n` for every integer, negative ones included |
| `PyText.ParseInt` | main.py:63-66 | `int(str)`: reads every `str(n)` back as `n` (`PyText.ParseShow`), a digit string as its value (`PyText.ParseDigits`), ignores surrounding whitespace (`PyText.ParseIgnoresSpace`), and raises on any text holding a character other than digits, whitespace, signs and `_` (`PyText.ParseRejects`) |
| `PyText.ParseDigits` | main.py:66 | `int()` reads a non-empty digit string, leading zeros allowed, as its decimal value |
| `PyText.ParseIgnoresSpace` | main.py:63 | `int()` ignores whitespace around the number |
| `PyText.ParseRejectsSeparator` | main.py:63 | `int()` of the ASCII separator U+001C followed by a digit raises: only ASCII space, `\t` to `\r` and non-ASCII whitespace are skipped |
| `PyText.ParseRejects` | main.py:63-66 | `int()` raises on a text holding, anywhere, a character that is not a digit, whitespace, a sign or `_` |
| `PyText.TruncDiv` | main.py:70-72 | `int(a / b)` truncates toward zero: for `a >= 0`, `q*b <= a < (q+1)*b`; for `a < 0`, `(q-1)*b < a <= q*b` |
| `PyText.DottedValue` | main.py:111 | deleting the dots of the shop's display of `n` leaves a digit string whose value is `n` |
| `Counting.Capture` | main.py:110 | group 1 of the first match of the pattern: the capture `Search` returns from the first possible start, so the leftmost start with the widest capture there (`Counting.Search`, `Counting.CountReadsCapture`) |
| `Counting.LastEnd` | main.py:110 | returns the largest end of an admissible capture at a given start, or reports that none exists |
| `Counting.Search` | main.py:110 | `re.search` finds the leftmost start with an admissible capture and the widest capture there, or proves that no capture exists |
| `Counting.CountBooks` | main.py:106-116 | the count is the dot-less leftmost-widest capture read as a number (`Counting.CountReadsCapture`); a missing element, a text with no admissible capture (`Counting.CountNoMatch`, `Counting.CountNeedsDot`) and a capture that does not read as a number (`Counting.CountNotANumber`) are the three failures; the shop's display of every `n >= 1000` reads back as `n` (`Counting.CountDotted`) |
| `Counting.CountReadsCapture` | main.py:109-112 | the count is `n` if and only if the pattern matches and the capture `re.search` returns (the one `Counting.Search` finds, leftmost start and widest end) reads as `n` with its dots deleted |
| `Counting.CountNotANumber` | main.py:110-113 | the count fails as "not a number" if and only if the pattern matches and that capture, dots deleted, does not read as an integer |
| `Counting.CountNoMatch` | main.py:110-116 | the count fails with "no match" exactly when the text has no admissible capture |
| `Counting.CountNeedsDot` | main.py:110 | a text without a `.` never yields a count |
| `Counting.CountDotted` | main.py:106-112 | "Encontramos <n with dot separators> resultados" yields `n` for every `n >= 1000` |
| `Counting.CountExample` | main.py:110-111 | "Encontramos 1.500 resultados" yields 1500 |
| `Counting.CountExampleUndotted` | main.py:110 | "Encontramos 500 resultados" fails to match |
| `Counting.PageCount` | main.py:99-103 | the number of 147-book pages in the count, truncated, plus ten: characterised by `Counting.PageCountFloor`, `Counting.PageCountCovers` and `Counting.PageCountMonotone` |
| `Counting.PageCountFloor` | main.py:99-103 | for a count `n >= 0` the plan is `floor(n / 147) + 10`, at least 10 |
| `Counting.PageCountCovers` | main.py:99-103 | the plan minus its ten spare pages is the largest number of full 147-book pages that fit in `n` |
| `Counting.PageCountMonotone` | main.py:99-103 | more books never plan fewer pages |
| `Counting.PageCountExample` | main.py:103 | 1500 books plan 20 pages |
| `Pricing.Breakdown` | main.py:68-73 | the four price fields for `D` percent of `P`: their floor values, bounds and sum are given by `Pricing.BreakdownBounds` |
| `Pricing.DerivePrice` | main.py:56-73 | the sentinel exactly for an empty badge with a price element present (`Pricing.NoDiscountExactly`); the breakdown of the badge's percentage and the price token for the shop's display (`Pricing.DerivePriceReadsDisplay`, `Pricing.PercentOfBadge`, `Pricing.PriceOfText`); a failure for a missing badge or price element (`Pricing.DerivePriceNeedsElements`), an unreadable percentage (`Pricing.DerivePriceBadPercent`), a missing price token (`Pricing.DerivePriceNeedsToken`) or an unreadable price (`Pricing.DerivePriceBadPrice`) |
| `Pricing.BreakdownBounds` | main.py:63-73 | for `0 <= D <= 100` and `P >= 0`: discount is `floor(P*D/100)`, discounted price is `floor(P*(100-D)/100)`, both lie in `[0, P]`, and they sum to `P`, or to `P-1` when 100 does not divide `P*D` |
| `Pricing.BreakdownOverHundred` | main.py:63-72 | a 150% badge on a price of 3 gives a discount of 4 and a discounted price of -1, outside the bounds that hold up to 100% |
| `Pricing.BreakdownExample` | main.py:68-73 | 20% of 10000 gives discount 2000 and price 8000 |
| `Pricing.NoDiscountExactly` | main.py:56-61 | the sentinel is returned exactly when the badge is present but empty and the price element is present and has a child |
| `Pricing.PercentOfBadge` | main.py:63 | the percentage is the integer written before the badge's first `%` |
| `Pricing.PriceOfText` | main.py:65-66 | the original price is the second space-separated token of "<symbol> <dotted P>" read without its dots: `P` |
| `Pricing.DerivePriceReadsDisplay` | main.py:56-73 | a badge "D%..." with a price "<symbol> <dotted P>" gives the breakdown for `D` percent of `P`, whatever the block's other children |
| `Pricing.DerivePriceNeedsToken` | main.py:65 | once the percentage parses, a price text without a space fails instead of producing a price |
| `Pricing.DerivePriceNeedsElements` | main.py:56-61 | any price, the sentinel included, needs the badge and a price element with a child; a missing badge fails as such, and a badge without a price element fails on the element |
| `Pricing.DerivePriceBadPercent` | main.py:63 | a non-empty badge whose text before the first `%` holds a character `int()` cannot read fails on the percentage |
| `Pricing.DerivePriceBadPrice` | main.py:65-66 | once the percentage parses, a second price token holding a character `int()` cannot read, other than the deleted dots, fails on the price |
| `Extraction.BookUrl` | main.py:49-53 | the `href` of the block's first child, failing when there is no first child, it is a text node, or it has no `href` (`Extraction.BookUrlExactly`, `Extraction.ExtractCard`) |
| `Extraction.BookUrlExactly` | main.py:49-53 | the url is found exactly when the first child exists, is an element and carries an `href`, and it is that `href` |
| `Extraction.ExtractBlock` | main.py:83-94 | one record from one block: title and author are the texts at positions 1 and 2 of the first child's children, then price and url (`Extraction.ExtractBlockFields`, `Extraction.ExtractCard`, `Extraction.ExtractCardNoDiscount`) |
| `Extraction.ExtractBlockFields` | main.py:83-94 | every record a block yields has the unchanged texts of children 1 and 2 of the first child as title and author, the block's derived price and its url |
| `Extraction.ExtractCard` | main.py:49-94 | a well-formed card gives the record with the unmodified title and author texts, its breakdown, and the first child's `href` as url |
| `Extraction.ExtractCardNoDiscount` | main.py:82-94 | a card with an empty badge gives a record priced with the sentinel |
| `Extraction.ExtractPage` | main.py:76-96 | the records of a page in block order, or the first block's exception (`Extraction.ExtractPageBlocks`, `Extraction.ExtractPageStopsAtError`, `Extraction.ExtractEmptyPage`) |
| `Extraction.ExtractPageBlocks` | main.py:76-96 | a page succeeds exactly when every block does, giving one record per block in block order; otherwise its exception is that of the first failing block |
| `Extraction.ExtractPageStopsAtError` | main.py:82-94 | once a block raises, the rest of the page is not extracted and the page fails with that exception |
| `Extraction.GetBooks` | main.py:76-96 | the append loop computes exactly the page extraction, early exit on the first exception included |
| `Extraction.ExtractEmptyPage` | main.py:78-96 | a page without listing blocks gives no records and no error |
| `Extraction.Flatten` | main.py:149 | the records of all pages, page by page and in order within a page (`Extraction.FlattenAppend`, `Extraction.FlattenIndex`) |
| `Extraction.FlattenAppend` | main.py:149-150 | flattening two runs of pages gives the first run's records followed by the second's |
| `Extraction.FlattenIndex` | main.py:149 | record `j` of page `i` comes right after the records of all earlier pages: page order first, then order within the page |
| `Exporting.ExportToCsv` | main.py:20-42 | the loop writes the header, then the rows of the records in order, and logs the records it skips |
| `Exporting.Header` | main.py:21-24 | `writer.writeheader()`: the seven field names in the order of main.py:21 |
| `Exporting.RowOf` | main.py:28-36 | the seven-cell row of a record with a breakdown, none for the sentinel; each row reads back as its record (`Exporting.RowRoundTrip`, `Exporting.RowExample`) |
| `Exporting.ExportedRows` | main.py:26-42 | the rows written after the header: one per priced record, in order (`Exporting.ExportedArePriced`, `Exporting.ExportAppend`) |
| `Exporting.Skipped` | main.py:26-42 | the records logged as errors: exactly the sentinel-priced ones, in order (`Exporting.ExportedArePriced`, `Exporting.ExportAppend`) |
| `Exporting.RowRoundTrip` | main.py:28-36 | the row of a record with a breakdown reads back as that record: title, author, percentage, discount, original price, discounted price and url |
| `Exporting.ExportAppend` | main.py:26-42 | skipping is local: exporting two runs of records gives the rows and log entries of the first run, then those of the second |
| `Exporting.ExportedArePriced` | main.py:26-42 | the written rows are exactly the records with a breakdown, in order; every logged record carries the sentinel; the priced and the logged records together are the input records as a multiset |
| `Exporting.RowExample` | main.py:28-36 | a 20% discount on 10000 is written as 0.2, 2000, 10000, 8000 next to title, author and url |
| `Pipeline.RequestedPages` | main.py:145 | the requested page numbers are `1..pages`, none when `pages <= 0` |
| `Pipeline.Gather` | main.py:145-146 | the gathered documents follow request order, and any single failed download makes the whole gather fail |
| `Pipeline.ExtractPages` | main.py:150 | all pages are extracted in order; the run's extraction exception is that of the first failing page |
| `Pipeline.GatherAgrees` | main.py:145-146 | the gather depends only on the downloads of the requested pages |
| `Pipeline.Run` | main.py:131-152 | count, plan, gather, extract, flatten, export: depends only on the count text and the planned pages (`Pipeline.RunReadsPlannedPages`, `Pipeline.RunScenario`), fails without a count (`Pipeline.RunStopsWithoutCount`) or on any failed download (`Pipeline.RunFailsOnAnyFetch`) |
| `Pipeline.RunReadsPlannedPages` | main.py:139-146 | a run consults the downloads of pages `1..PageCount(n)` and no other |
| `Pipeline.RunFailsOnAnyFetch` | main.py:145-146 | one failed download among the planned pages fails the run before anything is exported |
| `Pipeline.RunStopsWithoutCount` | main.py:139 | without a readable count the run fails before any page is downloaded |
| `Pipeline.RunScenario` | main.py:139-146 | the seed text "Encontramos 1.500 resultados" plans pages 1 to 20, and the run depends on those downloads only |

## Left out

- HTTP fetching (`get_page` and the seed request in `main`), the session, the timeout and the headers. These are network I/O. A download is a parameter of `Pipeline.Run`.
- The concurrency of `asyncio.gather`. `Pipeline.Gather` keeps its request order and its all-or-nothing failure. It does not say which exception is raised when several downloads fail.
- BeautifulSoup parsing and CSS selection. Their results are the given strings and sequences in `Listing.Block` and in the count text.
- The `;`-separated serialisation of `csv.DictWriter` and the writing to standard output. A row is a sequence of seven typed cells.
- `aiologger` logging. The export's log is the sequence of skipped records. The other log lines are diagnostics and are not modelled.
- `get_book_publisher`. It returns `None` and its only call is commented out.
- `CountBooks`: reads the dot-less capture with the rules of `int()`. Python's `float()` also accepts exponents and "inf"/"nan", and returns a double. The model rejects those forms and keeps the count exact.
- `Breakdown`: computes `int(P * D/100)` and `int(P * (1 - D/100))` exactly, whereas Python computes them in doubles. A double product can land one unit lower: `int(100 * 0.29)` is 28. Very large prices would also lose precision, or overflow when converted to a double.
- `PageCount`: divides exactly, whereas Python divides a double. For counts below 2^53 the results differ only where the double quotient rounds up to the next integer; above that, the double cannot hold the count or the quotient, and the truncated result can also come out lower.
- `PageCount`: a count of about 1.8·10^308 or more makes `float()` return `inf`, and `int(inf / 147)` at main.py:103, outside the `try` of `get_number_of_books`, raises an uncaught `OverflowError`. The model plans a finite number of pages for every count.
- `ParseInt`: accepts ASCII digits only. Python's `int()` also accepts other Unicode decimal digits.
- `ParseInt`: has no length limit. CPython (from 3.11, and 3.7.14, 3.8.14, 3.9.14 and 3.10.7) raises `ValueError` when `int(s)` or `str(n)` involves more than 4300 digits by default. So a percentage or price token of more than 4300 digits raises at main.py:63 or main.py:66, while the model reads it. `PyText.ParseShow` holds for every integer only under this idealisation. The count goes through `float()` and is not affected.
