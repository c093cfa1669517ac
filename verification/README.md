# Amazon product scraper — Dafny model of the scrape-and-score core

The application looks up products on the Brazilian Amazon storefront. It
extracts one record per product from two pages of search results. For a
product the user selects, it gathers review texts per star rating and
charts one mean sentiment score per rating. All of its own logic sits in
three functions of `app.py`. This project models them with the I/O
abstracted away:

- **`scrape_products`** (`products.dfy`, helpers in `text.dfy` and
  `numbers.dfy`).
  - The search phrase is normalised into the query.
  - Result pages 1 and 2 are walked in order.
  - Each candidate product node is either dropped, for a reason, or written
    into a catalogue keyed by product id, so a later node overwrites an
    earlier one with the same id.
  - A node is a record of optional lookups: badge, link, name, image,
    price, rating text and vote text.
  - The HTTP fetch is a parameter `Fetcher` that returns a page of nodes,
    or `None` for a transport failure.
  - Python's `float()` on the rating prefix is a parameter `FloatParser`.
  - The id regex `(?<=dp/)[^/]+`, `str.strip` and `str.replace` are
    modelled exactly.
  - `int()` is modelled for base 10. It skips the whitespace CPython skips,
    which is narrower than `str.strip`'s. It takes one optional sign and
    digit groups joined by single underscores. It refuses literals of more
    than 4300 digits, CPython's default `sys.int_max_str_digits`. Non-ASCII
    digits are left out (see below).
- **`scrape_reviews_async`** (`reviews.dfy`).
  - Review pages 1..3 are visited for each of the five star filters, with
    an early stop at the first page that has no review bodies.
  - The browser is a parameter `Browser` mapping (product id, star, page)
    to the raw review-body texts.
  - The pages visited are returned as a request trace. The trace stands
    for the `driver.get` calls and their log lines.
- **`perform_sentiment_analysis`** (`sentiment.dfy`).
  - Each bucket scores the mean polarity of its texts, or 0 when empty.
  - The polarity scorer is a parameter `Polarity`, and scores are `real`.
- `pipeline.dfy` composes the review harvest with the scoring. This is what
  the page does once a product is selected.

Two behaviours of the code differ from what a reader might expect, and the
model follows the code:

- A node whose badge span is missing is dropped, not just a sponsored one.
  `None.text` raises inside the `try`, so such a node is skipped too.
- A failed search fetch aborts the whole search. It does not count as a page
  with no results. `requests.get` sits outside the `try`, so its exception
  propagates, and `ScrapeProducts` returns `None` in that case.

## Model

| member | source | states |
|---|---|---|
| Products.NormaliseQuery | app.py:39 | The query is the stripped phrase, character for character, except that each space becomes `+`. It contains no space and has no whitespace at either end. |
| Text.TrimUnique | app.py:39 | Trimming is characterised by the trimming property alone: any slice that has only blanks outside it and no blank at its ends is the trimmed string. With `IsSpace`, Python's `str.isspace` set, this is `strip()`. |
| Products.ExtractId | app.py:55-61 | No id is found exactly when no position is preceded by `dp/` and followed by a non-`/` character. A found id is non-empty and contains no `/`. |
| Products.ExtractIdLeftmost | app.py:56-59 | The id is the maximal non-`/` run at the leftmost position preceded by `dp/`, as `re.search` returns it. |
| Products.ExtractIdExample | app.py:56-59 | For the detail path `/dp/B0ABC12345/`, the id is `B0ABC12345`. |
| Products.RatingKey | app.py:67 | The text passed to `float()` is the first three characters of the rating text, or all of it when shorter. Each `,` among them becomes `.`, and every other character is kept. |
| Products.RatingKeyExample | app.py:67 | The rating text `4,5 de 5 estrelas` becomes `4.5`. |
| Numbers.ParseIntGrammar | app.py:68 | After skipping `int()`'s whitespace, the parse succeeds exactly when the rest is digit groups with an optional `+` or `-`, and has at most 4300 digits. Digit groups are digits with single underscores between them. The value is the digits' decimal value, negated after `-`. |
| Numbers.ParseIntAccepts | app.py:68 | `int(" +1_000\n")` is 1000: a sign, an underscore between digits and surrounding whitespace are all accepted. |
| Numbers.ParseIntRejects | app.py:68 | `int()` refuses `1_`, `1__0`, a lone `+`, and a literal preceded by U+001C. `str.isspace` counts U+001C, but `int()` does not skip it. |
| Numbers.ParseShowInt | app.py:68 | `int(str(i)) == i` for every integer, negative ones included, whose rendering has at most 4300 digits. Longer renderings are refused. |
| Numbers.GroupedDigits | app.py:68 | Deleting the dots of a number printed with dotted thousands groups leaves a digit string whose value is that number. |
| Products.VotesRoundTrip | app.py:68 | A vote count printed as `1.234` reads back as the count, unless it has more than 4300 digits. |
| Products.ClassifyAllOrNothing | app.py:50-72 | A node is kept exactly when all of these hold: its badge is present and is not `Patrocinado`, it has a link with an id, and name, image, price, rating and votes are all present and parse. A kept entry's fields are exactly the node's parsed fields. |
| Products.ClassifyBadge | app.py:51-52 | A node is dropped for a missing badge exactly when the badge lookup fails. It is dropped as sponsored exactly when the badge reads `Patrocinado`. |
| Products.Apply | app.py:63-72 | A kept node sets the entry under its id. Every other key, and every key when the node is dropped, is left unchanged. |
| Products.FoldLastWriterWins | app.py:49-72 | After a walk, the entry under each key comes from the last outcome that wrote that key. If nothing wrote it, the starting entry is kept. |
| Products.ScanLastWriterWins | app.py:41-72 | The same over nodes: the last node whose outcome writes an id supplies that id's entry. |
| Products.ScanEntriesWellFormed | app.py:55-69 | Every key in a catalogue built from empty is a non-empty id without `/`, written by a node that passed every check. |
| Products.SponsoredOnlyIsEmpty | app.py:51-52 | Pages holding only sponsored listings yield an empty catalogue. |
| Products.ScanAppend | app.py:41-49 | Walking page 1 and then page 2 is the same as walking their concatenation. |
| Products.WalkPage | app.py:49-72 | The per-node loop leaves the catalogue that the reference walk defines. |
| Products.ScrapeProducts | app.py:38-74 | The result exists exactly when both page fetches succeed. Each entry is the one written by the last successful node for its id across pages 1 and 2. Every key is a well-formed id. |
| Reviews.StopFrom | app.py:87-99 | The page walk stops at a page `k` in 1..3 such that all earlier pages had reviews, and page `k` is empty unless it is page 3. |
| Reviews.HarvestBucket | app.py:86-104 | The loop for one star requests pages 1..k in order and stops right after the first empty page. The bucket is the stripped texts of those pages, in page order. |
| Reviews.GatherPrefix | app.py:101-102 | Texts are only appended in page order: the texts of fewer pages are a prefix of those of more pages. |
| Reviews.GatherLength | app.py:101-102 | A bucket holds exactly as many texts as there were review elements on the pages requested. |
| Reviews.ScheduleRequestsReachedPages | app.py:85-99 | For each star, page `p` is requested exactly when `p` is in 1..3 and every earlier page had reviews. After an empty page, nothing more is requested for that star. |
| Reviews.ScrapeReviews | app.py:76-107 | The result has exactly the five star labels as keys. Each bucket holds the stripped texts of its requested pages. The request trace visits the stars in order. |
| Sentiment.Mean | app.py:112-118 | An empty bucket scores exactly 0. Otherwise the score times the review count is the sum of the polarities. |
| Sentiment.BucketScore | app.py:112-118 | The running sum and count of the loop give the mean polarity, or 0 for no reviews. |
| Sentiment.SentimentScores | app.py:109-119 | The scores have the same keys as the buckets. Empty buckets score 0, and other buckets score sum divided by count. |
| Sentiment.MeanBounds | app.py:114-118 | If every polarity lies in `[lo, hi]` and that range contains 0, the mean does too. |
| Sentiment.MeanSign | app.py:114-118 | A bucket of all-positive reviews scores positive, and one of all-negative reviews scores negative. |
| Pipeline.ReviewScores | app.py:143-148 | The charted scores have exactly the five star labels. Each label's score is the mean polarity of the reviews harvested for that star, and an empty bucket scores 0. With a scorer whose range is `[-1, 1]`, every score lies in `[-1, 1]`. |

## Left out

- `main` and all Streamlit code are not modelled. This covers session
  state, buttons, columns, expanders, CSS, `st.write` logging and the
  `st.cache` memoisation of searches. It is UI and framework re-run
  behaviour, not logic of the core.
- Building the search and review URLs and the HTTP headers is not
  modelled. The fetch and the browser take the URL's parameters directly:
  query and page, or product id, star and page.
- BeautifulSoup selector lookups are not modelled. Each lookup is an
  optional field of a node. A missing anchor and a missing `href`
  attribute are the same `NoLink` outcome.
- The Selenium driver's start, `time.sleep(2)` and `quit` are not
  modelled. Neither is a failure to start the browser. All of these are
  browser I/O.
- The `threading.Thread` start and join, and the `results` dictionary
  they fill, are not modelled. The thread exists only for isolation, and
  the call is modelled as synchronous.
- The `float()` rating parse is not modelled. It is the parameter
  `FloatParser`, because floating-point parsing is out of scope.
- TextBlob polarity is not modelled. It is the parameter `Polarity`, and
  its range is not assumed: the bounds lemmas take it as a hypothesis.
- Sentiment.Mean: uses exact `real` arithmetic, not Python floats, so
  rounding in the sum and the division is not modelled.
- Numbers.ParseIntGrammar, Numbers.ParseInt: accepts only ASCII digits.
  Python's `int()` also accepts other Unicode decimal digits, which the
  storefront does not print in vote counts. The 4300-digit limit is CPython's
  default since 3.11; the model does not follow a changed
  `sys.int_max_str_digits` or an older interpreter without the limit.
- Numbers.ShowInt: renders integers of any size. Python's `str()` itself
  raises beyond 4300 digits; `ParseShowInt` reports that case as a refused
  parse instead.
- Pipeline.ReviewScores: assumes the review harvest completes. In the
  application, an exception inside `scrape_reviews_async` ends the worker
  thread before `results` is filled, for example when `driver.get` raises
  (app.py:91). `main` then scores `results.get(..., {})`, an empty map, and
  charts no bars (app.py:147-148). The model has no such failure path:
  `Browser` is total.
- The `print` of a caught exception while scraping a product (app.py:71)
  is not modelled. The `Skip` reason of a dropped node stands in for the
  printed cause.
- Insertion order of Python dictionaries is not modelled. Catalogues and
  buckets are maps, and the chart's row order is not modelled.
- `scraper.py` is not modelled. It is a one-shot script with no reusable
  logic.
