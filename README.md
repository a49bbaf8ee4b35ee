# Gmail-Scraper: a verified model of the scraping core

`gmail-scraper.py` asks for a base URL and fetches 50 result pages concurrently.
It requests page `p` at `base_url + "&first=" + str(p)`, with a User-Agent taken
in rotation from a list of three. It pulls address-shaped substrings out of each
page's visible text with
`set(re.findall(r'[a-zA-Z0-9._%+-]+@[a-zA-Z0-9.-]+\.[a-zA-Z]{2,6}', text))`.
It merges the per-page sets into one set and prints the set sorted.

This project models that core in Dafny and proves what it does:

- `EmailPattern` (pattern.dfy) states declaratively when the pattern matches a
  slice of a text. The character classes are ASCII ranges.
- `Extractor` (extractor.dfy) is a scanner that follows the regular-expression
  engine's choices at one start position:
  - the local part is the maximal run of local characters and must be followed by `@`;
  - the domain is greedy and backs up to its last dot that two letters follow;
  - the final letters are greedy, at most six.

  It then repeats this as `re.findall` does: it tries each position in turn and,
  after a match, resumes at that match's end. The scanner is proved to find, at
  each start, exactly the longest match there. The list of matches is proved to
  be the unique solution of a declarative definition of findall (leftmost start,
  no overlap, longest at each start). Every extracted string is proved to be an
  address `L@D.T` taken from the text, and there are at most as many addresses as
  `@` characters.
- `Requests` (requests.dfy) builds the request URL and picks the User-Agent.
  The decimal page number in the URL is proved to read back as the page, and
  distinct pages are proved to get distinct URLs. The User-Agent index is always
  in bounds, the rotation has period three, and consecutive pages get different
  agents.
- `Ordering` (ordering.dfy) defines Python's `<` on strings (lexicographic by
  code point) and proves it a strict total order. A method builds the sorted list
  of a set, and that list is proved to be the only strictly increasing sequence
  with those members.
- `Scraper` (scraper.dfy) holds the drivers:
  - `ScrapeEmails` loops over pages 0..49 and merges each page's set into an
    accumulator set;
  - `RunScraper` sorts the accumulated set;
  - `RunFromInput` models `main` after the URL is read: an empty URL is an input
    error and sends nothing.

  Merging is shown to be idempotent and to depend only on which page sets are
  merged. So any order in which the concurrent page tasks finish gives the same
  result. A failed page contributes nothing and does not stop the other pages.

The network response is a parameter `fetch: PageRequest -> FetchOutcome`. It
maps each request (URL and User-Agent) to the page's visible text or to an
`aiohttp.ClientError`. The text in `Body` is the text after HTML-to-text conversion.

## Model

| member | source | states |
|---|---|---|
| `EmailPattern.MatchedSliceIsAddress` | gmail-scraper.py:21 | a match inside a text is a slice of at least six characters that is itself of the form L@D.T |
| `Extractor.LocalRunEnd` | gmail-scraper.py:21 | the local part `[a-zA-Z0-9._%+-]+` taken greedily: every character up to the result is a local character and the next one is not |
| `Extractor.DomainRunEnd` | gmail-scraper.py:21 | the domain part `[a-zA-Z0-9.-]+` taken greedily: a maximal run of domain characters |
| `Extractor.LetterRunEnd` | gmail-scraper.py:21 | `[a-zA-Z]{2,6}` taken greedily: letters up to the limit, stopping at the first non-letter |
| `Extractor.LastTldDot` | gmail-scraper.py:21 | the backtracking of the greedy domain: the last dot in range that two letters follow, and no later one; none if there is no such dot |
| `Extractor.MatchEnd` | gmail-scraper.py:21 | a match the engine takes from position i is at least six characters long and ends inside the text |
| `Extractor.SplitIsForced` | gmail-scraper.py:21 | in any match from i, the `@` stands where the maximal local run ends, and the final dot lies inside the maximal domain run with two letters after it |
| `Extractor.MatchEndSound` | gmail-scraper.py:21 | what the scanner returns from i is a match of the pattern |
| `Extractor.MatchEndComplete` | gmail-scraper.py:21 | every match from i is found, and none is longer than what the scanner returns |
| `Extractor.MatchEndIsLongest` | gmail-scraper.py:21 | the scanner returns a match exactly when one exists from i, and it returns the longest one |
| `Extractor.MatchesFrom` | gmail-scraper.py:21 | findall's spans are inside the text, each at least six characters long, in increasing order and non-overlapping |
| `Extractor.MatchesFromIsFindAll` | gmail-scraper.py:21 | each span is the longest match at the leftmost start at or after the previous span's end; nothing matches after the last span |
| `Extractor.FindAllEmpty` | gmail-scraper.py:21 | findall reports nothing exactly when no match starts at or after the scan position |
| `Extractor.FindAllUnique` | gmail-scraper.py:21 | the leftmost-longest, non-overlapping definition of findall has exactly one solution |
| `Extractor.MatchInside` | gmail-scraper.py:21 | a match starts inside the text and before its own end |
| `Extractor.SpanTextsMembers` | gmail-scraper.py:21 | `set(...)` of the found strings holds exactly the text of some span |
| `Extractor.SpanTextsCard` | gmail-scraper.py:21 | `set(...)` of the found strings has at most as many members as the list has spans |
| `Extractor.SpansMatch` | gmail-scraper.py:21 | every span findall reports is a match of the pattern |
| `Extractor.ExtractSound` | gmail-scraper.py:21 | every extracted string has the form L@D.T and is a contiguous slice of the text that the pattern matches |
| `Extractor.LeftmostLongestIsExtracted` | gmail-scraper.py:21 | the longest match at the first position where any match starts is among the extracted strings |
| `Extractor.AtCountAntitone` | gmail-scraper.py:21 | a suffix of the text has no more `@` characters than the text |
| `Extractor.AtCountDrops` | gmail-scraper.py:21 | skipping past an `@` lowers the `@` count by at least one |
| `Extractor.MatchesAtMostAts` | gmail-scraper.py:21 | findall returns at most as many matches as the text has `@` characters |
| `Extractor.ExtractAtMostAts` | gmail-scraper.py:21 | the extracted set has at most as many members as the text has `@` characters |
| `Extractor.NoAtCountsZero` | gmail-scraper.py:21 | a text without `@` has an `@` count of zero |
| `Extractor.NoAtNoEmails` | gmail-scraper.py:21 | a text with no `@` yields the empty set |
| `Extractor.TldCutAtSix` | gmail-scraper.py:21 | the final letters are cut at six: `a@b.abcdefgh` yields exactly `{a@b.abcdef}` |
| `Requests.Decimal` | gmail-scraper.py:33 | `str(page)` is a non-empty digit string with no leading zero, one digit long exactly for pages below ten |
| `Requests.DecimalRoundTrip` | gmail-scraper.py:33 | the digits of `str(n)` denote n |
| `Requests.DecimalInjective` | gmail-scraper.py:33 | different page numbers have different decimal forms |
| `Requests.PageUrlParts` | gmail-scraper.py:33 | the page URL is the base URL, then `&first=`, then digits that denote the page |
| `Requests.PageUrlInjective` | gmail-scraper.py:33 | distinct pages of one base URL are requested at distinct URLs |
| `Requests.UserAgentFor` | gmail-scraper.py:34 | `USER_AGENTS[page % len(USER_AGENTS)]` is always one of the three listed strings: the index is in bounds |
| `Requests.UserAgentPeriodic` | gmail-scraper.py:34 | pages p and p + 3 are sent with the same User-Agent |
| `Requests.UserAgentChangesEachPage` | gmail-scraper.py:7-11 | the three agents differ, so consecutive pages are sent with different User-Agents |
| `Ordering.StrLessIrreflexive` | gmail-scraper.py:55 | no string sorts before itself |
| `Ordering.StrLessTransitive` | gmail-scraper.py:55 | the string order of `sorted` is transitive |
| `Ordering.StrLessTotal` | gmail-scraper.py:55 | any two different strings are ordered one way or the other |
| `Ordering.LeastExists` | gmail-scraper.py:55 | a non-empty set of strings has a least member |
| `Ordering.SortedList` | gmail-scraper.py:55 | `sorted(emails)` is strictly increasing, has exactly the members of the set and one entry per member |
| `Ordering.HeadBelowTail` | gmail-scraper.py:55 | in a strictly increasing list the first entry does not recur and the rest is strictly increasing |
| `Ordering.SortedUnique` | gmail-scraper.py:55 | two strictly increasing lists with the same members are equal, so the sorted result is determined by the set |
| `Scraper.PageEmailsAreAddresses` | gmail-scraper.py:13-25 | a page yields only addresses, and only when its fetch succeeded; a `ClientError` yields the empty set |
| `Scraper.MergeIdempotent` | gmail-scraper.py:38 | merging the same set twice gives the same accumulator as merging it once |
| `Scraper.MergeAllMembers` | gmail-scraper.py:37-38 | after merging, the accumulator holds exactly its initial members and the members of some merged set |
| `Scraper.MergeAllOrderIndependent` | gmail-scraper.py:45-46 | the accumulator depends only on which sets are merged, not on their order or repetition |
| `Scraper.ScrapedMembers` | gmail-scraper.py:27-48 | the accumulated set holds an address exactly when one of pages 0 .. 49 yields it |
| `Scraper.CompletionOrderIrrelevant` | gmail-scraper.py:44-46 | the page tasks finishing in any order in which every page 0 .. 49 finishes gives the same accumulator |
| `Scraper.MergeAllDropEmpty` | gmail-scraper.py:37-38 | leaving out a merge of the empty set changes nothing |
| `Scraper.FailedPageSkipped` | gmail-scraper.py:23-25 | with a failed page, the scrape equals what all the other pages accumulate without it |
| `Scraper.NoAtNowhereNoEmails` | gmail-scraper.py:21 | if no fetched page has an `@` in its text, the scrape finds nothing |
| `Scraper.ScrapeEmails` | gmail-scraper.py:27-48 | requests pages 0 .. 49 in order, each with its derived URL and User-Agent, and returns the union of the per-page sets |
| `Scraper.RunScraper` | gmail-scraper.py:50-55 | returns the scraped addresses strictly increasing, one entry per address, having sent the requests for pages 0 .. 49 |
| `Scraper.RunFromInput` | gmail-scraper.py:57-69 | input error exactly for an empty URL, with nothing sent; otherwise all 50 pages requested, then "no emails found" exactly when the scrape is empty, else the non-empty sorted addresses |

## Left out

- HTTP transport (`aiohttp.ClientSession`, `session.get`, `raise_for_status`, `response.text()`): it is foreign network I/O. The model represents it as the parameter `fetch`, which maps a request to either the text of the page or a `ClientError`.
- HTML-to-text conversion (`BeautifulSoup(html, 'html.parser').get_text()`): it is a foreign library. `Body` carries the text after conversion, and the extractor works on that text.
- Concurrency: `asyncio.Semaphore(10)`, `gather`, `sleep(0.1)` and the event loop are left out. The code takes the 0.1 s sleep inside `async with semaphore` (gmail-scraper.py:35-42), so a page keeps its permit while it sleeps; it is not a pause after the permit is released. The bound of ten fetches in flight is a concurrency property, which a sequential model cannot state. The fan-out is replaced by a loop over the pages in order. `CompletionOrderIrrelevant` proves that any finishing order gives the same set.
- Console I/O: the `input` prompt and every `print` carry no data. `RunFromInput` takes the line already read, and its `Report` says which of the final messages `main` prints.
- Exceptions that are not an `aiohttp.ClientError`, for example a decoding error in `response.text()`: they would escape `gather`, and what happens then is defined by the asyncio library.
- `ScrapeEmails`, `RunScraper`, `RunFromInput`: the `sent` list records the requests in the order this sequential model issues them. The program itself fixes no order between pages.
- `Scraper.FetchOutcome`: the `fetch` parameter is a function, so a repeated request would get the same answer. The program sends each request only once, so this is not a restriction.
