# MapScrape decision rules in Dafny

MapScrape is a pair of Python scripts that drive a browser through a map-search
results page and collect venues. `MapScrape.py` saves venue names, and
`testdivextract.py` saves per-venue detail records. The browser work is
plain library calls. What is left are a few pure rules, and this project
models them with the page replaced by abstract inputs:

- **Scroll-until-stable** (`ScrollLoop`): each iteration observes a result count.
  The loop stops when the count reaches `max_results`. It also stops after
  three consecutive iterations whose count equals the previous one. Any change
  resets that streak. The page becomes a finite trace of observed counts.
  `StepRule` is one iteration and `Run` folds it over the trace.
  `ScrollResultsContainer` is the loop written statement by statement. Both are
  proved against `Describes`, which states the stopping point without loop
  state: the first iteration whose count meets the target, or that ends three
  unchanged iterations.
- **Selector fallback** (`VenueExtract`): a page is the list of names read from
  the cards of each selector, in priority order. The first selector with any
  card wins. Empty names are dropped and duplicates collapse.
- **Configuration** (`Config`, `Text`, `Decimal`, `PercentEncoding`): the
  search URL and maximum for each script.
  - The prompt's terms are split on whitespace and joined with `+`. Blank
    terms fall back to the default search.
  - The prompt's maximum falls back to 50 when blank or not an integer.
  - The command line's terms are also percent-encoded with `quote`: UTF-8
    octets are encoded per section 2.1 of RFC 3986. Unreserved characters
    (section 2.3) and `/` are kept.
- **Detail records** (`VenueDetails`): each of the five field reads is hidden,
  shown with a value, or raises. A raise keeps the fields read before it. A
  panel that never appears gives an empty record. `main` walks the cards of
  `all()[:max_results]` and keeps the non-empty records, in card order. A
  failing card does not affect the others.
- **Truncation** (`Slicing`): the saved list is cut with Python's slice
  `[:max_results]`.

The prompt and `--help` ask for a maximum number of results, and neither script
checks that it is positive. A negative maximum makes the slice count from the
end of the list. The members that model the scripts cut as written, with
`Slicing.PyPrefix`. Separately named corrected members clamp the bound at zero
(see Findings).

## Model

| member | source | states |
|---|---|---|
| `ScrollLoop.StepRule` | testdivextract.py:45-72 | Stops as target-reached exactly when the count meets the target, whatever the previous count. Stops as stalled exactly when a below-target count repeats the previous one and completes the third unchanged iteration. Otherwise it carries the current count forward as the previous count. An unchanged count grows the streak, a changed count resets it to 0, and the streak stays below three. |
| `ScrollLoop.RunFrom` | testdivextract.py:45-75 | A run scrolls at most once per observation. It ends by exhausting the trace exactly when every observation led to a scroll. |
| `ScrollLoop.Run` | MapScrape.py:47-84 | The loop from zero counters is described by `Describes`. It scrolls once for each iteration before the first stopping iteration. It stops there, reporting target-reached exactly when that count met the target. Otherwise it exhausts the trace. |
| `ScrollLoop.ScrollResultsContainer` | MapScrape.py:54-84 | The statement-by-statement loop satisfies the same description as `Run`. |
| `ScrollLoop.DescribesUnique` | MapScrape.py:54-84 | At most one outcome fits the description, so the loop and the fold agree. |
| `ScrollLoop.StreakWindow` | MapScrape.py:65-72 | The unchanged-iteration counter reaches n exactly when the last n iterations all saw the previous count. |
| `ScrollLoop.TargetMetInitially` | MapScrape.py:56-62 | A first count already at or above the target stops with zero scrolls. |
| `ScrollLoop.TargetBeatsStall` | testdivextract.py:50-63 | At the stopping iteration a count that meets the target is reported as target-reached, never as stalled. |
| `ScrollLoop.StalledMeansThreeUnchanged` | MapScrape.py:64-69 | A stalled stop happens only after at least two scrolls. It needs a below-target count, and that iteration and the two before it each saw the previous count. |
| `ScrollLoop.EmptyPageStallsAfterTwoScrolls` | MapScrape.py:50-67 | Because the previous count starts at 0, an empty first observation is already an unchanged iteration. Three empty observations stop after two scrolls. |
| `ScrollLoop.GrowingPageNeverStops` | MapScrape.py:54-84 | A count that changes at every iteration and stays below the target is never abandoned. The loop scrolls after every observation, because it has no iteration cap. |
| `ScrollLoop.PlateauScenario` | testdivextract.py:56-60 | A trace 8, 10, 12, 12, 12, 12, 12 against a target of 50 stops as stalled after five scrolls: the sixth count is the third unchanged iteration, and the seventh count is never read. |
| `ScrollLoop.GrowthScenario` | testdivextract.py:50-53 | A trace 1, 3, 5, 7 against a target of 5 stops as target-reached after two scrolls, at the third count. The fourth is never read. |
| `VenueExtract.FirstMatch` | MapScrape.py:95-101 | Picks the first selector that matches at least one card. Every earlier selector matched nothing. It picks none exactly when no selector matches. |
| `VenueExtract.DistinctNames` | MapScrape.py:98-102 | Holds exactly the non-empty names read, each once, and is no longer than the list of cards. |
| `VenueExtract.ExtractVenues` | MapScrape.py:86-102 | Holds no duplicates and no empty name. Its names are exactly the non-empty names on the cards of the first matching selector. It is empty when no selector matches. |
| `VenueExtract.LaterSelectorsIgnored` | MapScrape.py:95-101 | Replacing what the selectors after the first match find does not change the result. |
| `VenueExtract.DistinctLength` | MapScrape.py:102 | A duplicate-free list is as long as the set of its elements. |
| `VenueExtract.ExtractedCount` | MapScrape.py:56-57 | The count the loop compares is the number of distinct non-empty names on the chosen cards. |
| `VenueExtract.DuplicateCardsCollapse` | MapScrape.py:102 | Two cards with the same name yield exactly one entry. |
| `VenueExtract.SavedVenues` | MapScrape.py:125 | The saved list is a duplicate-free prefix of the extracted names without empty names. For max_results ≥ 0 it has min(max_results, number extracted) names. For a negative max_results it has max(0, number extracted + max_results) names. |
| `VenueExtract.NegativeMaxSavesNames` | MapScrape.py:125 | With max_results = -1, two distinct extracted names are saved as one, not as none. |
| `VenueExtract.SavedVenuesCorrected` | MapScrape.py:125 | The corrected cut: a duplicate-free prefix of exactly min(max(max_results, 0), number extracted) names. |
| `VenueExtract.SavedVenuesCorrectedAgrees` | MapScrape.py:125 | For max_results ≥ 0 the corrected cut saves the same list as the slice. |
| `VenueExtract.TargetReachedSavesExactlyMax` | MapScrape.py:124-125 | When the loop stops on the target, exactly max_results names are saved. |
| `VenueExtract.StalledSavesEverything` | MapScrape.py:124-125 | When the loop stalls, every extracted name is saved. |
| `Slicing.PyPrefix` | MapScrape.py:125 | Python's `s[:n]`: a prefix of length min(n, len) for n ≥ 0, and of length max(0, len + n) for negative n. |
| `Slicing.NegativeBoundKeepsItems` | testdivextract.py:139 | A bound of -1 cuts three items to two, which is more than the bound. |
| `Slicing.Truncate` | MapScrape.py:125 | The corrected truncation: a prefix of length min(max(n, 0), len). |
| `Slicing.TruncateIsSliceForNonNegative` | testdivextract.py:139 | For n ≥ 0 the corrected truncation equals Python's slice. |
| `Text.WordLength` | MapScrape.py:22 | The leading word runs up to the first whitespace character or the end. |
| `Text.Words` | MapScrape.py:22 | `split()` yields non-empty, whitespace-free words whose characters all come from the input. |
| `Text.Strip` | MapScrape.py:10 | `strip()` returns a slice of the input with only whitespace cut away before and after it. The result has no whitespace at either end, is empty exactly when the input is all whitespace, and splits to the same words. |
| `Text.TrimmedSlice` | MapScrape.py:10 | Cutting whitespace from the front and then from the back leaves a slice of the original whose cut-off ends are all whitespace. |
| `Text.JoinFieldsNonEmpty` | MapScrape.py:22 | Non-empty words that do not contain the separator join to text that neither starts nor ends with the separator and never holds it twice in a row. |
| `Text.NoWordsIffAllSpace` | MapScrape.py:19 | Terms split to no words exactly when they are all whitespace. |
| `Text.WordsOfJoin` | MapScrape.py:22 | Splitting words joined by a whitespace character gives the words back. |
| `Text.Join` | MapScrape.py:22 | The joined text starts with the first word and consists only of separator and word characters. |
| `Text.JoinNoSpace` | MapScrape.py:22 | Joining whitespace-free words with `+` leaves no whitespace. |
| `Text.ReplaceSeparator` | testdivextract.py:15 | Replacing the separator of a join of separator-free words gives the join with the new separator. |
| `Decimal.ParseInt` | MapScrape.py:14 | `int()` accepts exactly an optional sign followed by digits, with single underscores only between digits. The interpreter's digit-count limit is not modelled (see Left out). |
| `Decimal.ParseShow` | MapScrape.py:14 | Parsing the printed form of any integer returns that integer. |
| `Decimal.ParsePlusSign` | MapScrape.py:14 | A `+` sign before well-formed digits does not change the value. |
| `Decimal.ParseMinusSign` | MapScrape.py:14 | A `-` sign before well-formed digits negates their value. |
| `Decimal.ParseLeadingZero` | MapScrape.py:14 | A leading `0` before well-formed digits does not change the value, so "007" reads as 7. |
| `Decimal.ParseUnderscore` | testdivextract.py:11 | An underscore between two well-formed digit groups does not change the value, so "1_000" reads as 1000. With the three lemmas above and `ParseShow`, this fixes the value of every accepted text. |
| `PercentEncoding.Utf8Char` | testdivextract.py:16 | A character encodes to 1 to 4 octets. ASCII encodes to its own single octet, and every octet of a non-ASCII character is ≥ 128, so it is always percent-encoded. |
| `PercentEncoding.EncodeByte` | testdivextract.py:16 | Kept octets are written as themselves. Every other octet is written as "%" plus two hex digits. |
| `PercentEncoding.Quote` | testdivextract.py:16 | Output holds only unreserved characters, `/` and `%`. Decoding it gives back the UTF-8 octets of the input. |
| `PercentEncoding.DecodeEncoded` | testdivextract.py:16 | Percent-decoding undoes the encoding for every octet string. |
| `PercentEncoding.QuoteKeepsSafeText` | testdivextract.py:16 | Text made only of unreserved ASCII characters and `/` is left unchanged. |
| `PercentEncoding.QuoteConcat` | testdivextract.py:16 | Quoting a concatenation quotes each part. |
| `PercentEncoding.QuotePlus` | testdivextract.py:15-16 | The `+` joining the words is written `%2B`. |
| `Config.FormatTerms` | MapScrape.py:22 | The `+`-joined terms contain no whitespace, and are empty exactly when the terms have no words. When the terms hold no `+` of their own, no `+`-separated field is empty: the text does not start or end with `+` and never holds `++`. |
| `Config.FormatTermsRoundTrip` | testdivextract.py:15 | Reading each `+` as a space splits back to exactly the typed words, when the terms contain no `+`. |
| `Config.FormatTermsOfSpaced` | MapScrape.py:22 | Words typed with single spaces come out `+`-joined. |
| `Config.DefaultUrlIsDefaultQuery` | MapScrape.py:19-20 | The fixed default URL is the URL that the query "cute cafes amsterdam" produces. |
| `Config.PromptedUrl` | MapScrape.py:19-24 | The URL is the search prefix plus the `+`-joined words of the terms. When the terms have no words, the default query is used instead. |
| `Config.PromptedMaxResults` | MapScrape.py:12-17 | The maximum is the typed integer, or 50 when the answer is blank or not an integer. |
| `Config.PromptedMaxResultsRoundTrip` | MapScrape.py:14 | Any typed integer is used as typed, including zero and negatives. |
| `Config.InnerSpaceFallsBack` | MapScrape.py:12-17 | An answer with whitespace inside it, such as "1  2", is kept whole by `strip()`, rejected by `int()`, and gives 50. |
| `Config.CliUrl` | testdivextract.py:15-16 | The URL is the search prefix followed by URL-safe characters. Those characters decode to the UTF-8 of the `+`-joined words. |
| `Config.CliUrlBlankTerms` | testdivextract.py:15-16 | Blank command-line terms get no default: the URL is the bare prefix. |
| `Config.QuoteJoin` | testdivextract.py:15-16 | Quoting joined words equals joining the quoted words with the quoted separator. |
| `Config.CliUrlPlainWords` | testdivextract.py:15-16 | For words of unreserved characters, the URL holds the words separated by `%2B`. |
| `Config.CliMaxResults` | testdivextract.py:11-12 | An absent flag gives 50. A given value is used when it parses as an integer and is a usage error otherwise. |
| `Config.CliMaxResultsRoundTrip` | testdivextract.py:11-12 | Any integer given with the flag is used as given. |
| `VenueDetails.ExtractVenueDetails` | testdivextract.py:77-114 | A field is recorded exactly when it is visible and no earlier read raised, with the value read. A panel that never appears gives an empty record. |
| `VenueDetails.CollectFrom` | testdivextract.py:85-109 | Reading the remaining fields in order adds exactly the shown fields that are reached, and keeps those already collected. |
| `VenueDetails.RaiseKeepsEarlierFields` | testdivextract.py:111-114 | If the read at one position raises, the record is exactly the fields recorded before that position. Nothing is discarded. |
| `VenueDetails.JsonObject` | testdivextract.py:85-109 | The record's keys are among name, rating, address, website and phone, each carrying its field's value. |
| `VenueDetails.ProcessCards` | testdivextract.py:142-161 | At most one record per card, every record non-empty, and each one the details extracted from the panel of one of the opened cards. When every card opens with non-empty details, there is one record per card. |
| `VenueDetails.ProcessCardsSingle` | testdivextract.py:147-153 | One card adds its details exactly when it opened and they are non-empty, and adds nothing otherwise. |
| `VenueDetails.ProcessCardsAllKept` | testdivextract.py:142-153 | When every card opens with non-empty details, the i-th record is the i-th card's details. |
| `VenueDetails.ProcessCardsAppend` | testdivextract.py:142-161 | The records for two runs of cards are the records of each run, in order. Cards are processed independently. |
| `VenueDetails.FailedCardSkipped` | testdivextract.py:160-161 | A card whose click raises adds nothing and does not stop or change the later cards. |
| `VenueDetails.ScrapeDetails` | testdivextract.py:139-153 | The saved records are those of the first cards, as the slice walks them: appending the records of the unwalked remaining cards gives the records of all cards. All records are non-empty. For max_results ≥ 0 there are at most min(max_results, cards) of them. For a negative max_results there are at most max(0, cards + max_results). |
| `VenueDetails.ScrapeDetailsAllKept` | testdivextract.py:139-153 | When every card opens with details, there is one record per walked card: min(max_results, cards) records, or max(0, cards + max_results) for a negative max_results. |
| `VenueDetails.NegativeMaxWalksCards` | testdivextract.py:139 | With max_results = -1, three cards that open with details give two records, not none. |
| `VenueDetails.ScrapeDetailsCorrected` | testdivextract.py:139-153 | The corrected cut walks the first min(max(max_results, 0), cards) cards: appending the records of the remaining cards gives the records of all cards. It saves at most max(max_results, 0) non-empty records, and no more than there are cards. |
| `VenueDetails.ScrapeDetailsCorrectedAllKept` | testdivextract.py:139-153 | With the corrected cut, cards that all open with details give exactly min(max(max_results, 0), cards) records. |
| `VenueDetails.TargetReachedWalksExactlyMax` | testdivextract.py:136-139 | When the loop stops on the target, exactly max_results cards are walked. |

## Left out

- Browser work is not modelled: launch, navigation, locators, `wait_for_selector`, clicks, `evaluate`, `inner_text` and closing. Its observations are inputs instead: count traces, per-selector name lists, and per-field read outcomes.
- The 60-second navigation and 20-second first-results waits are not modelled. When either times out, the run ends with no output file; the model starts after they succeed.
- `handle_cookies` is left out: it is a three-attempt UI poll with no effect on the data.
- `simulate_human_movement`, the random pauses and the random scroll fraction (0.85 to 0.95) are left out. They are randomness and floating point with no effect on any decision.
- Writing the JSON files and all printing are left out (I/O).
- ScrollLoop.RunFrom: its own contract gives only bounds. The full description of a run is stated on `Run`, which calls it from the initial state.
- ScrollLoop.Run: the source loop has no iteration cap. A finite trace stands in for the page, and a trace that runs out is reported as `TraceExhausted`, a stop reason the scripts do not have.
- VenueExtract.ExtractVenues: the order of the list is not promised. Python's `list(set(...))` order is unspecified; the model keeps first occurrences.
- VenueExtract.ExtractVenues: reading a card's name is assumed to succeed. In the source a missing name element makes `inner_text` time out and raise, which aborts the whole run.
- VenueExtract.TargetReachedSavesExactlyMax: the names saved are taken from the snapshot at which the loop stopped. The source extracts them once more after the loop, and the page is assumed unchanged in between.
- VenueExtract.StalledSavesEverything: it rests on the same assumption, that the page does not change between the loop's last snapshot and the final extraction.
- Decimal.ParseInt: only ASCII digits are accepted. Python's `int()` also accepts other Unicode decimal digits.
- Decimal.ParseInt: the interpreter's limit on the number of decimal digits `int()` converts is not modelled. From CPython 3.11, and in patch releases of 3.7 to 3.10, that default limit is 4300 digits. A longer answer is accepted by the model, but is a ValueError in the source: the prompt falls back to 50 and `--max_results` is a usage error. `Config.PromptedMaxResultsRoundTrip` and `Config.CliMaxResultsRoundTrip` likewise hold only for integers within that limit. The scripts name no interpreter version.
- Config.CliUrl: always returns a URL. On POSIX, command-line bytes that are not valid UTF-8 reach the script as lone surrogates. `quote` then raises `UnicodeEncodeError` before `main`'s `try`, and the script ends with a traceback. Model text cannot hold lone surrogates, so this error is not modelled.
- Config.CliMaxResults: argparse's own tokenising is not modelled. That covers values that look like options, a missing positional argument, and `--help`.
- VenueDetails.ExtractVenueDetails: any field's value may be absent. In the source only the website `href` can be missing.
- The side panel's timeouts (2 s for the panel, 0.5 s per field) are abstracted into the hidden / shown / raises outcomes. Stale panel contents are not modelled.

## Findings

| source | as written | input that shows it | evidently intended | confidence | as-written member | corrected member |
|---|---|---|---|---|---|---|
| MapScrape.py:125 | The extracted names are cut with a Python slice up to `max_results`. A negative bound counts from the end. | Typing -1 at the maximum prompt: the scroll loop stops at once (every count is ≥ -1), and two extracted names are saved as one. | At most max(max_results, 0) names are saved. | low; not executed | `VenueExtract.NegativeMaxSavesNames` | `VenueExtract.SavedVenuesCorrected` |
| testdivextract.py:139 | The venue cards are cut with the same slice. | `--max_results -1` with three cards on the page walks two cards instead of none. | At most max(max_results, 0) cards are walked. | low; not executed | `VenueDetails.NegativeMaxWalksCards` | `VenueDetails.ScrapeDetailsCorrected` |
