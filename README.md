# Protocol replica: a Dafny model

This project models the logic of a small system that keeps a local SQLite
replica of a municipal protocol registry. Entries are identified by
`year/number` and are fetched one at a time from a slow web form. It also
models the two programs that read and post-process the replica.

- **The sync engine** (enhanced_protocol_scraper.py):
  - finds the current year's last protocol number by binary search over a yes/no existence check;
  - plans the work set: new numbers plus open rows whose latest recorded date (`Last_update`, the latest date found in the page text, or the fetch day when it has none) is within the last 60 days;
  - classifies every fetch (content, archived flag, latest `dd/mm/yyyy` date rewritten as `yyyy-mm-dd`);
  - writes the rows;
  - writes the `Update.txt` delta report of keyword matches;
  - computes the gap analysis (`analyze`).
- **The read side** (app.py):
  - the keyword highlighter;
  - pid formatting and parsing;
  - the row loop and the totals of `/api/protocols`;
  - the `/exportar` file;
  - the keyword list.
- **The archival pass** (archive_protocols.py): marks rows archived whose normalised content contains the rule phrase.

Layout, one module per file:

| module | holds |
|---|---|
| `Text` | substrings, Python string order, concatenation and joining, `split`, sorting, filter-map |
| `Unicode` | the Unicode character database as a value with uninterpreted fields, `remover_acentos`, `lower`, `strip`, `isalnum` |
| `Wrappers` | `Option` |
| `Decimal` | decimal numerals |
| `Dates` | calendar dates and `find_and_format_dates` |
| `Pids` | `int()`, `zfill`, pid formatting and parsing |
| `Keywords` | family expansion and keyword matching |
| `Store` | the `protocols` table as a class over a map |
| `Frontier` | the binary search |
| `Scraper` | fetch classification, planning, ingestion, report, gaps, the whole `scrape` run |
| `App` | the read side |
| `Archive` | the archival pass |

What the model does not interpret:
- **Unicode tables.** The decomposition tables, general categories, combining classes, case mapping and the alphanumeric and space classes are the fields of a `UnicodeDb` value. Every result holds for every such value, or for every value with the property a lemma names. These fields map one code point at a time: case mapping and decomposition here do not look at neighbouring characters, while Python's `str.lower` and `unicodedata.normalize` do in places (see "## Left out").
- **Browser and registry.** A fetch is a function parameter `fetch: (int, int) -> FetchAttempt`, and the existence check is `oracle: (int, int) -> bool`.
- **Clock.** Today's date and the report timestamp are parameters.

## Model

| member | source | states |
|---|---|---|
| Unicode.RemoverAcentos | enhanced_protocol_scraper.py:22-25 | the result holds no character of category Mn, and "" gives "" |
| Unicode.RemoverAcentosKeepsUnmarked | enhanced_protocol_scraper.py:22-25 | exactly the Mn code points of the NFD form are dropped: every other code point of it is kept, as often as it occurs there |
| Unicode.RemoverAcentosKeepsPlain | enhanced_protocol_scraper.py:22-25 | text of code points that decompose to themselves and are not marks comes back unchanged |
| Unicode.FoldAppend | enhanced_protocol_scraper.py:45 | `remover_acentos(x).lower()` commutes with concatenation, so folding a block folds each piece of it |
| Unicode.Strip | app.py:71 | `strip()` neither starts nor ends with white space and is a piece of its input (`Unicode.StripRemovesOnlySpace` adds that only white space is removed) |
| Unicode.StripRemovesOnlySpace | app.py:71 | `strip()` takes off white space only: what lies before and after the result in the input is all white space |
| Unicode.StripEmptyIffAllSpace | app.py:71 | `k.strip()` is empty exactly when every character of `k` is white space |
| Keywords.BuildFamilyMap | enhanced_protocol_scraper.py:28-31 | the two loops build exactly `FamilyMap`, in which a later family overwrites an earlier one's entries |
| Keywords.GetListaNormalizada | enhanced_protocol_scraper.py:27-40 | the loops compute exactly the expanded keyword set |
| Keywords.FamilyMapDomain | enhanced_protocol_scraper.py:29-31 | a folded string is a family entry exactly when it is the folded form of some family's variant |
| Keywords.FamilyMapLookup | enhanced_protocol_scraper.py:29-31 | the entry is the folded family of the last family listing the string |
| Keywords.EntryInOwnFamily | enhanced_protocol_scraper.py:31 | a family entry belongs to the family it maps to |
| Keywords.ExpandedKeywordsMembership | enhanced_protocol_scraper.py:33-39 | a keyword is in the list exactly when some name contributes it: its whole family if its folded form is a family entry, else the folded form itself |
| Keywords.NameAndFamilyIncluded | enhanced_protocol_scraper.py:34-39 | every name's folded form is in the list, and so is its whole family |
| Keywords.ExpandedKeywordOrigin | enhanced_protocol_scraper.py:33-39 | a keyword that is no name's folded form is in the family of one of the names |
| Keywords.EmptyBlockNeverMatches | enhanced_protocol_scraper.py:43-44 | the empty block matches nothing, not even the empty keyword |
| Keywords.NoNamesMatchNothing | enhanced_protocol_scraper.py:33-40 | with no names the list is empty and no block matches |
| Keywords.MentionMatches | enhanced_protocol_scraper.py:42-46 | a block containing a piece whose folded form is a keyword matches, whatever surrounds the piece |
| Keywords.MentionOfNameMatches | enhanced_protocol_scraper.py:42-46 | a block mentioning any configured name matches the expanded list |
| Dates.DateMatches | enhanced_protocol_scraper.py:53-54 | every match has the `dd/mm/yyyy` shape and occurs in the content |
| Dates.DateMatchesFirst | enhanced_protocol_scraper.py:53-54 | `findall` takes the leftmost date-shaped piece first and resumes scanning right after it |
| Dates.DateMatchesNone | enhanced_protocol_scraper.py:53-54 | content with no date-shaped piece anywhere has no match |
| Dates.ParseDate | enhanced_protocol_scraper.py:62 | `strptime` succeeds only on valid calendar dates (leap years included) |
| Dates.DateText | enhanced_protocol_scraper.py:53 | a valid date written `dd/mm/yyyy` has the shape the date pattern matches |
| Dates.ParseDateAccepts | enhanced_protocol_scraper.py:62 | `strptime` accepts every valid calendar date written `dd/mm/yyyy` and gives that date back |
| Dates.ParseDateExact | enhanced_protocol_scraper.py:62 | a match that parses is exactly the zero-padded text of the valid date it gives |
| Dates.ParseDateIsDateText | enhanced_protocol_scraper.py:62 | `strptime` gives `d` exactly when `d` is a valid date and the match is its `dd/mm/yyyy` text |
| Dates.LatestOfIsLatest | enhanced_protocol_scraper.py:59-66 | no date exactly when no match parses; otherwise the result is some parsed match and no parsed match is later |
| Dates.FormatDate | enhanced_protocol_scraper.py:69 | `yyyy-mm-dd` has 10 characters with dashes at positions 4 and 7 |
| Dates.FindAndFormatDates | enhanced_protocol_scraper.py:48-71 | the loop computes the latest valid date; None exactly when no match is a valid date; a result has 10 characters |
| Dates.LatestDateStringSpec | enhanced_protocol_scraper.py:48-71 | None for empty content; otherwise the formatted latest valid match and every other valid match is no later |
| Dates.DaysBefore | enhanced_protocol_scraper.py:139 | `now - timedelta(days)` is a valid date exactly `days` days earlier |
| Dates.DateLessIsOrdinalLess | enhanced_protocol_scraper.py:63 | comparing dates is comparing their day numbers |
| Dates.FormatDateOrder | enhanced_protocol_scraper.py:139-141 | for 4-digit years, comparing `yyyy-mm-dd` strings as TEXT is chronological order, and the format is injective |
| Pids.IntToString | app.py:162 | `str(i)` is an optional minus sign followed by decimal digits |
| Pids.ZFill | app.py:168 | `zfill(w)` has length max(len, w) and keeps strings already that long |
| Pids.FormatPid | app.py:162 | the pid contains a '/' |
| Pids.ParseInt | app.py:64 | `int()` never accepts a blank string |
| Pids.ParseIntToString | app.py:64 | `int(str(i)) == i` |
| Pids.ParseZFilled | app.py:64 | `int(str(i).zfill(w)) == i`, negative numbers included |
| Pids.ParseFormatPid | app.py:58-68 | splitting a formatted pid on '/' and parsing both parts gives back `(year, number)` |
| Pids.ParsePidNeedsOneSlash | app.py:60-68 | a pid without exactly one '/' parses to None |
| Pids.PidOrder | app.py:215 | for 4-digit years and numbers below 100000, sorting pids as strings is sorting by (year, number) |
| Store.ProtocolStore.constructor | enhanced_protocol_scraper.py:119-131 | a fresh table is empty |
| Store.ProtocolStore.GetExistingProtocols | enhanced_protocol_scraper.py:134-136 | exactly the numbers stored for the year |
| Store.ProtocolStore.GetProtocolsToUpdate | enhanced_protocol_scraper.py:138-144 | exactly the year's rows with `Arquivado = 'no'` and `Last_update` TEXT-greater-or-equal to the date `days` days before today |
| Store.ProtocolStore.InsertProtocol | enhanced_protocol_scraper.py:146-150 | the key's whole row is replaced, whatever it held (an archived row can become open), and no other row changes |
| Store.StaleAreExisting | enhanced_protocol_scraper.py:134-144 | the rows due for refresh are stored rows; every other stored row is archived or older than the cutoff |
| Frontier.FindLatestProtocolNumber | enhanced_protocol_scraper.py:265-301 | the result lies in [0, 30000], is 0 or a number the oracle said yes to, the next number got a no (or it is 30000), and at most 15 oracle calls are made |
| Frontier.FrontierOfStepOracle | enhanced_protocol_scraper.py:270-292 | an oracle true exactly on 1..K yields K |
| Frontier.FrontierOfSilentOracle | enhanced_protocol_scraper.py:270-292 | an oracle never true yields 0 |
| Frontier.FrontierNeverOvershoots | enhanced_protocol_scraper.py:248-263 | when every yes is a real protocol (errors and timeouts answer no), the result never exceeds the last real one |
| Frontier.FrontierOfMonotoneOracle | enhanced_protocol_scraper.py:278-292 | for a downward-closed oracle the result splits the range: yes up to it, no above it |
| Scraper.PerformScrape | enhanced_protocol_scraper.py:188-223 | a shown result keeps its text, is archived exactly when it contains the exact phrase, and carries its latest date; a timeout gives the error element's text, or the fixed not-found text when there is none; any other error gives `An unexpected error occurred: ` and its message; both give 'no' and no date |
| Scraper.ScrapeProtocol | enhanced_protocol_scraper.py:177-186 | a fetch that raises gives `SCRAPE_ERROR: <message>`, 'no' and no date |
| Scraper.ScrapeClassification | enhanced_protocol_scraper.py:177-223 | 'yes' exactly when the page showed a result containing the exact phrase; a date only from a shown result, and then 10 characters |
| Scraper.Ascending | enhanced_protocol_scraper.py:344-347 | `range(lo, hi + 1)` has `hi - lo + 1` elements (0 when empty) |
| Scraper.PlanWork | enhanced_protocol_scraper.py:344-352 | the list is strictly ascending and holds exactly the work set; with `--force-update` it is 1..max ascending |
| Scraper.ForcedPlanIsAscending | enhanced_protocol_scraper.py:346-347 | a strictly ascending list of exactly 1..max is `range(1, max + 1)` |
| Scraper.WorkSetCoverage | enhanced_protocol_scraper.py:348-352 | every unseen number up to max and every stale open number is scheduled; a stored number is scheduled only when it is stale and open |
| Scraper.WorkSetExamples | enhanced_protocol_scraper.py:344-352 | worked cases, including a stale number above max that is still scheduled |
| Scraper.StoredRow | enhanced_protocol_scraper.py:372-375 | the row keeps content and flag, and a missing date becomes today |
| Scraper.IngestYear | enhanced_protocol_scraper.py:368-375 | the loop leaves the table as the fold of one insert per scheduled number |
| Scraper.IngestedLookup | enhanced_protocol_scraper.py:371-375 | after ingestion a key is present exactly when it was before or was scheduled, and scheduled keys hold their new row, others their old one |
| Scraper.IngestOrderIrrelevant | enhanced_protocol_scraper.py:371-375 | the order in which results arrive does not change the table |
| Scraper.IngestedDatesPresent | enhanced_protocol_scraper.py:373-375 | every scheduled number is stored with a 10-character `Last_update` |
| Scraper.FailedFetchStored | enhanced_protocol_scraper.py:184-186 | a failed fetch is stored as `SCRAPE_ERROR: …`, 'no', dated today |
| Scraper.DateWithinWindow | enhanced_protocol_scraper.py:139-141 | the TEXT comparison with the cutoff is the day-count comparison |
| Scraper.FailedFetchIsRescheduled | enhanced_protocol_scraper.py:351 | a failed fetch stays open and inside the refresh window of any later run within the window |
| Scraper.CollectMatches | enhanced_protocol_scraper.py:381-391 | the loops collect exactly the report entries, in schedule order |
| Scraper.YearMatchesMembership | enhanced_protocol_scraper.py:382-391 | an entry is reported for a year exactly when its number was scheduled and its stored content is non-empty and matches, with id `year/` plus the zero-padded number |
| Scraper.ReportMatchesMembership | enhanced_protocol_scraper.py:381-391 | the report holds only entries of numbers scheduled in this run |
| Scraper.RenderReport | enhanced_protocol_scraper.py:393-404 | with no match the file is exactly `Sem update. <timestamp>`; otherwise it is header, count line and one block per entry |
| Scraper.BlockInBlocks | enhanced_protocol_scraper.py:398-400 | every entry's block occurs in the concatenated blocks |
| Scraper.ReportContainsEveryEntry | enhanced_protocol_scraper.py:395-400 | every entry's block and the count line occur in the file |
| Scraper.RangeSize | enhanced_protocol_scraper.py:420 | `range(first, last + 1)` has `last - first + 1` elements |
| Scraper.AnalyzeYear | enhanced_protocol_scraper.py:411-420 | no report exactly when the year has no rows; otherwise first and last are stored and bound all stored numbers, `missing` is exactly the unstored numbers strictly between, and count plus missing is `last - first + 1` |
| Scraper.MinAndMax | enhanced_protocol_scraper.py:419 | the minimum and maximum are members and bound the set |
| Scraper.ExistingIn | enhanced_protocol_scraper.py:349 | exactly the numbers stored for the year |
| Scraper.StaleIn | enhanced_protocol_scraper.py:351 | exactly the year's open rows dated on or after the cutoff |
| Scraper.ScrapeYear | enhanced_protocol_scraper.py:335-375 | the bound is the search result for the current year and the configured one otherwise; an empty list means the year is skipped, else it lists the work set ascending; the table is the ingestion of the list |
| Scraper.IsScheduledSnoc | enhanced_protocol_scraper.py:360 | recording a year's list adds exactly its keys to the scheduled ones |
| Scraper.ReflectsSnoc | enhanced_protocol_scraper.py:360-375 | ingesting one more year keeps the table equal to the start with every scheduled key rewritten |
| Scraper.UntouchedYear | enhanced_protocol_scraper.py:331-352 | with distinct years, a year not yet processed sees exactly the stored and stale numbers it had at the start |
| Scraper.ScheduleStep | enhanced_protocol_scraper.py:331-360 | the per-year account of bounds and lists extends by one year |
| Scraper.ScrapeNextYear | enhanced_protocol_scraper.py:331-375 | one iteration of the year loop keeps the account and the table invariant |
| Scraper.ScrapeYears | enhanced_protocol_scraper.py:331-375 | every year is skipped or scheduled as planned against the table at the start, and the final table is the start with every scheduled key rewritten from its fetch |
| Scraper.RunScrape | enhanced_protocol_scraper.py:317-404 | the keyword list is the expanded list of the configured names and families; every year is skipped or scheduled as planned against the table at the start; the final table is the start with every scheduled key rewritten from its fetch; the report is rendered from the final table |
| App.RunLength | app.py:76 | the longest prefix of characters satisfying the class, and the next character fails it |
| App.TokenLength | app.py:76 | a token is at least 1 and at most the rest of the text |
| App.TokensTile | app.py:76 | the tokens of the `re.findall` pattern are non-empty and concatenate back to the text |
| App.TokenKinds | app.py:76 | each token is a maximal word run, one character that is neither word nor space, or a maximal space run |
| App.NormalizedKeywords | app.py:71 | the set is exactly the lower-cased, stripped forms of the non-blank input keywords: each member comes from one, and each one is a member |
| App.Classify | app.py:80-87 | a token is wrapped exactly when `isalnum()` holds and its folded form is a keyword, and its text is kept |
| App.Highlighted | app.py:70-73 | empty text or no surviving keyword returns the text unchanged |
| App.RenderTokens | app.py:78-87 | the loop appends exactly the rendered pieces |
| App.Highlight | app.py:70-89 | the procedure computes `highlight(text, keywords)` |
| App.HighlightErasesToText | app.py:76-89 | removing the span wrappers yields the original text |
| App.UnderscoreTokensNeverWrapped | app.py:81-84 | a token containing '_' is never wrapped (when '_' is not alphanumeric) |
| App.SingleProtocolContent | app.py:58-68 | None when the pid does not parse; the uncaught OverflowError exactly when a parsed part does not fit SQLite's 64-bit INTEGER; otherwise the stored content, or None when the key is absent |
| App.ContentOfFormattedPid | app.py:58-68 | looking up a formatted pid finds that key's row, or raises when the key does not fit 64 bits |
| App.OversizedPidRaises | app.py:63-67 | the pid of year 2^63 raises instead of finding nothing |
| App.PidWithoutOneSlashFindsNothing | app.py:60-68 | a pid without exactly one '/' finds nothing |
| App.ToApi | app.py:162-170 | the id is the formatted pid, `numero` has at least 5 characters, `has_archivado` holds exactly when the lower-cased content (NULL as "") contains `arquiva-se o protocolo` |
| App.ApiProtocols | app.py:159-170 | the loop builds exactly the filtered list |
| App.ApiListSelection | app.py:159-170 | the list holds the entries of the kept rows in row order, and a row is kept exactly when its pid is not in the removed set |
| App.ApiIdParsesBack | app.py:162 | every listed id parses back to its row's key |
| App.ComputeTotals | app.py:124-127 | NULL sums count as 0 and `notarch = todos - arch` |
| App.CountLike | app.py:116-117 | the `SUM(CASE …)` count is at most the number of rows |
| App.CountLikeSplit | app.py:116-117 | matching and non-matching rows (NULL content among the latter) add up to all rows |
| App.TotalsOfRows | app.py:113-127 | over the admitted rows, `notarch` is the number of rows not matching the archive pattern (NULL content included), and no total is negative |
| App.Exportar | app.py:209-220 | an empty id set is rejected with 400; the request fails exactly when the lookup of some id raises; otherwise the ids are visited once each in sorted order and the text is the blocks joined by blank lines |
| App.JoinBlocks | app.py:214-220 | the loop stops with a failure exactly when some visited lookup raises, and otherwise joins the blocks |
| App.ExportBlocksMembership | app.py:215-218 | a block is exported exactly for a visited pid whose content is present and non-empty, as `---pid---content` |
| App.ExportOrderIsNumeric | app.py:215 | for 4-digit years and numbers below 100000 the export order is (year, number) order |
| App.AppListaNormalizada | app.py:19 | sorting the names first leaves the expanded list unchanged |
| App.ExpandedKeywordsSameNames | app.py:30-43 | the expanded list depends only on which names are configured, not on their order |
| Archive.NormalizeText | archive_protocols.py:4-15 | "" for empty input, and no ',' or '.' in the result |
| Archive.NormalizedIsFolded | archive_protocols.py:11-14 | the result has no combining character and is already lower case (for a database whose lower-casing is idempotent and keeps non-combining characters non-combining) |
| Archive.SelectedKeys | archive_protocols.py:41-59 | a row is collected exactly when its content is non-empty, contains the rule phrase after normalisation, and it is not yet archived |
| Archive.MarkOne | archive_protocols.py:67-68 | one more update marks exactly one more row |
| Archive.SelectRows | archive_protocols.py:41-59 | the loop collects exactly the selected keys |
| Archive.MarkArchived | archive_protocols.py:67-68 | the table afterwards is the table before with exactly the given keys marked archived |
| Archive.ArchiveProtocols | archive_protocols.py:17-72 | it returns the selected keys and leaves the table exactly as one pass defines it |
| Archive.ArchiveEffect | archive_protocols.py:41-68 | keys, content and `Last_update` never change; a row ends archived exactly when it was already archived or its content matches the rule, so nothing is un-archived; only selected rows change |
| Archive.ArchiveIdempotent | archive_protocols.py:55-58 | a second pass selects nothing and changes nothing |
| Archive.NormalizedAppend | archive_protocols.py:11-14 | normalisation commutes with concatenation |
| Archive.PhrasesAlign | archive_protocols.py:52 | the scraper's phrase is the rule phrase with a capital first letter and a final period |
| Archive.LowerPhrase | archive_protocols.py:14 | lower-casing the scraper's phrase gives the rule phrase and a period |
| Archive.PhraseIsPlain | archive_protocols.py:11-12 | decomposition and combining-mark removal leave the scraper's phrase unchanged |
| Archive.PunctuationOfPhrase | archive_protocols.py:14 | deleting ',' and '.' from the lower-cased phrase leaves the rule phrase |
| Archive.NormalizedOccurrence | archive_protocols.py:11-14 | normalising text that contains a phrase gives text that contains the phrase's normal form |
| Archive.PhraseNormalizesToRule | archive_protocols.py:4-15 | the scraper's phrase normalises to the rule phrase |
| Archive.ScraperPhraseMeetsRule | archive_protocols.py:49-58 | any content the scraper marks 'yes' by its exact phrase is selected by the rule as well (when not yet archived), for a database that treats the phrase's characters as plain ASCII |

## Left out

- Selenium and the remote registry: drivers, locators and DOM waits are replaced by the `fetch` and `oracle` parameters. A fetch is assumed to answer the same way each time it is asked within one run.
- The initial `content = "Default error content."` of `_perform_scrape` is never returned: every path of the `try` either reassigns it or raises. So it is not modelled.
- Concurrency: the semaphore, `as_completed` and `run_in_executor` run the fetches in parallel; the model ingests sequentially, and `Scraper.IngestOrderIrrelevant` shows the completion order does not matter.
- SQLite: connections, commits, `retrieved_at` (wall-clock diagnostics), and the FTS index of setup_fts.py are not modelled. The `LIKE` filters of `/api/protocols` are not modelled either: the filtered rows and the two `LIKE` patterns of the totals query are parameters.
- Clock: `datetime.now()` is the `today` parameter, and a run is taken to fall within one day. The timestamps in the report header and the export file name are parameters or left out.
- strftime pads years below 1000 differently across platforms; the model always pads years to four digits.
- `Unicode.Lower`, `Unicode.Expand`, `Unicode.Nfd` and `Unicode.Nfkd` map one code point at a time. Python's `str.lower` is context-dependent in places: a capital sigma at the end of a word becomes the final form 'ς', and 'İ' becomes two code points. NFD and NFKD also reorder adjacent combining marks by combining class. The model does neither.
- `Unicode.FoldAppend`: holds for the model's per-code-point fold only. With Python's final-sigma rule, `lower('ΑΣ') + lower('Α')` differs from `lower('ΑΣΑ')`, and canonical reordering can move marks across the join. So folding a block need not fold each piece for such text.
- `Keywords.MentionMatches`: rests on `Unicode.FoldAppend`, so it is not promised for a piece whose fold changes with its neighbours (a final sigma, or combining marks reordered across the piece's ends).
- `Keywords.MentionOfNameMatches`: rests on `Keywords.MentionMatches`, with the same limit for names and text around them.
- `Archive.NormalizedAppend`: holds for the model's per-code-point decomposition and lower-casing only; Python's `normalize('NFKD', …).lower()` can differ across the join for the same reasons.
- `Archive.NormalizedOccurrence`: rests on `Archive.NormalizedAppend` and has the same limit. An ASCII phrase next to ASCII text, such as the archiving phrase in `Archive.ScraperPhraseMeetsRule`, is not affected.
- `Dates.DateMatches`, `Dates.ParseDate`: only ASCII digits `0`-`9` are digits here. Python's `\d`, `strptime` and `int()` also accept other Unicode decimal digits (for example full-width digits), so a match such as `10/01/２０２４` is not modelled.
- `int()` is modelled for ASCII digits, a sign, surrounding white space and single underscores between digits. Other Unicode decimal digits that Python accepts are not modelled.
- The Unicode database is uninterpreted. Whether `remover_acentos` or `normalize_text` gives a particular answer for a non-ASCII character depends on the tables and is not stated.
- `Pids.ParseInt`, `Pids.IntToString`, `Pids.ParseIntToString`, `Pids.ParseZFilled`: CPython refuses to convert between `int` and `str` beyond 4300 decimal digits by default (`sys.set_int_max_str_digits`), raising `ValueError`. The model has no such limit, so `int(str(i)) == i` is stated for every `i`, while Python raises for |i| ≥ 10^4300. A pid part of more than 4300 digits gives `None` in Python, where `App.SingleProtocolContent` reports the overflow.
- A `None` pid given to `get_single_protocol_content` raises `AttributeError`, which is not caught; pids are modelled as strings.
- The configuration: `hardcoded_years` is modelled as a map from int years to int bounds. Its keys are strings in the JSON. The run's year list is taken to be distinct, as dict keys are. JSON loading, logging, argparse and progress bars are left out.
- `analyze` is modelled one year at a time (`Scraper.AnalyzeYear`); the repeated year of the hardcoded list plus the current year, and the log messages, are not.
- Flask: routing, `protocolo_detail`, `remover`, `send_file`, and reading `removidos.txt` (the removed set is a parameter) are left out.
- static/script_full.js, deploy_db.py and update_and_deploy.py (UI, HTTP upload, process orchestration) are not part of this model.
- The status of a stored row can go from 'yes' back to 'no': `insert_protocol` is `INSERT OR REPLACE` with no guard, and the scraper classifies by an exact, case-sensitive phrase that includes the period. A design that keeps the status monotone and matches the phrase ignoring case, accents and punctuation would behave differently. The model follows the code (`Store.ProtocolStore.InsertProtocol`, `Scraper.PerformScrape`).
- `Archive.ArchiveProtocols`: the `sqlite3.Error` handler and the messages are not modelled, and the count `updated_count` is the size of the returned key set.
