# Offset-based extraction of the coronavirus scraper, in Dafny

The scraper reads the worldometers coronavirus pages as raw HTML text. It does
not parse the markup. It finds marker strings with `str.find`, cuts slices at
the offsets it finds, and splits the slices on fixed separators. This project
models that text-extraction core, in its several script versions, and proves
what each step yields on any page text:

- `PyStr` and `PyInt` give Python's `find` (with the -1 for "absent"),
  slicing (negative bounds, clamping), `split`, `join`, `strip`,
  `replace` of one character and `int()` their CPython meaning. The rest of
  the model is written in terms of them, so the -1 arithmetic of the source
  is carried through exactly.
- `Columns` covers `parsing_columns_data`: the column labels read as successive
  single-quoted literals.
- `Rows` covers one country row. That is `parsing_country_values` (line by
  line, `>`...`<` text), `cleaning_countries_values` (`None`, `int`, float
  text), the detail-page link, and `parsing_country_data` with its seen-set,
  link map and allow-list. The step-1 script's inline copy is modelled too.
- `Scan` covers `countries_to_list` and the step-1 loop: the overlapping
  window scan over `range(start, COUNTRY_HTML_ENDING_INDEX,
  COUNTRY_BLOCK_SIZE)`, then the filter that drops empty rows.
- `History` covers `parsing_country_history`: the five-graph cursor walk in
  its dictionary form (coronavirus_2.0.py, coronavirus.py,
  coronavirus_2.1.py), its guarded form (coronavirus_3.0.py) and its
  list-pair form (step-1 script).
- `HistoryPage` describes the page layout the walk is written for. On such a
  page, it proves that every graph reads its own chart's arrays.
- `Cells` covers the string form of `cell_numeric_value`.
- `Update` covers `Coronavirus.country_update`.

Exceptions the source raises become faults of a `Result`:

- `row_list[0]` on an empty row is `EmptyRow`.
- `int()` rejecting its text is `NotAnInt`.
- `float()` rejecting a decimal text that holds a thousands separator is
  `NotAFloat`.
- A missing dictionary key is `MissingKey`.

The scraper's state lives in a mutable `countries_set` and
`country_link_dict`. The model threads them through as an immutable
`Registry` value.

The code behaves as follows where a reader might expect otherwise:

- A page without the row start marker does not yield "no records". `txt[-1:]`
  is at most one character, the block is empty, and `row_list[0]` raises.
  The model returns `Err(EmptyRow)`, so the scan aborts (`MissingStartFaults`,
  `CountriesToList`).
- The column extractor never returns a short list. One value is appended per
  iteration, whatever the text holds (`ParseColumns`).
- The history cursor can move back by one character. A graph name that occurs
  in the page but not after the cursor makes `find` return -1, and the arrays
  are then searched from one character before the cursor (`RewindsByOne`).

## Model

| member | source | states |
|---|---|---|
| PyStr.Find | coronavirus_2.0.py:32-33 | `find` returns the lowest index of a match, no earlier index matches, and it returns -1 exactly when the pattern occurs nowhere |
| PyStr.FindFrom | coronavirus_2.0.py:59 | `find` from a start index returns a match at or after the normalised start with none before it, or -1 when none follows |
| PyStr.Slice | coronavirus_2.0.py:34 | an in-range slice is the plain subsequence; a crossed or out-of-range slice is empty; a slice is never longer than the text |
| PyStr.Suffix | coronavirus_2.0.py:98 | `text[i:]` is the plain suffix in range and empty past the end; `text[-1:]` is the last character only |
| PyStr.Split | coronavirus_2.0.py:101 | `split` yields at least one piece, the pieces rejoin to the text, and no piece contains the separator |
| PyStr.SplitJoin | coronavirus_2.0.py:185-189 | splitting pieces joined by a separator whose first character none of them holds gives the pieces back |
| PyStr.SplitCharCount | coronavirus_2.0.py:189 | splitting on one character yields one more piece than the text holds of that character |
| PyStr.FindFirstMatch | coronavirus_2.1.py:83 | a text that starts with the pattern, after a prefix in which no occurrence starts, has its first occurrence right after that prefix |
| PyStr.StripEmptyIffBlank | coronavirus_2.0.py:74 | `s.strip() == ''` exactly when every character is whitespace |
| PyStr.RemoveChar | coronavirus_2.0.py:77 | `replace(c, '')` leaves no `c`, shortens the text by the number of `c`s, and keeps every other character's count |
| PyInt.CommaGroupedInt | coronavirus_2.0.py:77 | `int()` of digits and commas with the commas removed is the decimal value of the digits |
| PyInt.ParseDigits | coronavirus_2.0.py:77 | `int()` of a non-empty digit string is its decimal value |
| Columns.Literals | coronavirus_2.0.py:35-40 | the loop appends exactly one value per iteration, whatever the code holds |
| Columns.ParseColumns | coronavirus_2.0.py:22-41 | the result has exactly `number_of_columns` labels (one when that is not positive) and the first is `Country` |
| Columns.ParseColumnsStep1 | coronavirus_step1_1.2.py:34-55 | the step-1 extractor always returns 14 labels, `Country` first |
| Columns.NextLiteralOfQuoted | coronavirus_2.0.py:36-39 | one iteration over `sep 'lit' rest` appends `lit` and leaves `rest` |
| Columns.LiteralsOfQuoted | coronavirus_2.0.py:35-40 | over consecutive quoted literals, the first k appended values are the first k literals |
| Columns.ColumnsOfQuotedRegion | coronavirus_2.0.py:31-41 | when the bounded region holds enough quoted literals, the labels are `Country` and then those literals in order, none containing a quote |
| Rows.SkippedIffUntagged | coronavirus_2.0.py:52-55 | a line is skipped exactly when it has no `>` or no `<` at or after its first `>` |
| Rows.FirstTagValue | coronavirus_2.0.py:52-56 | when the text after the first `>` is not empty, it is the line's value and holds no `<` |
| Rows.TagValue | coronavirus_2.0.py:52-56 | in `pre>mid<post` the value is exactly `mid` |
| Rows.NestedTagValue | coronavirus_2.0.py:57-61 | when the first tag text is empty, the value is read after the second `>`: `pre><gap>mid<post` gives `mid` |
| Rows.UntaggedLineSkipped | coronavirus_2.0.py:52-55 | a line whose first `>` has no `<` after it adds nothing |
| Rows.AppendValues | coronavirus_2.0.py:51-62 | the loop only appends: the incoming list is a prefix, and at most one value is added per line |
| Rows.ParseCountryValues | coronavirus_2.0.py:44-63 | the incoming `row_list` is a prefix of the result, and at most `len(list_block) - 1` values are added |
| Rows.AppendValuesIsValues | coronavirus_2.0.py:51-62 | the loop appends exactly the values of the tagged lines, in order |
| Rows.LastLineIgnored | coronavirus_2.0.py:51 | the last line of the block is never read: any last line gives the same row |
| Rows.UntaggedLinesAddNothing | coronavirus_step1_1.2.py:78-82 | a block of untagged lines adds nothing |
| Rows.CleanCellNull | coronavirus_2.0.py:74-75 | a cell becomes `None` exactly when it is blank after strip or `N/A` |
| Rows.CleanCellDigits | coronavirus_2.0.py:76-77 | a cell of digits and thousands separators becomes the integer its digits spell |
| Rows.CleanCellExample | coronavirus_2.0.py:77 | `'1,234'` becomes 1234 |
| Rows.CleanCellDecimal | coronavirus_2.0.py:78-79 | a non-blank cell with a `.` is kept as float text, unless it holds a comma, which `float()` rejects |
| Rows.CleanCellDecimalExample | coronavirus_2.0.py:78-79 | `'12.5'` is kept as float text and `'1,234.5'` makes `float()` raise |
| Rows.CleanCellFault | coronavirus_2.0.py:73-79 | in the model cleaning one cell fails only in `int()` on a text without `.`, or in `float()` on a decimal text with a comma |
| Rows.CleanEach | coronavirus_2.0.py:73-79 | the loop succeeds exactly when every cell cleans, keeps each cleaned value at its index, and otherwise fails with the first failing cell's fault |
| Rows.CleanRowWith | coronavirus_2.0.py:66-80 | length and element 0 are preserved, every later element is cleaned, and the first failing element aborts |
| Rows.CleanRow | coronavirus_step1_1.2.py:90-96 | length and element 0 are preserved, every later element is its cleaned value, and in the model only `int()`, or `float()` on a comma-bearing decimal text, fails |
| Rows.CleanRowFails | coronavirus_2.0.py:73-79 | cleaning fails exactly when some later element fails, with the fault of the first one |
| Rows.LinkOf | coronavirus_2.0.py:95-97 | the link never contains `/` |
| Rows.LinkAtFound | coronavirus_2.0.py:96-97 | when a `/` follows the marker, the link is the text from one past the marker up to that `/` |
| Rows.BlockLines | coronavirus_2.0.py:98-101 | the block always has at least one line |
| Rows.ParseCountryData | coronavirus_2.0.py:83-117 | it raises `IndexError` exactly on an empty row; it succeeds exactly when the raw row is not empty and every later cell cleans, and otherwise fails with the first failing cell's fault; an accepted row is the cleaned raw row, its name first; a rejection leaves set and link map alone; an acceptance registers a new name with its `/`-free link, and with an allow-list the name is in it; it rejects exactly when the name is outside a non-empty allow-list or already seen |
| Rows.MissingStartFaults | coronavirus_2.0.py:95-106 | a text without the start marker makes `row_list[0]` raise |
| Rows.ParseCountryDataStep1 | coronavirus_step1_1.2.py:58-103 | it succeeds exactly when the raw row is not empty and every later cell cleans, and otherwise fails with the cleaning fault or on the empty row; an accepted row is the cleaned raw row, its name first; a rejection leaves set and link map alone and happens exactly when the name was seen; an acceptance registers a new name |
| Rows.Step1Agrees | coronavirus_step1_1.2.py:70-103 | the step-1 extractor is the later one with an empty allow-list |
| Scan.Range | coronavirus_2.0.py:208 | `range(start, stop, step)` is empty exactly when `start >= stop`, starts at `start` and stays in `[start, stop)` |
| Scan.RangeLast | coronavirus_2.0.py:208 | the range runs to the end: one more step from its last element reaches `stop` |
| Scan.RangeAt | coronavirus_2.0.py:208 | the k-th element of the range is `start + k * step` |
| Scan.NonEmpty | coronavirus_2.0.py:214 | the filter keeps no empty row and never grows the list |
| Scan.NonEmptyMembers | coronavirus_2.0.py:214 | a row is kept exactly when it was in the list and is not empty |
| Scan.ScanWindows | coronavirus_2.0.py:208-213 | the reference scan: one row appended per window, the incoming list kept as a prefix |
| Scan.ConfiguredWindows | config.py:17-18 | with the configured block size and bound, the loop reads at most 384 windows |
| Scan.ParserKeepsContract | coronavirus_2.0.py:209-212 | one call on `txt[i:]` leaves the registry alone on rejection, registers a new name on acceptance, and faults without the marker |
| Scan.CountriesToList | coronavirus_2.0.py:196-215 | the result is the reference window scan with the empty rows dropped; no empty row; the incoming rows come first; at most one row per window; the added rows have distinct names, none seen before, each registered with a `/`-free link and in a non-empty allow-list; a page without the start marker faults |
| Scan.ScanLoop | coronavirus_2.0.py:206-215 | the loop over an extractor that keeps the call's contract computes the reference scan, filtered, and keeps the scan's promise |
| Scan.Advance | coronavirus_2.0.py:208-212 | a window whose call succeeds extends the kept rows and keeps the scan's promise |
| Scan.AddedKeepsPromise | coronavirus_2.0.py:111-117 | registering one more accepted row keeps names distinct and the set and link map in step with the rows |
| Scan.MissingStartInSuffix | coronavirus_2.0.py:206-210 | when the marker is absent, the first window `txt[-1:]` lacks it too |
| Scan.Step1Scan | coronavirus_step1_1.2.py:210-219 | the result is the reference window scan from the column row with the empty rows dropped; it starts with the column row, holds no empty row, and its country rows have distinct names none of which was seen before |
| History.Walk | coronavirus_2.0.py:175-191 | one entry per graph, absent exactly when the name occurs nowhere in the page |
| History.RecordAt | coronavirus_2.0.py:172-191 | the result's keys are the five graph names, each holding its own graph's value |
| History.ParseHistory | coronavirus_2.0.py:160-193 | exactly the five graph keys; a graph absent from the whole page maps to an empty dictionary; a present one maps to `dates` and `instances`, neither empty |
| History.SeriesShape | coronavirus_2.1.py:79-93 | a graph's dictionary is empty exactly when it was not found; a found one has exactly the keys `dates` and `instances`, both non-empty |
| History.SeriesOf | coronavirus_2.0.py:191 | the dictionary over five read graphs has exactly their keys, each holding its own graph's series |
| History.GuardsNeverFire | coronavirus_3.0.py:65-102 | the guarded version computes exactly what the unguarded one does |
| History.GuardedShape | coronavirus_3.0.py:78-100 | the guarded version has exactly the five graph keys, an empty dictionary exactly for an absent graph, and two non-empty lists for a present one |
| History.GuardedInstancesCount | coronavirus_3.0.py:94-96 | in the guarded version `instances` has one more element than the data text has commas |
| History.GuardIdle | coronavirus_3.0.py:90-98 | the `len(...) < 1` guards never fire on one graph |
| History.PairShape | coronavirus_step1_1.2.py:169-185 | an absent graph maps to `[[]]`, a present one to two non-empty lists |
| History.ParseHistoryPairs | coronavirus_step1_1.2.py:150-187 | exactly the five graph keys; absent graphs map to `[[]]` and present ones to `[dates, values]`, both non-empty |
| History.PairsAgree | coronavirus_step1_1.2.py:185 | the step-1 pair of a present graph holds the same two lists as the later dictionary form |
| History.InstancesCount | coronavirus.py:98-102 | `instances` has one more element than the data text has commas |
| History.RewindsByOne | coronavirus_2.0.py:177-181 | a name present in the page but not after the cursor is taken to sit one character before the cursor |
| HistoryPage.StepChart | coronavirus.py:92-102 | one iteration over a well-formed chart reads its own arrays and leaves the cursor on its data marker |
| HistoryPage.WalkPage | coronavirus.py:86-102 | on a page of laid-out charts, each graph reads its own chart, whatever precedes the cursor |
| HistoryPage.DatesAtArray | coronavirus_3.0.py:88-90 | over a categories array of quoted dates, the dates text is the dates joined by `","` |
| HistoryPage.DatesAtFound | coronavirus.py:94-96 | the dates text runs from one past `categories: [` to the character before the next `]` |
| HistoryPage.DatesExample | coronavirus.py:94-96 | `categories: ["Feb 15","Feb 16"]` gives the dates `Feb 15` and `Feb 16` |
| HistoryPage.ValuesAtFound | coronavirus.py:98-100 | the values text runs from the end of `data: [` to the next `]` |
| HistoryPage.ValuesAtChart | coronavirus.py:98-100 | the values text read at a chart's data marker is its values joined by commas |
| HistoryPage.ChartSeries | coronavirus.py:96-102 | splitting a chart's two array texts gives back its dates and values |
| HistoryPage.OrderedPage | coronavirus_2.1.py:77-93 | on a page holding the five charts in loop order, where no graph name occurs before its own chart (after the previous chart's data array), each graph's series is its own chart's dates and values |
| Cells.CellNumericValue | coronavirus.py:124-138 | in the model only `int()` on the text after the `+` sign can raise, with the commas removed; any value left to `float()` is the comma-free stripped text of a cell without `+` |
| Cells.CellSentinel | coronavirus.py:130-134 | without `+`, a blank or `N/A` cell is -1, and in the model an exact -1 otherwise comes only from a text spelling -1 |
| Cells.CellDigits | coronavirus_2.1.py:130 | without `+`, digits with thousands separators give the integer they spell, up to 2^53 |
| Cells.CellPlus | coronavirus_3.0.py:131-132 | with `+`, the digits after the sign give the integer they spell |
| Cells.PlusWithoutDigitsFaults | coronavirus_2.0.py:225-226 | with `+`, a text of at most one character leaves nothing for `int()`, which raises |
| Cells.CellPlusExample | coronavirus.py:131-132 | `+1,234` with `+` gives 1234 |
| Update.Renamed | coronavirus.py:185-196 | the record exists exactly when every field is present; its keys are the new names, each copied from its field; otherwise the first missing field raises |
| Update.CountryUpdate | coronavirus.py:180-199 | a row without `country` raises `KeyError`; a name not in the code table gives `(None, None, None)` |
| Update.TargetsAreRecordKeys | coronavirus.py:185-196 | the twelve renamed fields are exactly the record's twelve keys |
| Update.KnownCountry | coronavirus.py:182-198 | a known name with every field gives the name, its code and a twelve-key record copied field by field |
| Update.KnownCountryExample | coronavirus.py:185-196 | `total death` becomes `total_deaths` and `test per1 million` becomes `tests_per_1m` |
| Update.MissingField | coronavirus.py:185-196 | a known name missing a field raises `KeyError` for the first missing field in record order |

## Left out

- Network I/O: `html()`, `requests` and all of API_data_parsing.py. Pages are parameters.
- The BeautifulSoup code is not modelled, because the DOM library's behaviour is not visible. That covers `parsing_main_data`, `parsing_country_page` and `get_countries_links`, and the `cell.text` read.
- Database code is not modelled: creating_db.py, creating_db_scraper_api.py and coronavirus_db.py.
- Scheduling, the command line, logging and files are not modelled: `refresh_data` reads the wall clock, and the rest is main.py and the file savers.
- The `try/except` with `sys.exit` around the scan is not modelled. A fault ends the scan as an `Err` instead.
- The constants of config.py are parameters. That covers the markers, the block size, the bound and the name-to-code table. `Scan.Configured` records the shown values, and `Scan.ConfiguredWindows` bounds the scan they give.
- `float()` is not modelled beyond its rejection of thousands separators. `cleaning_countries_values` keeps a text with a `.` and no comma as `FloatText`, without converting it.
- Rows.CleanCellFault: a decimal text that `float()` rejects for another reason (`1.2.3`, `a.b`) is kept as `FloatText` and is not a fault.
- Rows.CleanRow: as for `Rows.CleanCellFault`, the other texts `float()` rejects are not faults.
- Cells.CellNumericValue: a text that `float()` rejects (`abc`, `1.2.3`) is returned as `FloatPath(text)` and is not a fault.
- Cells.CellNumericValue: `round(float(...))` is computed only for texts `int()` accepts with a magnitude of at most 2^53. Every other text is returned as `FloatPath(text)`, unconverted.
- Cells.CellNumericValue: the `'+' in cell` test is a child-membership test on a DOM node, so it is the boolean parameter `plus`.
- Cells.CellNumericValue: the `cell_final is None` test is left out, because `strip()` never returns `None`.
- PyInt.ParseInt accepts only ASCII digits. CPython's `int()` also accepts other Unicode decimal digits.
- Scan.Range models only the positive step the scan uses. `range` with a step of 0 or less is not modelled.
- Update.CountryUpdate: a `country` value is either a name or a number. A number is never a key of the code table, so it gives no update.
- PyStr.RemoveChar: the contract states the character counts of the result, not that the remaining characters keep their order.
