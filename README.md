# Publication calendar checks and downloads, modelled in Dafny

This project models the logic of two scripts that keep a local copy of Statbel
statistics up to date.

`scripts/fetch_calendar.py` reads the publication calendar page. Its
`parse_calendar_table` turns table rows into calendar entries; the model takes
each row as the stripped texts of its cells.

`scripts/check_and_download.py` does the rest:

- `parse_datum_text` reads a Dutch date such as "1 december 2025". It takes the
  first match of `(\d{1,2})\s+(\w+)\s+(\d{4})` in the lower-cased text. The month
  is the first name in `januari`..`december` that begins with the matched word.
  The result is a `datetime`, which raises ValueError for a day that does not
  exist.
- `find_statistic_in_calendar` looks a statistic up by name. An exact pass
  returns the first exact match; otherwise a fuzzy pass returns the first
  substring match.
- `find_upcoming_publications` lists the entries dated between now and seven
  days later, sorted by date.
- `construct_url` fills the `{periode}` and `{datum}` placeholders of a URL
  pattern.
- `check_and_download_statistics` decides, for every configured statistic,
  whether its publication is out. If it is, it builds the target file name and
  fetches the file unless it already exists.

Modules, one per concern:

| module | file | what it holds |
|---|---|---|
| `Base` | `base.dfy` | `Option`, and `Outcome` for a Python call that returns or raises `ValueError`/`OverflowError` |
| `Text` | `text.dfy` | `str.lower`, `str.strip`, `in`, `startswith`, `replace`, digits and zero padding |
| `Dates` | `dates.dfy` | dates and datetimes, their order, day ordinals for `timedelta`, `strftime('%Y%m%d')` |
| `DutchDate` | `dutch_date.dfy` | the date regex (the match at each position is unique, so `re.search` is the leftmost match), the month table, `parse_datum_text` |
| `Calendar` | `calendar.dfy` | calendar entries and `find_statistic_in_calendar` |
| `Upcoming` | `upcoming.dfy` | `find_upcoming_publications`: the loop as a method, its specification `Collect`, and a stable insertion sort standing for `sorted` |
| `UrlPattern` | `url_pattern.dfy` | `construct_url` |
| `UrlPath` | `url_path.dfy` | `Path(urlparse(url).path).suffix or '.zip'` |
| `Download` | `download.dfy` | the per-statistic decision, the file name, and the whole `check_and_download_statistics` run as a method with its specification |
| `CalendarTable` | `calendar_table.dfy` | `parse_calendar_table` as a method with nested loops, and its specification |

The clock, the file system and the network are parameters:

- `now` is the clock reading that `find_upcoming_publications` takes.
- `clock[i]` is the reading taken for statistic `i` (line 197 reads the clock
  once per statistic).
- `files` is the set of targets that exist before the run.
- `failing` is the set of URLs whose download fails.

A successful download creates its target; a failed one creates nothing.

Several lemmas take the date parser and the URL chooser as function values
(`Upcoming.Parser`, `Download.UrlChooser`). The script's own functions
(`UpcomingPublications`, `Decide`) apply them to `EntryDate` and `ChooseUrl`.
A property proved for every parser that yields real dates therefore holds for
the script. In the same way the loop over the statistics is stated for any
loop body (`Download.Body`); the script's run, `CheckAndDownload`, uses
`Download.LoopBody`, which is `Decide` on the loaded calendar.

Two behaviours of the code are easy to miss, and the model keeps both:

- A parse failure can end the whole run. `parse_datum_text` lets the
  ValueError of `datetime(...)` escape (`scripts/check_and_download.py:70`). `find_upcoming_publications`
  parses every calendar entry. So a single entry with a non-existent date (such
  as "31 februari 2025") ends the whole run at line 182, before any statistic
  is handled. `Download.CrashesOnlyBeforeLoop` states exactly when this
  happens.
- The warning branch at lines 209-211 can be reached. The pattern `{periode}`
  with an empty period gives the empty URL, which is falsy
  (`UrlPattern.EmptyPeriodeGivesEmptyUrl`).

## Model

| member | source | states |
|---|---|---|
| Text.Lower | scripts/check_and_download.py:60 | `lower()` keeps the length and maps each character; it leaves no capital and keeps digit, space and word classes |
| Text.Strip | scripts/check_and_download.py:104 | `strip()` gives the middle of the text: it starts after the leading whitespace, only whitespace follows it, it has no whitespace at either end, and a text without whitespace is left unchanged |
| Text.StripExample | scripts/check_and_download.py:104 | `" ab ".strip()` is `"ab"` |
| Text.ReplaceJoin | scripts/check_and_download.py:134 | `replace` turns every occurrence of a placeholder whose occurrences cannot overlap into the replacement: pieces joined by the pattern become the same pieces joined by the replacement |
| Text.Replace | scripts/check_and_download.py:134 | no contract of its own; `Text.ReplaceJoin` and `Text.ReplaceAbsent` state what it does |
| Text.ReplaceAbsent | scripts/check_and_download.py:134 | a text without the pattern is left unchanged by `replace` |
| Text.PadRoundTrip | scripts/check_and_download.py:140 | zero padding to a width is undone by reading the digits back, when the number fits |
| Dates.MidnightNotAfter | scripts/check_and_download.py:200 | `datum <= today` with the date at midnight holds exactly when the date is today or earlier, at any time of day |
| Dates.MidnightNotBefore | scripts/check_and_download.py:88 | `today <= datum` holds exactly for a later date, or for today only at exactly midnight |
| Dates.OrdinalOrder | scripts/check_and_download.py:81 | date order is the order of day ordinals, and equal ordinals mean equal dates |
| Dates.OrdinalRange | scripts/check_and_download.py:81 | every valid date has an ordinal in 1..3652059, the range `timedelta` addition accepts |
| Dates.InstantOrder | scripts/check_and_download.py:88 | datetime comparison is comparison of microsecond instants, so adding `timedelta(days=n)` adds n days of microseconds |
| Dates.FormatYmd | scripts/check_and_download.py:140 | `strftime('%Y%m%d')` of a valid date is eight digits |
| Dates.FormatYmdRoundTrip | scripts/check_and_download.py:215 | the eight-digit stamp determines the date: decoding it gives the date back |
| DutchDate.MonthFrom | scripts/check_and_download.py:68-70 | the month loop returns the first month, in table order, whose name begins with the word, and nothing when none does |
| DutchDate.MonthNumberIsFirstPrefix | scripts/check_and_download.py:52-70 | month n is returned exactly when the n-th name begins with the word and no earlier name does |
| DutchDate.MatchAt | scripts/check_and_download.py:59 | a match found at a position satisfies the pattern there, with the groups where it says |
| DutchDate.DayEnd | scripts/check_and_download.py:59 | the day group `\d{1,2}` is one or two characters long and stays inside the text |
| DutchDate.DayEndOfMatch | scripts/check_and_download.py:59 | in any match the day group takes the second digit whenever there is one |
| DutchDate.MatchAtComplete | scripts/check_and_download.py:59 | any way the pattern matches at a position is the one `MatchAt` finds: the match at a position is unique |
| DutchDate.SearchFrom | scripts/check_and_download.py:60 | the scan returns only a match of the pattern, at or after its starting position |
| DutchDate.SearchFromIsFirst | scripts/check_and_download.py:60 | the scan returns the match at the first position that has one, and nothing only when no position has one |
| DutchDate.Search | scripts/check_and_download.py:60 | `re.search` returns only a match of the pattern; `DutchDate.SearchIsLeftmost` adds that it is the leftmost one |
| DutchDate.SearchIsLeftmost | scripts/check_and_download.py:60 | `re.search` gives the unique leftmost match, and nothing exactly when the pattern matches nowhere |
| DutchDate.FromGroups | scripts/check_and_download.py:62-70 | from a match: None exactly when no month name begins with the word; a date with the matched day and year and the first fitting month; ValueError exactly when that day does not exist |
| DutchDate.ParseDatumText | scripts/check_and_download.py:49-72 | every date returned is a real date, and the only exception is ValueError |
| DutchDate.ParseUsesLeftmostMatch | scripts/check_and_download.py:59-70 | the outcome depends on the leftmost match of the lower-cased text alone |
| DutchDate.ParseWithoutMatch | scripts/check_and_download.py:60-72 | a text where the pattern matches nowhere gives None |
| DutchDate.MonthJuIsJune | scripts/check_and_download.py:52-70 | "ju" resolves to juni (6), not juli |
| DutchDate.MonthMIsMarch | scripts/check_and_download.py:52-70 | "m" resolves to maart (3) |
| DutchDate.MonthDecIsDecember | scripts/check_and_download.py:52-70 | "dec" resolves to december (12) |
| DutchDate.MonthMrtIsNone | scripts/check_and_download.py:52-70 | "mrt" begins no month name and resolves to nothing |
| DutchDate.ParseFirstOfDecember | scripts/check_and_download.py:58-70 | "1 December 2025" gives 2025-12-01 |
| DutchDate.ParseThirtyFirstOfFebruaryRaises | scripts/check_and_download.py:63-70 | "31 februari 2025" raises ValueError rather than giving None |
| DutchDate.ParseOnlyFirstMatch | scripts/check_and_download.py:59-72 | "1 mrt 2025 en 2 mei 2025" gives None: only the first match is examined |
| Calendar.EntriesOf | scripts/check_and_download.py:101-102 | a calendar with an `entries` list is truthy |
| Calendar.FindExactFrom | scripts/check_and_download.py:107-110 | the exact pass returns the first index whose normalised name equals the lookup, and nothing when none does |
| Calendar.FindFuzzyFrom | scripts/check_and_download.py:113-117 | the fuzzy pass returns the first index whose name contains or is contained in the lookup, and nothing when none does |
| Calendar.FindStatisticIndex | scripts/check_and_download.py:104-119 | an index found is an index of the entries; `Calendar.ExactMatchWins`, `Calendar.FirstFuzzyMatch` and `Calendar.NotFoundMeansNoFuzzyHit` state which one |
| Calendar.FindStatistic | scripts/check_and_download.py:99-119 | a found entry is an element of `entries`; a calendar without `entries` gives None |
| Calendar.ExactMatchWins | scripts/check_and_download.py:106-110 | the first exact match is returned even when an earlier entry matches fuzzily |
| Calendar.FirstFuzzyMatch | scripts/check_and_download.py:112-117 | without an exact match, the first fuzzy hit in list order is returned |
| Calendar.NotFoundMeansNoFuzzyHit | scripts/check_and_download.py:106-119 | nothing is found exactly when no entry matches even fuzzily |
| Calendar.EmptyNameMatchesEverything | scripts/check_and_download.py:113-117 | an entry whose name is empty after normalising matches every lookup in the fuzzy pass |
| Upcoming.EntryDate | scripts/check_and_download.py:86 | an entry's date, when there is one, is a real date; the only exception is ValueError |
| Upcoming.SortByDate | scripts/check_and_download.py:96 | the sort keeps the length; `Upcoming.SortByDateSorts`, `Upcoming.SortByDatePermutes` and `Upcoming.SortByDateIsStable` state the rest |
| Upcoming.SortByDateSorts | scripts/check_and_download.py:96 | the sort's result is ordered by date |
| Upcoming.SortByDatePermutes | scripts/check_and_download.py:96 | the sort's result is a permutation of its input |
| Upcoming.SortByDateKeepsEntries | scripts/check_and_download.py:96 | the sort keeps the multiset of calendar entries |
| Upcoming.SortByDateIsStable | scripts/check_and_download.py:96 | publications on one date keep their relative order (`sorted` is stable) |
| Upcoming.Collect | scripts/check_and_download.py:85-94 | no contract of its own; `Upcoming.CollectDescribesEntries`, `Upcoming.CollectCountsEntries`, `Upcoming.CollectRaisesOnBadDate` and `Upcoming.CollectRaisedEscapes` state what the loop collects and when it raises |
| Upcoming.CollectRaisedEscapes | scripts/check_and_download.py:85-86 | an exception raised in the loop ends it |
| Upcoming.CollectDescribesEntries | scripts/check_and_download.py:85-94 | every collected publication carries its entry's date, name and period, and its date is in the window |
| Upcoming.CollectCountsEntries | scripts/check_and_download.py:85-94 | each entry is collected as often as it occurs when its date is in the window, and never otherwise |
| Upcoming.CollectRaisesOnBadDate | scripts/check_and_download.py:85-86 | the loop raises exactly when some entry's date raises, and with that entry's error |
| Upcoming.InWindowByDays | scripts/check_and_download.py:80-88 | `today <= datum <= cutoff` holds exactly for a later date, or today at midnight, at most `days_ahead` days ahead |
| Upcoming.TodayIsPastAfterMidnight | scripts/check_and_download.py:80-88 | after midnight, a publication dated today is not upcoming |
| Upcoming.UpcomingWith | scripts/check_and_download.py:75-96 | no contract of its own; `Upcoming.UpcomingRaises`, `Upcoming.UpcomingResult` and `Upcoming.UpcomingStable` state its outcome for any parser |
| Upcoming.UpcomingPublications | scripts/check_and_download.py:75-96 | no contract of its own; it is `Upcoming.UpcomingWith` with the script's parser, and `Upcoming.UpcomingPublicationsRaisesValueError` states that its only exception is ValueError |
| Upcoming.UpcomingRaises | scripts/check_and_download.py:77-86 | no `entries` gives []; a cutoff outside years 1..9999 raises OverflowError; otherwise it raises exactly when some entry's date raises |
| Upcoming.UpcomingResult | scripts/check_and_download.py:77-96 | the result is sorted by date, describes its entries, and holds each entry whose date is in the window as often as it occurs, and no other |
| Upcoming.UpcomingStable | scripts/check_and_download.py:96 | publications on one date come out in calendar order |
| Upcoming.UpcomingPublicationsRaisesValueError | scripts/check_and_download.py:85-86 | with the real parser the loop's only exception is ValueError |
| Upcoming.FindUpcomingPublications | scripts/check_and_download.py:75-96 | the loop computes exactly what the specification `UpcomingPublications` gives |
| UrlPattern.ConstructUrl | scripts/check_and_download.py:122-142 | no contract of its own; `UrlPattern.ConstructUrlOutcomes` and the lemmas below state what it returns |
| UrlPattern.ConstructUrlOutcomes | scripts/check_and_download.py:122-142 | None exactly for the empty pattern; the only exception is the ValueError of a `{datum}` whose entry names a day that does not exist |
| UrlPattern.PlainPatternIsUrl | scripts/check_and_download.py:129-142 | a pattern without placeholders is returned as it is |
| UrlPattern.EmptyEntryFillsNothing | scripts/check_and_download.py:132-142 | an empty entry dict fills in nothing |
| UrlPattern.FillPeriodeReplacesEvery | scripts/check_and_download.py:132-134 | every `{periode}` becomes the entry's period |
| UrlPattern.FillDatumReplacesEvery | scripts/check_and_download.py:137-140 | every `{datum}` becomes the entry's date as YYYYMMDD when the date parses |
| UrlPattern.UnparsedDatumStays | scripts/check_and_download.py:137-142 | when the date text holds no date, `{datum}` stays in the returned URL |
| UrlPattern.EmptyPeriodeGivesEmptyUrl | scripts/check_and_download.py:207-211 | the non-empty pattern `{periode}` with an empty period gives the empty URL |
| UrlPath.PathOf | scripts/check_and_download.py:218 | no contract of its own; `UrlPath.PathOfPlainUrl` states what it gives for a URL without query, fragment or parameters |
| UrlPath.PathOfPlainUrl | scripts/check_and_download.py:218 | the path of `scheme://host/...` without query, fragment or parameters is everything from the first slash after the host |
| UrlPath.AfterSchemeOf | scripts/check_and_download.py:218 | a leading scheme and its colon are dropped |
| UrlPath.AfterHostOf | scripts/check_and_download.py:218 | `//` and a host are dropped up to the first slash |
| UrlPath.WithoutParamsOf | scripts/check_and_download.py:218 | a path whose last segment has no `;` keeps all of it |
| UrlPath.NameEndShape | scripts/check_and_download.py:219 | after the last component that is neither empty nor `.` there are only slashes and `.` components, and that component ends at a slash or at the end |
| UrlPath.FinalName | scripts/check_and_download.py:219 | `Path(path).name` is that last component: it holds no slash, is not `.`, starts at a slash or at the start, and is empty only when the path holds nothing but slashes and `.` components |
| UrlPath.FinalNameOfLast | scripts/check_and_download.py:219 | a path that ends in `/name`, with `name` neither empty nor `.`, has the final component `name` |
| UrlPath.Suffix | scripts/check_and_download.py:219 | no contract of its own; `UrlPath.SuffixShape`, `UrlPath.NoSuffixWithoutInnerDot` and `UrlPath.SuffixOfDottedName` state it |
| UrlPath.SuffixShape | scripts/check_and_download.py:219 | a suffix is empty, or a dot and at least one character without another dot that ends the name without being all of it |
| UrlPath.NoSuffixWithoutInnerDot | scripts/check_and_download.py:219 | a name with no dot except possibly as first or last character has no suffix |
| UrlPath.SuffixOfDottedName | scripts/check_and_download.py:219 | `stem.ext` with a non-empty stem and a dot-free `ext` has suffix `.ext` |
| UrlPath.Extension | scripts/check_and_download.py:218-219 | no contract of its own; `UrlPath.ExtensionShape` and `UrlPath.ExtensionOfPlainUrl` state it |
| UrlPath.SuffixOrZipShape | scripts/check_and_download.py:219 | the suffix of a name without slashes, or `.zip`, starts with a dot and holds no other dot and no slash |
| UrlPath.ExtensionShape | scripts/check_and_download.py:218-221 | the extension starts with a dot, holds no other dot and no slash |
| UrlPath.ExtensionOfPlainUrl | scripts/check_and_download.py:218-219 | a URL `scheme://host/dirs/stem.ext` without query, fragment or parameters gets the extension `.ext` |
| Download.ChooseUrl | scripts/check_and_download.py:204-213 | a URL chosen to fetch from is never empty |
| Download.DecideDue | scripts/check_and_download.py:213-231 | a due publication is fetched only from the chosen URL to its target when that target is absent, kept when it is present, and raises exactly when choosing the URL raises |
| Download.SlugShape | scripts/check_and_download.py:215 | `naam.replace(' ', '_').lower()` keeps the length and has no space and no capital |
| Download.FileName | scripts/check_and_download.py:214-221 | the file name is as long as the slug, `_`, eight digits and the extension together; the three lemmas below state its parts |
| Download.TargetFor | scripts/check_and_download.py:214-221 | no contract of its own; the target is the download directory with `Download.FileName` |
| Download.FileNameStartsWithSlug | scripts/check_and_download.py:214-221 | the file name starts with the slug and `_` |
| Download.FileNameParts | scripts/check_and_download.py:214-221 | after the slug and `_` come eight digits that decode to the publication date |
| Download.FileNameExtension | scripts/check_and_download.py:214-221 | the file name ends with the URL's extension, which starts with a dot and follows the date stamp |
| Download.DecideWith | scripts/check_and_download.py:186-237 | no contract of its own; the lemmas below state each branch of the loop body for any parser and URL chooser |
| Download.Decide | scripts/check_and_download.py:186-237 | no contract of its own; it is `Download.DecideWith` with the script's parser and URL choice, and `Download.EntryWithOtherKeysOnly`, `Download.DecideRaisesOnlyOnInvalidDate` and `Download.LoopBodyFetchesOnlyNew` are stated for it |
| Download.SkipWithoutCalendarName | scripts/check_and_download.py:187-190 | a statistic without `kalender_naam` is skipped |
| Download.EntryWithOtherKeysOnly | scripts/check_and_download.py:193-235 | an entry with none of the keys read but some other key is truthy: its date is None and the statistic is reported not yet available |
| Download.FetchOnlyWhenDue | scripts/check_and_download.py:193-225 | a fetch happens only for a found, non-empty entry whose date parses and is today or earlier, from the chosen URL, to the target for that date, when it does not exist |
| Download.DueIsFetched | scripts/check_and_download.py:195-225 | a found entry dated today or earlier, with a URL and an absent target, is fetched |
| Download.FutureIsNotAvailable | scripts/check_and_download.py:199-235 | an entry dated after today is not yet available |
| Download.ExistingTargetIsKept | scripts/check_and_download.py:223-231 | when the target exists it is not fetched again |
| Download.DueDecidesByUrl | scripts/check_and_download.py:200-213 | for a due entry the decision is the one its URL choice gives |
| Download.DecideRaises | scripts/check_and_download.py:193-208 | the loop body raises exactly when the found entry's date raises, or the date is due and choosing the URL raises |
| Download.PatternTakesPrecedence | scripts/check_and_download.py:204-211 | with `url_pattern` set, `url` plays no part, and a pattern giving an empty URL skips the statistic |
| Download.UrlUsedWithoutPattern | scripts/check_and_download.py:204-213 | without a pattern the configured `url` is used as it is |
| Download.ChooseUrlRaisesOnlyOnInvalidDate | scripts/check_and_download.py:207-208 | choosing the URL raises only when the entry's date raises |
| Download.DecideRaisesOnlyOnInvalidDate | scripts/check_and_download.py:193-208 | when every calendar entry's date is real or absent, the loop body never raises |
| Download.LoopBodyFetchesOnlyNew | scripts/check_and_download.py:221-231 | the script's loop body never fetches a file that exists |
| Download.CheckAndDownloadStatistics | scripts/check_and_download.py:167-237 | the run computes exactly what the specification `CheckAndDownload` gives |
| Download.RunStatistics | scripts/check_and_download.py:186-237 | the loop over the statistics computes exactly what the specification `RunWith` gives, for any loop body |
| Download.RunCrashEscapes | scripts/check_and_download.py:186-237 | an exception raised in the loop over statistics ends it |
| Download.RunFiles | scripts/check_and_download.py:186-237 | the files at the end are the old ones plus the targets of the successful downloads |
| Download.RunStops | scripts/check_and_download.py:186-237 | the loop stops exactly at the first statistic whose body raises, with that exception, and otherwise decides every statistic |
| Download.RunDecisions | scripts/check_and_download.py:186-237 | decision i is the loop body for statistic i with the files existing at that point |
| Download.RunTrace | scripts/check_and_download.py:186-237 | decision i is the loop body for statistic i with the files existing then; the files at the end are the old ones plus the successful downloads; the loop stops exactly at the first body that raises |
| Download.NoRefetch | scripts/check_and_download.py:223-231 | with a loop body that fetches only new files, no fetch targets a file that existed or that an earlier download created |
| Download.RunNoCrash | scripts/check_and_download.py:186-237 | when no statistic's body can raise, every statistic gets a decision |
| Download.CrashesOnlyBeforeLoop | scripts/check_and_download.py:170-186 | the run stops with an exception exactly when there are statistics and entries and the cutoff leaves years 1..9999 or some entry's date does not exist, and then nothing was decided or written |
| Download.WritesOnlyNewFiles | scripts/check_and_download.py:221-229 | the files after the run are the old ones plus the targets of successful fetches, and no fetch targets an existing file |
| CalendarTable.ParseCalendarTable | scripts/fetch_calendar.py:19-59 | the nested loops compute exactly what the specification `TablesEntries` gives |
| CalendarTable.LowerKeepsPattern | scripts/fetch_calendar.py:44 | the date pattern matches a text exactly where it matches the lower-cased text |
| CalendarTable.RowEntry | scripts/fetch_calendar.py:31-54 | no contract of its own; `CalendarTable.RowEntryIff` and `CalendarTable.ExtraCellsIgnored` state it |
| CalendarTable.RowsEntries | scripts/fetch_calendar.py:30-54 | no contract of its own; `CalendarTable.RowsEntriesAppend`, `CalendarTable.RowsEntriesCount`, `CalendarTable.RowsEntriesComeFromRows` and `CalendarTable.RowsEntriesKeepRows` state it |
| CalendarTable.TablesEntries | scripts/fetch_calendar.py:26-54 | no contract of its own; `CalendarTable.TablesAreConcatenated` and `CalendarTable.PageEntriesWellFormed` state it |
| CalendarTable.RowEntryIff | scripts/fetch_calendar.py:31-54 | a row yields an entry exactly when it has two or more cells, non-empty first two texts and a date match in the first; the entry holds those texts and the third text or "" as period |
| CalendarTable.ExtraCellsIgnored | scripts/fetch_calendar.py:35-37 | cells after the third play no part |
| CalendarTable.RowEntryHasDateMatch | scripts/fetch_calendar.py:44 | an entry's date text, lower-cased as `parse_datum_text` does, still holds a match |
| CalendarTable.RowsEntriesAppend | scripts/fetch_calendar.py:26-54 | the entries of consecutive rows are those of each part, in order |
| CalendarTable.TablesAreConcatenated | scripts/fetch_calendar.py:26-30 | the page's entries are those of all its rows, table after table |
| CalendarTable.RowsEntriesCount | scripts/fetch_calendar.py:30-54 | there are as many entries as rows that yield one, never more than rows |
| CalendarTable.RowsEntriesComeFromRows | scripts/fetch_calendar.py:30-54 | every entry is the entry of some row |
| CalendarTable.RowsEntriesKeepRows | scripts/fetch_calendar.py:30-54 | every row that yields an entry has it among the entries |
| CalendarTable.RowsEntriesFromRows | scripts/fetch_calendar.py:30-54 | every entry comes from a row, every accepted row's entry is there, and there are as many entries as accepted rows |
| CalendarTable.PageEntriesWellFormed | scripts/fetch_calendar.py:34-54 | every entry has a non-empty date text with a date match (also lower-cased), a non-empty name and a period; there are no more entries than rows |

## Left out

- `load_config`, `load_calendar` and the JSON write of `fetch_calendar`: YAML and JSON file I/O. The loaded data is a parameter (`Config`, `CalendarData`).
- `download_file` and `requests.get`: network I/O. A download succeeds unless its URL is in `failing`. A failed download that leaves a partly written file is not modelled.
- BeautifulSoup (`find_all`, `get_text(strip=True)`): HTML parsing. A page is given as the stripped texts of its cells.
- Logging and `print`: they change no state that the logic reads.
- `datetime.now()` is read as parameters: `now` for `find_upcoming_publications` and `clock[i]` for statistic `i`.
- Unicode character classes: `\d`, `\w` and `lower()` are modelled on ASCII. `\s` and `strip()` use Python's full whitespace set.
- `urlparse` is simplified. It drops fragment, query, a `scheme:` prefix, the `//host` part and the `;parameters` of the last segment. Percent-encoding is not treated.
- UrlPath.PathOf: splits `;parameters` off the last segment for every scheme. `urlparse` does so only for the schemes in its `uses_params` list (http, https, ftp and a few others), so for `s3://b/k;v.csv` the model gives `/k` where Python gives `/k;v.csv`.
- UrlPath.PathOf: does not remove tab, CR and LF from the URL, and does not strip leading C0 control characters and spaces, as `urlparse` does first.
- UrlPath.PathOf: never raises. `urlparse` raises ValueError("Invalid IPv6 URL") for a host with an unbalanced `[` or `]`, which would end the run at `scripts/check_and_download.py:218`.
- Download.CrashesOnlyBeforeLoop: "exactly when" holds for the model. In Python an IPv6 host error in a chosen URL can also end the run inside the loop, at `scripts/check_and_download.py:218`.
- `Path` normalisation of the download directory is not modelled: a target is the pair of directory text and file name.
- Configuration and calendar values that are not strings, dicts or lists: the model has no YAML null or number in a `naam`, `url` or `statistieken` slot. In the source these would raise TypeError or AttributeError.
- Keys of a configuration, calendar or calendar entry object other than those read: only whether they exist matters, for the truthiness tests (`otherKeys`).
- Dates.FormatYmd: always pads the year to four digits. A text such as "1 mei 0999" yields a year below 1000, and for such a year the platform's `%Y` may give fewer digits.
- The `try`/`except` around the dict literal at `scripts/fetch_calendar.py:48-57` cannot catch anything and is not modelled.
