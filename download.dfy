/** The loop of `check_and_download_statistics`: for each configured statistic,
    decide from the calendar whether its publication is out and which file to
    fetch where. The clock reading is a parameter; the download itself is an
    effect whose success is given by the set of URLs that fail. */
module Download {
  import opened Base
  import opened Text
  import opened Dates
  import opened Calendar
  import opened Upcoming
  import DutchDate
  import opened UrlPattern
  import opened UrlPath

  /** One item of `config['statistieken']`; an absent key is None. */
  datatype Stat = Stat(
    naam: Option<string>,
    kalenderNaam: Option<string>,
    url: Option<string>,
    urlPattern: Option<string>,
    downloadDirectory: Option<string>)

  /** The loaded configuration: its `statistieken` list when that key is
      present, and whether it has any other key. */
  datatype Config = Config(statistieken: Option<seq<Stat>>, otherKeys: bool)

  /** A configured string is truthy: present and not empty. */
  predicate Truthy(v: Option<string>) {
    v.Some? && v.value != ""
  }

  /** A file the run may write: `download_dir / name`. */
  datatype Target = Target(directory: string, name: string)

  const DefaultDirectory: string := "data/downloads"
  const DefaultName: string := "unknown"

  /** `stat.get('naam', 'unknown')`. */
  function NaamOf(stat: Stat): string {
    if stat.naam.Some? then stat.naam.value else DefaultName
  }

  /** `stat.get('download_directory', 'data/downloads')`. */
  function DirectoryOf(stat: Stat): string {
    if stat.downloadDirectory.Some? then stat.downloadDirectory.value else DefaultDirectory
  }

  /** `naam.replace(' ', '_').lower()`. */
  function Slug(naam: string): string {
    Lower(Replace(naam, " ", "_"))
  }

  /** The file name: the slug, `_`, the publication date as YYYYMMDD and the
      extension of the URL. */
  function FileName(stat: Stat, d: Date, url: string): (f: string)
    requires ValidDate(d)
    ensures |f| == |Slug(NaamOf(stat))| + 9 + |Extension(url)|
  {
    Slug(NaamOf(stat)) + "_" + FormatYmd(d) + Extension(url)
  }

  function TargetFor(stat: Stat, d: Date, url: string): Target
    requires ValidDate(d)
  {
    Target(DirectoryOf(stat), FileName(stat, d, url))
  }

  /** What the loop body does with one statistic. */
  datatype Decision =
    | NoCalendarName                      // no `kalender_naam`: skipped
    | NoCalendarEntry                     // nothing (or an empty dict) found in the calendar
    | NotYetAvailable(datum: Option<Date>) // no date, or a date after now
    | UrlNotConstructed                   // the pattern gave an empty URL
    | NoUrl                               // neither a pattern nor a URL
    | AlreadyPresent(target: Target)      // the file exists: nothing fetched
    | Fetch(url: string, target: Target)  // `download_file(url, target)`

  /** Which URL a due publication is fetched from. */
  datatype UrlChoice = PatternGaveNothing | NoUrlConfigured | Use(url: string)

  /** `url_pattern`, when set, decides the URL through `construct_url`;
      otherwise `url` does. */
  function ChooseUrl(stat: Stat, entry: Entry): (r: Outcome<UrlChoice>)
    ensures r.Returned? && r.value.Use? ==> r.value.url != ""
  {
    if Truthy(stat.urlPattern) then
      match ConstructUrl(stat.urlPattern.value, entry)
      case Raised(x) => Raised(x)
      case Returned(u) => if Truthy(u) then Returned(Use(u.value)) else Returned(PatternGaveNothing)
    else if Truthy(stat.url) then Returned(Use(stat.url.value))
    else Returned(NoUrlConfigured)
  }

  /** How the loop body chooses the URL. The decision is stated for any such
      chooser; the script itself uses ChooseUrl. */
  type UrlChooser = (Stat, Entry) -> Outcome<UrlChoice>

  /** The decision for a publication dated `d` that is due, given the URL
      choice for its entry. */
  function DecideDue(stat: Stat, d: Date, choice: Outcome<UrlChoice>, files: set<Target>): (r: Outcome<Decision>)
    requires ValidDate(d)
    ensures r.Returned? && r.value.Fetch? ==> choice == Returned(Use(r.value.url)) && r.value.target == TargetFor(stat, d, r.value.url) && r.value.target !in files
    ensures r.Returned? && r.value.AlreadyPresent? ==> choice.Returned? && choice.value.Use? && r.value.target == TargetFor(stat, d, choice.value.url) && r.value.target in files
    ensures r.Raised? <==> choice.Raised?
  {
    match choice
    case Raised(x) => Raised(x)
    case Returned(PatternGaveNothing) => Returned(UrlNotConstructed)
    case Returned(NoUrlConfigured) => Returned(NoUrl)
    case Returned(Use(url)) =>
      var target := TargetFor(stat, d, url);
      if target in files then Returned(AlreadyPresent(target)) else Returned(Fetch(url, target))
  }

  /** The calendar entry the loop body works with, when `kalender_naam` is set. */
  function FoundEntry(stat: Stat, calendar: Option<CalendarData>): Option<Entry> {
    if Truthy(stat.kalenderNaam) then FindStatistic(stat.kalenderNaam.value, calendar) else None
  }

  /** The loop body for `stat`, reading dates with `parse` and choosing URLs
      with `choose`, at clock reading `now` and with the existing files. */
  function DecideWith(parse: Parser, choose: UrlChooser, stat: Stat, calendar: Option<CalendarData>,
                      now: DateTime, files: set<Target>): Outcome<Decision>
    requires ValidParser(parse)
  {
    if !Truthy(stat.kalenderNaam) then Returned(NoCalendarName)
    else
      match FindStatistic(stat.kalenderNaam.value, calendar)
      case None => Returned(NoCalendarEntry)
      case Some(entry) =>
        if !EntryTruthy(entry) then Returned(NoCalendarEntry)
        else
          match parse(entry)
          case Raised(x) => Raised(x)
          case Returned(None) => Returned(NotYetAvailable(None))
          case Returned(Some(d)) =>
            if DtLe(Midnight(d), now) then DecideDue(stat, d, choose(stat, entry), files)
            else Returned(NotYetAvailable(Some(d)))
  }

  /** The loop body of `check_and_download_statistics` for `stat`. */
  function Decide(stat: Stat, calendar: Option<CalendarData>, now: DateTime, files: set<Target>): Outcome<Decision> {
    DecideWith(EntryDate, ChooseUrl, stat, calendar, now, files)
  }

  // ---------------------------------------------------------------------------
  // The file name

  /** Replacing a one-character pattern keeps the length and removes the pattern. */
  lemma {:induction false} ReplaceSpace(s: string)
    ensures |Replace(s, " ", "_")| == |s|
    ensures ' ' !in Replace(s, " ", "_")
    decreases |s|
  {
    if |s| >= 1 {
      ReplaceSpace(s[1..]);
      if s[..1] == " " {
        assert Replace(s, " ", "_") == "_" + Replace(s[1..], " ", "_");
      } else {
        assert s[0] != ' ';
        assert Replace(s, " ", "_") == [s[0]] + Replace(s[1..], " ", "_");
      }
    }
  }

  /** The slug has the name's length, and no space and no capital in it. */
  lemma SlugShape(naam: string)
    ensures |Slug(naam)| == |naam|
    ensures forall j :: 0 <= j < |naam| ==> Slug(naam)[j] != ' ' && !('A' <= Slug(naam)[j] <= 'Z')
  {
    ReplaceSpace(naam);
    var r := Replace(naam, " ", "_");
    forall j | 0 <= j < |naam| ensures Slug(naam)[j] != ' ' {
      assert r[j] != ' ';
    }
  }

  /** The file name starts with the slug and `_`. */
  lemma FileNameStartsWithSlug(stat: Stat, d: Date, url: string)
    requires ValidDate(d)
    ensures var f := FileName(stat, d, url);
      var k := |Slug(NaamOf(stat))|;
      && |f| >= k + 11
      && f[..k] == Slug(NaamOf(stat))
      && f[k] == '_'
  {
    ExtensionShape(url);
    JoinedParts(Slug(NaamOf(stat)), FormatYmd(d), Extension(url));
  }

  /** After the slug and `_`, the file name holds eight digits that spell the
      publication date. */
  lemma FileNameParts(stat: Stat, d: Date, url: string)
    requires ValidDate(d)
    ensures var f := FileName(stat, d, url);
      var k := |Slug(NaamOf(stat))|;
      && |f| >= k + 9
      && AllDigits(f[k + 1..k + 9]) && DecodeYmd(f[k + 1..k + 9]) == d
  {
    FormatYmdRoundTrip(d);
    JoinedParts(Slug(NaamOf(stat)), FormatYmd(d), Extension(url));
  }

  /** The file name ends with the extension of the URL, which starts with a
      dot and follows the date stamp. */
  lemma FileNameExtension(stat: Stat, d: Date, url: string)
    requires ValidDate(d)
    ensures var f := FileName(stat, d, url);
      var k := |Slug(NaamOf(stat))|;
      && |f| >= k + 11
      && f[k + 9..] == Extension(url) && f[k + 9] == '.'
  {
    ExtensionShape(url);
    JoinedParts(Slug(NaamOf(stat)), FormatYmd(d), Extension(url));
  }

  /** The parts of `a + "_" + b + c` sit where they were put. */
  lemma JoinedParts(a: string, b: string, c: string)
    ensures var f := a + "_" + b + c;
      && |f| == |a| + 1 + |b| + |c|
      && f[..|a|] == a && f[|a|] == '_'
      && f[|a| + 1..|a| + 1 + |b|] == b && f[|a| + 1 + |b|..] == c
  {
    var f := a + "_" + b + c;
    assert f[..|a|] == a;
    assert f[|a| + 1..|a| + 1 + |b|] == b;
    assert f[|a| + 1 + |b|..] == c;
  }

  // ---------------------------------------------------------------------------
  // The decision

  /** A statistic without `kalender_naam` is skipped, whatever else it has. */
  lemma SkipWithoutCalendarName(parse: Parser, choose: UrlChooser, stat: Stat, calendar: Option<CalendarData>,
                                now: DateTime, files: set<Target>)
    requires ValidParser(parse) && !Truthy(stat.kalenderNaam)
    ensures DecideWith(parse, choose, stat, calendar, now, files) == Returned(NoCalendarName)
    ensures FoundEntry(stat, calendar).None?
  {
  }

  /** An entry holding none of the keys read but some other key is truthy: it
      is kept, its missing `datum_text` reads as no date, and the statistic is
      reported not yet available. An empty entry counts as not found. */
  lemma EntryWithOtherKeysOnly(stat: Stat, calendar: Option<CalendarData>, now: DateTime, files: set<Target>)
    requires Truthy(stat.kalenderNaam)
    requires FindStatistic(stat.kalenderNaam.value, calendar) == Some(Entry(None, None, None, true))
    ensures Decide(stat, calendar, now, files) == Returned(NotYetAvailable(None))
  {
    assert EntryDate(Entry(None, None, None, true)) == Returned(None) by {
      DutchDate.ParseWithoutMatch("");
    }
  }

  /** A fetch happens only for a statistic whose calendar entry was found, whose
      date parses and is today or earlier, to the target built from that date,
      and only when the target does not exist yet. */
  lemma FetchOnlyWhenDue(parse: Parser, choose: UrlChooser, stat: Stat, calendar: Option<CalendarData>,
                         now: DateTime, files: set<Target>)
    requires ValidParser(parse) && ValidDateTime(now)
    requires DecideWith(parse, choose, stat, calendar, now, files).Returned?
    requires DecideWith(parse, choose, stat, calendar, now, files).value.Fetch?
    ensures var dec := DecideWith(parse, choose, stat, calendar, now, files).value;
      var e := FoundEntry(stat, calendar);
      && Truthy(stat.kalenderNaam)
      && e.Some? && EntryTruthy(e.value)
      && parse(e.value).Returned? && parse(e.value).value.Some?
      && DateLe(parse(e.value).value.value, now.date)
      && choose(stat, e.value) == Returned(Use(dec.url))
      && dec.target == TargetFor(stat, parse(e.value).value.value, dec.url)
      && dec.target !in files
  {
    var e := FoundEntry(stat, calendar).value;
    MidnightNotAfter(parse(e).value.value, now);
  }

  /** Conversely, a found entry dated today or earlier, with a URL to use and a
      target that does not exist, is fetched. A date of today counts at any
      time of day. */
  lemma DueIsFetched(parse: Parser, choose: UrlChooser, stat: Stat, calendar: Option<CalendarData>,
                     now: DateTime, files: set<Target>, d: Date, url: string)
    requires ValidParser(parse) && ValidDateTime(now) && Truthy(stat.kalenderNaam)
    requires FoundEntry(stat, calendar).Some? && EntryTruthy(FoundEntry(stat, calendar).value)
    requires parse(FoundEntry(stat, calendar).value) == Returned(Some(d))
    requires DateLe(d, now.date)
    requires choose(stat, FoundEntry(stat, calendar).value) == Returned(Use(url))
    requires TargetFor(stat, d, url) !in files
    ensures DecideWith(parse, choose, stat, calendar, now, files) == Returned(Fetch(url, TargetFor(stat, d, url)))
  {
    DueDecidesByUrl(parse, choose, stat, calendar, now, files, d);
  }

  /** A publication dated after today is not yet available. */
  lemma FutureIsNotAvailable(parse: Parser, choose: UrlChooser, stat: Stat, calendar: Option<CalendarData>,
                             now: DateTime, files: set<Target>, d: Date)
    requires ValidParser(parse) && ValidDateTime(now) && Truthy(stat.kalenderNaam)
    requires FoundEntry(stat, calendar).Some? && EntryTruthy(FoundEntry(stat, calendar).value)
    requires parse(FoundEntry(stat, calendar).value) == Returned(Some(d))
    requires DateLt(now.date, d)
    ensures DecideWith(parse, choose, stat, calendar, now, files) == Returned(NotYetAvailable(Some(d)))
  {
    MidnightNotAfter(d, now);
  }

  /** An existing target is never fetched again: the decision is then
      AlreadyPresent. */
  lemma ExistingTargetIsKept(parse: Parser, choose: UrlChooser, stat: Stat, calendar: Option<CalendarData>,
                             now: DateTime, files: set<Target>, d: Date, url: string)
    requires ValidParser(parse) && ValidDateTime(now) && Truthy(stat.kalenderNaam)
    requires FoundEntry(stat, calendar).Some? && EntryTruthy(FoundEntry(stat, calendar).value)
    requires parse(FoundEntry(stat, calendar).value) == Returned(Some(d))
    requires DateLe(d, now.date)
    requires choose(stat, FoundEntry(stat, calendar).value) == Returned(Use(url))
    requires TargetFor(stat, d, url) in files
    ensures DecideWith(parse, choose, stat, calendar, now, files) == Returned(AlreadyPresent(TargetFor(stat, d, url)))
  {
    DueDecidesByUrl(parse, choose, stat, calendar, now, files, d);
  }

  /** A found entry dated today or earlier is decided by its URL choice. */
  lemma DueDecidesByUrl(parse: Parser, choose: UrlChooser, stat: Stat, calendar: Option<CalendarData>,
                        now: DateTime, files: set<Target>, d: Date)
    requires ValidParser(parse) && ValidDateTime(now) && Truthy(stat.kalenderNaam)
    requires FoundEntry(stat, calendar).Some? && EntryTruthy(FoundEntry(stat, calendar).value)
    requires parse(FoundEntry(stat, calendar).value) == Returned(Some(d))
    requires DateLe(d, now.date)
    ensures ValidDate(d)
    ensures DecideWith(parse, choose, stat, calendar, now, files) ==
      DecideDue(stat, d, choose(stat, FoundEntry(stat, calendar).value), files)
  {
    MidnightNotAfter(d, now);
  }

  /** The loop body raises exactly when the found entry's date raises, or when
      the date is due and choosing the URL raises. */
  lemma DecideRaises(parse: Parser, choose: UrlChooser, stat: Stat, calendar: Option<CalendarData>,
                     now: DateTime, files: set<Target>)
    requires ValidParser(parse) && ValidDateTime(now)
    ensures var e := FoundEntry(stat, calendar);
      DecideWith(parse, choose, stat, calendar, now, files).Raised? <==>
        && e.Some? && EntryTruthy(e.value)
        && (|| parse(e.value).Raised?
            || (parse(e.value).value.Some? && DateLe(parse(e.value).value.value, now.date) && choose(stat, e.value).Raised?))
  {
    var e := FoundEntry(stat, calendar);
    if e.Some? && parse(e.value).Returned? && parse(e.value).value.Some? {
      MidnightNotAfter(parse(e.value).value.value, now);
    }
  }

  /** `url_pattern` takes precedence: when it is set, `url` plays no part, and
      a pattern that yields an empty URL skips the statistic. */
  lemma PatternTakesPrecedence(stat: Stat, entry: Entry, other: Option<string>)
    requires Truthy(stat.urlPattern)
    ensures ChooseUrl(stat, entry) == ChooseUrl(stat.(url := other), entry)
    ensures ChooseUrl(stat, entry).Returned? && ChooseUrl(stat, entry).value.Use? ==>
      ConstructUrl(stat.urlPattern.value, entry) == Returned(Some(ChooseUrl(stat, entry).value.url))
    ensures ConstructUrl(stat.urlPattern.value, entry) == Returned(Some("")) ==>
      ChooseUrl(stat, entry) == Returned(PatternGaveNothing)
  {
  }

  /** Without a pattern, the configured `url` is used as it is. */
  lemma UrlUsedWithoutPattern(stat: Stat, entry: Entry)
    requires !Truthy(stat.urlPattern) && Truthy(stat.url)
    ensures ChooseUrl(stat, entry) == Returned(Use(stat.url.value))
  {
  }

  /** Choosing the URL raises only when the entry's date text names a day that
      does not exist. */
  lemma ChooseUrlRaisesOnlyOnInvalidDate(stat: Stat, entry: Entry)
    ensures ChooseUrl(stat, entry).Raised? ==> EntryDate(entry).Raised?
  {
    if Truthy(stat.urlPattern) {
      ConstructUrlOutcomes(stat.urlPattern.value, entry);
    }
  }

  /** When every calendar entry's date text names a real day (or none), the
      loop body never raises. */
  lemma DecideRaisesOnlyOnInvalidDate(stat: Stat, calendar: Option<CalendarData>, now: DateTime, files: set<Target>)
    requires ValidDateTime(now)
    requires EntriesOf(calendar).Some? ==> forall e :: e in EntriesOf(calendar).value ==> EntryDate(e).Returned?
    ensures Decide(stat, calendar, now, files).Returned?
  {
    DecideRaises(EntryDate, ChooseUrl, stat, calendar, now, files);
    var e := FoundEntry(stat, calendar);
    if e.Some? {
      ChooseUrlRaisesOnlyOnInvalidDate(stat, e.value);
    }
  }

  // ---------------------------------------------------------------------------
  // The run over all statistics

  /** `find_upcoming_publications(calendar_data, days_ahead=7)`. */
  const DaysAhead: int := 7

  /** The loop body as the run sees it: the decision for a statistic at a clock
      reading, given the files that exist. The run is stated for any such body;
      the script uses LoopBody. */
  type Body = (Stat, DateTime, set<Target>) -> Outcome<Decision>

  /** The loop body of `check_and_download_statistics` over `calendar`. */
  function LoopBody(calendar: Option<CalendarData>): Body {
    (stat, now, files) => Decide(stat, calendar, now, files)
  }

  /** A body that never fetches a file that exists. */
  ghost predicate FetchesOnlyNew(body: Body) {
    forall stat, now, files ::
      body(stat, now, files).Returned? && body(stat, now, files).value.Fetch? ==>
        body(stat, now, files).value.target !in files
  }

  /** The script's loop body fetches only files that do not exist yet. */
  lemma LoopBodyFetchesOnlyNew(calendar: Option<CalendarData>)
    ensures FetchesOnlyNew(LoopBody(calendar))
  {
    forall stat, now, files | LoopBody(calendar)(stat, now, files).Returned? && LoopBody(calendar)(stat, now, files).value.Fetch?
      ensures LoopBody(calendar)(stat, now, files).value.target !in files
    {
    }
  }

  /** Every clock reading is a real date and time. */
  predicate AllValid(clock: seq<DateTime>) {
    forall i :: 0 <= i < |clock| ==> ValidDateTime(clock[i])
  }

  /** What the loop has done so far: the decision for each statistic handled,
      the files that exist, and the exception that ended it, if any. */
  datatype Progress = Progress(decisions: seq<Decision>, files: set<Target>, crashed: Option<Error>)

  /** A decision whose download succeeds: a fetch from a URL outside `failing`. */
  predicate Downloads(dec: Decision, failing: set<string>) {
    dec.Fetch? && dec.url !in failing
  }

  /** Carrying out a decision: a successful download creates its target. */
  function Perform(p: Progress, dec: Decision, failing: set<string>): Progress {
    Progress(p.decisions + [dec], if Downloads(dec, failing) then p.files + {dec.target} else p.files, p.crashed)
  }

  /** The loop over `stats` with loop body `body`, statistic `i` seeing clock
      reading `clock[i]`, starting from the existing `files`; downloads from
      URLs in `failing` fail and create nothing. */
  function RunWith(body: Body, stats: seq<Stat>, clock: seq<DateTime>, files: set<Target>, failing: set<string>): Progress
    requires |clock| == |stats|
    decreases |stats|
  {
    if stats == [] then Progress([], files, None)
    else
      var n := |stats| - 1;
      var p := RunWith(body, stats[..n], clock[..n], files, failing);
      if p.crashed.Some? then p
      else
        match body(stats[n], clock[n], p.files)
        case Raised(x) => p.(crashed := Some(x))
        case Returned(dec) => Perform(p, dec, failing)
  }

  /** How `check_and_download_statistics` ends. */
  datatype RunResult =
    | NoStatistics        // no configuration, or no `statistieken` in it
    | NoCalendar          // the calendar did not load or is empty
    | Ran(progress: Progress)

  /** `check_and_download_statistics()`, reading dates with `parse` for the
      upcoming list and running `body` for each statistic: `now` is the clock
      reading of `find_upcoming_publications`, `clock` those of the loop. */
  function CheckAndDownloadWith(parse: Parser, body: Body, config: Config, calendar: Option<CalendarData>,
                                now: DateTime, clock: seq<DateTime>, files: set<Target>, failing: set<string>): RunResult
    requires ValidParser(parse) && ValidDateTime(now)
    requires config.statistieken.Some? ==> |clock| == |config.statistieken.value|
  {
    if config.statistieken.None? then NoStatistics
    else if !CalendarTruthy(calendar) then NoCalendar
    else
      match UpcomingWith(parse, calendar, now, DaysAhead)
      case Raised(x) => Ran(Progress([], files, Some(x)))
      case Returned(_) => Ran(RunWith(body, config.statistieken.value, clock, files, failing))
  }

  /** `check_and_download_statistics()`. */
  function CheckAndDownload(config: Config, calendar: Option<CalendarData>, now: DateTime, clock: seq<DateTime>,
                            files: set<Target>, failing: set<string>): RunResult
    requires ValidDateTime(now)
    requires config.statistieken.Some? ==> |clock| == |config.statistieken.value|
  {
    CheckAndDownloadWith(EntryDate, LoopBody(calendar), config, calendar, now, clock, files, failing)
  }

  /** `check_and_download_statistics()`: the existing files come in as `files`,
      the files that exist afterwards come back in the result. */
  method CheckAndDownloadStatistics(config: Config, calendar: Option<CalendarData>, now: DateTime,
                                    clock: seq<DateTime>, files: set<Target>, failing: set<string>)
    returns (result: RunResult)
    requires ValidDateTime(now)
    requires config.statistieken.Some? ==> |clock| == |config.statistieken.value|
    ensures result == CheckAndDownload(config, calendar, now, clock, files, failing)
  {
    if config.statistieken.None? {
      return NoStatistics;
    }
    if !CalendarTruthy(calendar) {
      return NoCalendar;
    }
    var upcoming := FindUpcomingPublications(calendar, now, DaysAhead);
    if upcoming.Raised? {
      return Ran(Progress([], files, Some(upcoming.error)));
    }
    var progress := RunStatistics(LoopBody(calendar), config.statistieken.value, clock, files, failing);
    return Ran(progress);
  }

  /** The loop over the statistics with loop body `body`. */
  method RunStatistics(body: Body, stats: seq<Stat>, clock: seq<DateTime>, files: set<Target>, failing: set<string>)
    returns (p: Progress)
    requires |clock| == |stats|
    ensures p == RunWith(body, stats, clock, files, failing)
  {
    var decisions: seq<Decision> := [];
    var present := files;
    var i := 0;
    while i < |stats|
      invariant 0 <= i <= |stats|
      invariant RunWith(body, stats[..i], clock[..i], files, failing) == Progress(decisions, present, None)
    {
      assert stats[..i + 1][..i] == stats[..i];
      assert clock[..i + 1][..i] == clock[..i];
      var decision := body(stats[i], clock[i], present);
      if decision.Raised? {
        RunCrashEscapes(body, stats, clock, files, failing, i + 1);
        assert stats[..|stats|] == stats && clock[..|stats|] == clock;
        return Progress(decisions, present, Some(decision.error));
      }
      var dec := decision.value;
      if Downloads(dec, failing) {
        present := present + {dec.target};
      }
      decisions := decisions + [dec];
      i := i + 1;
    }
    assert stats[..i] == stats && clock[..i] == clock;
    return Progress(decisions, present, None);
  }

  /** An exception once raised in the loop ends it. */
  lemma {:induction false} RunCrashEscapes(body: Body, stats: seq<Stat>, clock: seq<DateTime>,
                                           files: set<Target>, failing: set<string>, n: nat)
    requires |clock| == |stats|
    requires n <= |stats| && RunWith(body, stats[..n], clock[..n], files, failing).crashed.Some?
    ensures RunWith(body, stats, clock, files, failing) == RunWith(body, stats[..n], clock[..n], files, failing)
    decreases |stats| - n
  {
    if n < |stats| {
      assert stats[..n + 1][..n] == stats[..n];
      assert clock[..n + 1][..n] == clock[..n];
      RunCrashEscapes(body, stats, clock, files, failing, n + 1);
    } else {
      assert stats[..n] == stats && clock[..n] == clock;
    }
  }

  /** The files the decisions create: the targets of the successful downloads. */
  function Created(decisions: seq<Decision>, failing: set<string>): set<Target> {
    set i | 0 <= i < |decisions| && Downloads(decisions[i], failing) :: decisions[i].target
  }

  lemma CreatedAppend(decisions: seq<Decision>, dec: Decision, failing: set<string>)
    ensures Created(decisions + [dec], failing) ==
      Created(decisions, failing) + (if Downloads(dec, failing) then {dec.target} else {})
  {
    var ds := decisions + [dec];
    forall t | t in Created(ds, failing)
      ensures t in Created(decisions, failing) + (if Downloads(dec, failing) then {dec.target} else {})
    {
      var i :| 0 <= i < |ds| && Downloads(ds[i], failing) && ds[i].target == t;
      if i < |decisions| {
        assert ds[i] == decisions[i];
      }
    }
    forall t | t in Created(decisions, failing) ensures t in Created(ds, failing) {
      var i :| 0 <= i < |decisions| && Downloads(decisions[i], failing) && decisions[i].target == t;
      assert ds[i] == decisions[i];
    }
    if Downloads(dec, failing) {
      assert ds[|decisions|] == dec;
    }
  }

  /** The files after the loop are the files from before plus the ones the
      successful downloads created. */
  lemma {:induction false} RunFiles(body: Body, stats: seq<Stat>, clock: seq<DateTime>, files: set<Target>, failing: set<string>)
    requires |clock| == |stats|
    ensures var p := RunWith(body, stats, clock, files, failing);
      p.files == files + Created(p.decisions, failing)
    decreases |stats|
  {
    if stats != [] {
      var n := |stats| - 1;
      var q := RunWith(body, stats[..n], clock[..n], files, failing);
      RunFiles(body, stats[..n], clock[..n], files, failing);
      if q.crashed.None? {
        var r := body(stats[n], clock[n], q.files);
        if r.Returned? {
          CreatedAppend(q.decisions, r.value, failing);
        }
      }
    }
  }

  /** The loop stops at the first statistic whose body raises, and only there. */
  lemma {:induction false} RunStops(body: Body, stats: seq<Stat>, clock: seq<DateTime>, files: set<Target>, failing: set<string>)
    requires |clock| == |stats|
    ensures var p := RunWith(body, stats, clock, files, failing);
      && (p.crashed.None? <==> |p.decisions| == |stats|)
      && (p.crashed.Some? ==>
            && |p.decisions| < |stats|
            && body(stats[|p.decisions|], clock[|p.decisions|], p.files) == Raised(p.crashed.value))
    decreases |stats|
  {
    if stats != [] {
      var n := |stats| - 1;
      var q := RunWith(body, stats[..n], clock[..n], files, failing);
      RunStops(body, stats[..n], clock[..n], files, failing);
      if q.crashed.Some? {
        assert stats[|q.decisions|] == stats[..n][|q.decisions|];
        assert clock[|q.decisions|] == clock[..n][|q.decisions|];
      }
    }
  }

  /** Decision `i` is the loop body for statistic `i` with the files that exist
      at that point: the files from before plus the ones the earlier downloads
      created. */
  lemma {:induction false} RunDecisions(body: Body, stats: seq<Stat>, clock: seq<DateTime>, files: set<Target>, failing: set<string>)
    requires |clock| == |stats|
    ensures var ds := RunWith(body, stats, clock, files, failing).decisions;
      && |ds| <= |stats|
      && forall i :: 0 <= i < |ds| ==> body(stats[i], clock[i], files + Created(ds[..i], failing)) == Returned(ds[i])
    decreases |stats|
  {
    if stats != [] {
      var n := |stats| - 1;
      var ds := RunWith(body, stats, clock, files, failing).decisions;
      var q := RunWith(body, stats[..n], clock[..n], files, failing);
      RunDecisions(body, stats[..n], clock[..n], files, failing);
      RunStops(body, stats[..n], clock[..n], files, failing);
      var r := body(stats[n], clock[n], q.files);
      if q.crashed.None? && r.Returned? {
        RunFiles(body, stats[..n], clock[..n], files, failing);
        assert ds == q.decisions + [r.value];
        assert ds[..n] == q.decisions;
      } else {
        assert ds == q.decisions;
      }
      forall i | 0 <= i < |q.decisions|
        ensures body(stats[i], clock[i], files + Created(ds[..i], failing)) == Returned(ds[i])
      {
        assert ds[..i] == q.decisions[..i];
        assert stats[i] == stats[..n][i] && clock[i] == clock[..n][i];
      }
    }
  }

  /** What the loop does, statistic by statistic: decision `i` is the loop body
      for statistic `i` with the files that exist at that point, which are the
      files from before plus the ones the earlier downloads created; the loop
      stops at the first statistic whose body raises, and only there. */
  lemma RunTrace(body: Body, stats: seq<Stat>, clock: seq<DateTime>, files: set<Target>, failing: set<string>)
    requires |clock| == |stats|
    ensures var p := RunWith(body, stats, clock, files, failing);
      && p.files == files + Created(p.decisions, failing)
      && (p.crashed.None? <==> |p.decisions| == |stats|)
      && (p.crashed.Some? ==>
            && |p.decisions| < |stats|
            && body(stats[|p.decisions|], clock[|p.decisions|], p.files) == Raised(p.crashed.value))
      && forall i :: 0 <= i < |p.decisions| ==>
           body(stats[i], clock[i], files + Created(p.decisions[..i], failing)) == Returned(p.decisions[i])
  {
    RunFiles(body, stats, clock, files, failing);
    RunStops(body, stats, clock, files, failing);
    RunDecisions(body, stats, clock, files, failing);
  }

  /** With a body that fetches only new files, no file is fetched twice and no
      file that existed is fetched: a fetch's target is neither an existing
      file nor one an earlier download created. */
  lemma NoRefetch(body: Body, stats: seq<Stat>, clock: seq<DateTime>, files: set<Target>, failing: set<string>)
    requires |clock| == |stats| && FetchesOnlyNew(body)
    ensures var ds := RunWith(body, stats, clock, files, failing).decisions;
      forall i :: 0 <= i < |ds| && ds[i].Fetch? ==>
        && ds[i].target !in files + Created(ds[..i], failing)
        && ds[i].target !in files
        && forall j :: 0 <= j < i && Downloads(ds[j], failing) ==> ds[j].target != ds[i].target
  {
    var ds := RunWith(body, stats, clock, files, failing).decisions;
    RunDecisions(body, stats, clock, files, failing);
    forall i | 0 <= i < |ds| && ds[i].Fetch?
      ensures ds[i].target !in files + Created(ds[..i], failing)
      ensures ds[i].target !in files
      ensures forall j :: 0 <= j < i && Downloads(ds[j], failing) ==> ds[j].target != ds[i].target
    {
      var before := files + Created(ds[..i], failing);
      assert body(stats[i], clock[i], before) == Returned(ds[i]);
      assert ds[i].target !in before;
      forall j | 0 <= j < i && Downloads(ds[j], failing) ensures ds[j].target != ds[i].target {
        CreatedByEarlier(ds, i, j, failing);
      }
    }
  }

  /** An earlier successful download's target is among the files created before. */
  lemma CreatedByEarlier(ds: seq<Decision>, i: nat, j: nat, failing: set<string>)
    requires j < i <= |ds| && Downloads(ds[j], failing)
    ensures ds[j].target in Created(ds[..i], failing)
  {
    assert ds[..i][j] == ds[j];
  }

  /** The loop runs to the end when no statistic's body can raise. */
  lemma RunNoCrash(body: Body, stats: seq<Stat>, clock: seq<DateTime>, files: set<Target>, failing: set<string>)
    requires |clock| == |stats|
    requires forall i, f :: 0 <= i < |stats| ==> body(stats[i], clock[i], f).Returned?
    ensures RunWith(body, stats, clock, files, failing).crashed.None?
    ensures |RunWith(body, stats, clock, files, failing).decisions| == |stats|
  {
    RunStops(body, stats, clock, files, failing);
  }

  /** The script stops with an exception exactly when there are statistics and
      calendar entries and either the seven-day cutoff leaves years 1..9999 or
      some entry's date text names a day that does not exist; it is then
      `find_upcoming_publications` that raises, before any statistic is
      handled or any file is written. */
  lemma CrashesOnlyBeforeLoop(config: Config, calendar: Option<CalendarData>, now: DateTime, clock: seq<DateTime>,
                              files: set<Target>, failing: set<string>)
    requires ValidDateTime(now) && AllValid(clock)
    requires config.statistieken.Some? ==> |clock| == |config.statistieken.value|
    ensures var r := CheckAndDownload(config, calendar, now, clock, files, failing);
      (r.Ran? && r.progress.crashed.Some?) <==>
        && config.statistieken.Some? && EntriesOf(calendar).Some?
        && (|| !CutoffInRange(now, DaysAhead)
            || exists k :: 0 <= k < |EntriesOf(calendar).value| && EntryDate(EntriesOf(calendar).value[k]).Raised?)
    ensures var r := CheckAndDownload(config, calendar, now, clock, files, failing);
      r.Ran? && r.progress.crashed.Some? ==> r.progress.decisions == [] && r.progress.files == files
  {
    UpcomingRaises(EntryDate, calendar, now, DaysAhead);
    if config.statistieken.Some? && CalendarTruthy(calendar) && UpcomingWith(EntryDate, calendar, now, DaysAhead).Returned? {
      var stats := config.statistieken.value;
      var body := LoopBody(calendar);
      forall i, f | 0 <= i < |stats| ensures body(stats[i], clock[i], f).Returned? {
        DecideRaisesOnlyOnInvalidDate(stats[i], calendar, clock[i], f);
      }
      RunNoCrash(body, stats, clock, files, failing);
    }
  }

  /** The script writes only new files, each the target of a successful fetch,
      and never fetches a file that exists. */
  lemma WritesOnlyNewFiles(config: Config, calendar: Option<CalendarData>, now: DateTime, clock: seq<DateTime>,
                           files: set<Target>, failing: set<string>)
    requires ValidDateTime(now)
    requires config.statistieken.Some? ==> |clock| == |config.statistieken.value|
    ensures var r := CheckAndDownload(config, calendar, now, clock, files, failing);
      r.Ran? ==>
        && r.progress.files == files + Created(r.progress.decisions, failing)
        && forall i :: 0 <= i < |r.progress.decisions| && r.progress.decisions[i].Fetch? ==>
             r.progress.decisions[i].target !in files + Created(r.progress.decisions[..i], failing)
  {
    if config.statistieken.Some? && CalendarTruthy(calendar) && UpcomingWith(EntryDate, calendar, now, DaysAhead).Returned? {
      var stats := config.statistieken.value;
      LoopBodyFetchesOnlyNew(calendar);
      RunFiles(LoopBody(calendar), stats, clock, files, failing);
      NoRefetch(LoopBody(calendar), stats, clock, files, failing);
    }
  }
}
