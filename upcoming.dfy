/** `find_upcoming_publications`: the calendar entries whose date falls between
    now and `days_ahead` days later, in date order. */
module Upcoming {
  import opened Base
  import opened Dates
  import opened DutchDate
  import opened Calendar

  /** One element of the returned list: the keys `datum`, `naam`, `periode`
      and `entry` of the dict built in the loop. */
  datatype Publication = Publication(datum: Date, naam: string, periode: string, entry: Entry)

  /** `parse_datum_text(entry.get('datum_text', ''))`. */
  function EntryDate(e: Entry): (r: Outcome<Option<Date>>)
    ensures r.Returned? && r.value.Some? ==> ValidDate(r.value.value)
    ensures r.Raised? ==> r.error == ValueError
  {
    ParseDatumText(Get(e.datumText))
  }

  /** How the loop reads an entry's date. The loop is stated for any such
      parser whose dates are real dates; the function itself uses EntryDate. */
  type Parser = Entry -> Outcome<Option<Date>>

  ghost predicate ValidParser(parse: Parser) {
    forall e :: parse(e).Returned? && parse(e).value.Some? ==> ValidDate(parse(e).value.value)
  }

  /** `today + timedelta(days=days_ahead)` lies within years 1..9999; otherwise
      the addition raises OverflowError. */
  predicate CutoffInRange(now: DateTime, daysAhead: int)
    requires ValidDateTime(now)
  {
    1 <= Ordinal(now.date) + daysAhead <= MaxOrdinal
  }

  /** `today <= datum <= cutoff_date`, with `datum` at midnight and the cutoff
      `days_ahead` days after `now` to the microsecond. */
  predicate InWindow(now: DateTime, d: Date, daysAhead: int)
    requires ValidDateTime(now) && ValidDate(d)
  {
    DtLe(now, Midnight(d)) && Instant(Midnight(d)) <= Instant(now) + daysAhead * MicrosPerDay
  }

  /** The entry's date parses and falls in the window: the loop appends it. */
  predicate Admits(parse: Parser, now: DateTime, daysAhead: int, e: Entry)
    requires ValidParser(parse) && ValidDateTime(now)
  {
    var p := parse(e);
    p.Returned? && p.value.Some? && InWindow(now, p.value.value, daysAhead)
  }

  /** The dict the loop appends for entry `e` with date `d`. */
  function PublicationOf(e: Entry, d: Date): (p: Publication)
    ensures p.entry == e && p.datum == d
  {
    Publication(d, Get(e.naam), Get(e.periode), e)
  }

  /** One pass of the loop body over entry `e`, given the list so far. */
  function Step(parse: Parser, upcoming: seq<Publication>, e: Entry, now: DateTime, daysAhead: int): Outcome<seq<Publication>>
    requires ValidParser(parse) && ValidDateTime(now)
  {
    match parse(e)
    case Raised(x) => Raised(x)
    case Returned(None) => Returned(upcoming)
    case Returned(Some(d)) =>
      if InWindow(now, d, daysAhead) then Returned(upcoming + [PublicationOf(e, d)]) else Returned(upcoming)
  }

  /** The list `upcoming` after the loop has run over `es`, or the exception
      that escaped from it. */
  function Collect(parse: Parser, es: seq<Entry>, now: DateTime, daysAhead: int): Outcome<seq<Publication>>
    requires ValidParser(parse) && ValidDateTime(now)
    decreases |es|
  {
    if es == [] then Returned([])
    else
      match Collect(parse, es[..|es| - 1], now, daysAhead)
      case Raised(x) => Raised(x)
      case Returned(upcoming) => Step(parse, upcoming, es[|es| - 1], now, daysAhead)
  }

  /** The entries the publications were built from, in list order. */
  function EntriesIn(s: seq<Publication>): (r: seq<Entry>)
    ensures |r| == |s|
    decreases |s|
  {
    if s == [] then [] else EntriesIn(s[..|s| - 1]) + [s[|s| - 1].entry]
  }

  // ---------------------------------------------------------------------------
  // `sorted(upcoming, key=lambda x: x['datum'])`

  predicate SortedByDate(s: seq<Publication>) {
    forall i, j :: 0 <= i < j < |s| ==> DateLe(s[i].datum, s[j].datum)
  }

  /** The publications of `s` dated `d`, in the order of `s`. */
  function OnDate(s: seq<Publication>, d: Date): (r: seq<Publication>)
    ensures |r| <= |s|
    decreases |s|
  {
    if s == [] then []
    else OnDate(s[..|s| - 1], d) + (if s[|s| - 1].datum == d then [s[|s| - 1]] else [])
  }

  /** Inserts `x` after every element whose date is not later than its own. */
  function Insert(t: seq<Publication>, x: Publication): (r: seq<Publication>)
    ensures |r| == |t| + 1
    decreases |t|
  {
    if t == [] || DateLe(t[|t| - 1].datum, x.datum) then t + [x]
    else Insert(t[..|t| - 1], x) + [t[|t| - 1]]
  }

  /** Python's `sorted` with the date as key: a stable insertion sort. */
  function SortByDate(s: seq<Publication>): (r: seq<Publication>)
    ensures |r| == |s|
    decreases |s|
  {
    if s == [] then [] else Insert(SortByDate(s[..|s| - 1]), s[|s| - 1])
  }

  lemma {:induction false} InsertPermutes(t: seq<Publication>, x: Publication)
    ensures multiset(Insert(t, x)) == multiset(t) + multiset{x}
    decreases |t|
  {
    if t != [] && !DateLe(t[|t| - 1].datum, x.datum) {
      var init, last := t[..|t| - 1], t[|t| - 1];
      InsertPermutes(init, x);
      assert Insert(t, x) == Insert(init, x) + [last];
      assert t == init + [last];
    }
  }

  lemma {:induction false} InsertKeepsEntries(t: seq<Publication>, x: Publication)
    ensures multiset(EntriesIn(Insert(t, x))) == multiset(EntriesIn(t)) + multiset{x.entry}
    decreases |t|
  {
    if t == [] || DateLe(t[|t| - 1].datum, x.datum) {
      assert (t + [x])[..|t|] == t;
    } else {
      var init, last := t[..|t| - 1], t[|t| - 1];
      InsertKeepsEntries(init, x);
      var r := Insert(init, x) + [last];
      assert r[..|r| - 1] == Insert(init, x);
      assert EntriesIn(r) == EntriesIn(Insert(init, x)) + [last.entry];
      assert EntriesIn(t) == EntriesIn(init) + [last.entry];
    }
  }

  /** Every element of `t` is dated no later than `last`, when `t + [last]` is sorted. */
  lemma SortedBeforeLast(t: seq<Publication>, i: nat)
    requires SortedByDate(t) && 0 <= i < |t|
    ensures DateLe(t[i].datum, t[|t| - 1].datum)
  {
    if i < |t| - 1 {
      assert DateLe(t[i].datum, t[|t| - 1].datum);
    }
  }

  lemma {:induction false} InsertSorted(t: seq<Publication>, x: Publication)
    requires SortedByDate(t)
    ensures SortedByDate(Insert(t, x))
    decreases |t|
  {
    if t != [] && !DateLe(t[|t| - 1].datum, x.datum) {
      var init, last := t[..|t| - 1], t[|t| - 1];
      assert SortedByDate(init) by {
        forall i, j | 0 <= i < j < |init| ensures DateLe(init[i].datum, init[j].datum) {
          assert init[i] == t[i] && init[j] == t[j];
        }
      }
      InsertSorted(init, x);
      InsertPermutes(init, x);
      var front := Insert(init, x);
      forall i | 0 <= i < |front|
        ensures DateLe(front[i].datum, last.datum)
      {
        assert front[i] in multiset(init) + multiset{x};
        if front[i] in init {
          var k :| 0 <= k < |init| && init[k] == front[i];
          SortedBeforeLast(t, k);
        }
      }
      var r := front + [last];
      assert Insert(t, x) == r;
      forall i, j | 0 <= i < j < |r| ensures DateLe(r[i].datum, r[j].datum) {
        if j < |r| - 1 {
          assert r[i] == front[i] && r[j] == front[j];
        }
      }
    }
  }

  lemma {:induction false} InsertKeepsOrderOnDate(t: seq<Publication>, x: Publication, d: Date)
    ensures OnDate(Insert(t, x), d) == OnDate(t, d) + (if x.datum == d then [x] else [])
    decreases |t|
  {
    if t == [] || DateLe(t[|t| - 1].datum, x.datum) {
      assert (t + [x])[..|t|] == t;
    } else {
      var init, last := t[..|t| - 1], t[|t| - 1];
      InsertKeepsOrderOnDate(init, x, d);
      var r := Insert(init, x) + [last];
      assert r[..|r| - 1] == Insert(init, x);
      assert last.datum != x.datum;
    }
  }

  /** The sort returns its input in date order. */
  lemma {:induction false} SortByDateSorts(s: seq<Publication>)
    ensures SortedByDate(SortByDate(s))
    decreases |s|
  {
    if s != [] {
      SortByDateSorts(s[..|s| - 1]);
      InsertSorted(SortByDate(s[..|s| - 1]), s[|s| - 1]);
    }
  }

  /** The sort returns a permutation of its input. */
  lemma {:induction false} SortByDatePermutes(s: seq<Publication>)
    ensures multiset(SortByDate(s)) == multiset(s)
    decreases |s|
  {
    if s != [] {
      var init, last := s[..|s| - 1], s[|s| - 1];
      SortByDatePermutes(init);
      InsertPermutes(SortByDate(init), last);
      assert s == init + [last];
    }
  }

  /** Sorting keeps the multiset of entries the publications came from. */
  lemma {:induction false} SortByDateKeepsEntries(s: seq<Publication>)
    ensures multiset(EntriesIn(SortByDate(s))) == multiset(EntriesIn(s))
    decreases |s|
  {
    if s != [] {
      var init, last := s[..|s| - 1], s[|s| - 1];
      SortByDateKeepsEntries(init);
      InsertKeepsEntries(SortByDate(init), last);
      assert EntriesIn(s) == EntriesIn(init) + [last.entry];
    }
  }

  /** The sort is stable: publications on the same date keep their list order. */
  lemma {:induction false} SortByDateIsStable(s: seq<Publication>, d: Date)
    ensures OnDate(SortByDate(s), d) == OnDate(s, d)
    decreases |s|
  {
    if s != [] {
      var init, last := s[..|s| - 1], s[|s| - 1];
      SortByDateIsStable(init, d);
      InsertKeepsOrderOnDate(SortByDate(init), last, d);
    }
  }

  // ---------------------------------------------------------------------------
  // The whole function

  /** `find_upcoming_publications(calendar_data, days_ahead)` at clock reading
      `now`, reading dates with `parse`. */
  function UpcomingWith(parse: Parser, calendar: Option<CalendarData>, now: DateTime, daysAhead: int): Outcome<seq<Publication>>
    requires ValidParser(parse) && ValidDateTime(now)
  {
    match EntriesOf(calendar)
    case None => Returned([])
    case Some(es) =>
      if !CutoffInRange(now, daysAhead) then Raised(OverflowError)
      else
        match Collect(parse, es, now, daysAhead)
        case Raised(x) => Raised(x)
        case Returned(upcoming) => Returned(SortByDate(upcoming))
  }

  /** `find_upcoming_publications(calendar_data, days_ahead)` at clock reading `now`. */
  function UpcomingPublications(calendar: Option<CalendarData>, now: DateTime, daysAhead: int): Outcome<seq<Publication>>
    requires ValidDateTime(now)
  {
    UpcomingWith(EntryDate, calendar, now, daysAhead)
  }

  /** One more round of the loop: the entry at `i` is handled by `Step`. */
  lemma CollectNext(parse: Parser, es: seq<Entry>, i: nat, upcoming: seq<Publication>, now: DateTime, daysAhead: int)
    requires ValidParser(parse) && ValidDateTime(now)
    requires i < |es| && Collect(parse, es[..i], now, daysAhead) == Returned(upcoming)
    ensures Collect(parse, es[..i + 1], now, daysAhead) == Step(parse, upcoming, es[i], now, daysAhead)
  {
    assert es[..i + 1][..i] == es[..i];
  }

  /** An exception once raised in the loop escapes from it. */
  lemma {:induction false} CollectRaisedEscapes(parse: Parser, es: seq<Entry>, n: nat, now: DateTime, daysAhead: int)
    requires ValidParser(parse) && ValidDateTime(now)
    requires n <= |es| && Collect(parse, es[..n], now, daysAhead).Raised?
    ensures Collect(parse, es, now, daysAhead) == Collect(parse, es[..n], now, daysAhead)
    decreases |es| - n
  {
    if n < |es| {
      assert es[..n + 1][..n] == es[..n];
      CollectRaisedEscapes(parse, es, n + 1, now, daysAhead);
    } else {
      assert es[..n] == es;
    }
  }

  /** `p` is the dict the loop builds for its entry: the entry's date parses to
      `p.datum`, that date is in the window, and the name and period are the
      entry's own (or ''). */
  predicate Describes(parse: Parser, now: DateTime, daysAhead: int, p: Publication)
    requires ValidParser(parse) && ValidDateTime(now)
  {
    && parse(p.entry) == Returned(Some(p.datum))
    && Admits(parse, now, daysAhead, p.entry)
    && p.naam == Get(p.entry.naam) && p.periode == Get(p.entry.periode)
  }

  /** Every collected publication describes its own entry. */
  lemma {:induction false} CollectDescribesEntries(parse: Parser, es: seq<Entry>, now: DateTime, daysAhead: int)
    requires ValidParser(parse) && ValidDateTime(now) && Collect(parse, es, now, daysAhead).Returned?
    ensures forall p :: p in Collect(parse, es, now, daysAhead).value ==> Describes(parse, now, daysAhead, p)
    decreases |es|
  {
    if es != [] {
      CollectDescribesEntries(parse, es[..|es| - 1], now, daysAhead);
    }
  }

  /** An admitted entry is collected as often as it occurs in the calendar, any
      other entry never: nothing is duplicated, dropped or invented. */
  lemma {:induction false} CollectCountsEntries(parse: Parser, es: seq<Entry>, now: DateTime, daysAhead: int, e: Entry)
    requires ValidParser(parse) && ValidDateTime(now) && Collect(parse, es, now, daysAhead).Returned?
    ensures multiset(EntriesIn(Collect(parse, es, now, daysAhead).value))[e] ==
      if Admits(parse, now, daysAhead, e) then multiset(es)[e] else 0
    decreases |es|
  {
    if es != [] {
      var init, last := es[..|es| - 1], es[|es| - 1];
      CollectCountsEntries(parse, init, now, daysAhead, e);
      assert es == init + [last];
      assert multiset(es) == multiset(init) + multiset{last};
      assert multiset(es)[e] == multiset(init)[e] + (if last == e then 1 else 0);
      var u := Collect(parse, init, now, daysAhead).value;
      assert Collect(parse, es, now, daysAhead) == Step(parse, u, last, now, daysAhead);
      if Admits(parse, now, daysAhead, last) {
        var p := PublicationOf(last, parse(last).value.value);
        assert Collect(parse, es, now, daysAhead).value == u + [p];
        assert (u + [p])[..|u|] == u;
        assert EntriesIn(u + [p]) == EntriesIn(u) + [last];
        assert multiset(EntriesIn(u + [p])) == multiset(EntriesIn(u)) + multiset{last};
      } else {
        assert Collect(parse, es, now, daysAhead).value == u;
      }
    }
  }

  /** The loop raises exactly when reading some entry's date raises, and then
      with that entry's exception. */
  lemma {:induction false} CollectRaisesOnBadDate(parse: Parser, es: seq<Entry>, now: DateTime, daysAhead: int)
    requires ValidParser(parse) && ValidDateTime(now)
    ensures Collect(parse, es, now, daysAhead).Raised? <==> exists k :: 0 <= k < |es| && parse(es[k]).Raised?
    ensures Collect(parse, es, now, daysAhead).Raised? ==>
      exists k :: 0 <= k < |es| && parse(es[k]) == Raised(Collect(parse, es, now, daysAhead).error)
    decreases |es|
  {
    if es != [] {
      var init := es[..|es| - 1];
      CollectRaisesOnBadDate(parse, init, now, daysAhead);
      if Collect(parse, init, now, daysAhead).Raised? {
        var k :| 0 <= k < |init| && parse(init[k]) == Raised(Collect(parse, init, now, daysAhead).error);
        assert es[k] == init[k];
      } else {
        assert forall k :: 0 <= k < |init| ==> init[k] == es[k];
      }
    }
  }

  /** The window in whole days: a date is in it when it is after today, or today
      itself only at exactly midnight, and at most `days_ahead` days ahead. */
  lemma InWindowByDays(now: DateTime, d: Date, daysAhead: int)
    requires ValidDateTime(now) && ValidDate(d)
    ensures InWindow(now, d, daysAhead) <==>
      (DateLt(now.date, d) || (d == now.date && now.micros == 0)) && Ordinal(d) <= Ordinal(now.date) + daysAhead
  {
    MidnightNotBefore(d, now);
    var k := Ordinal(d) - Ordinal(now.date) - daysAhead;
    assert Instant(Midnight(d)) - (Instant(now) + daysAhead * MicrosPerDay) == k * MicrosPerDay - now.micros;
    if k <= 0 {
      assert k * MicrosPerDay <= 0;
    } else {
      assert k * MicrosPerDay >= MicrosPerDay;
    }
  }

  /** After midnight, a publication dated today is no longer upcoming. */
  lemma TodayIsPastAfterMidnight(now: DateTime, daysAhead: int)
    requires ValidDateTime(now) && now.micros > 0
    ensures !InWindow(now, now.date, daysAhead)
  {
    InWindowByDays(now, now.date, daysAhead);
  }

  /** When `find_upcoming_publications` raises: never without a calendar;
      OverflowError when the cutoff is past year 9999; otherwise exactly when
      reading some entry's date raises, and with that exception. */
  lemma UpcomingRaises(parse: Parser, calendar: Option<CalendarData>, now: DateTime, daysAhead: int)
    requires ValidParser(parse) && ValidDateTime(now)
    ensures EntriesOf(calendar).None? ==> UpcomingWith(parse, calendar, now, daysAhead) == Returned([])
    ensures EntriesOf(calendar).Some? && !CutoffInRange(now, daysAhead) ==>
      UpcomingWith(parse, calendar, now, daysAhead) == Raised(OverflowError)
    ensures EntriesOf(calendar).Some? && CutoffInRange(now, daysAhead) ==>
      (UpcomingWith(parse, calendar, now, daysAhead).Raised? <==>
       exists k :: 0 <= k < |EntriesOf(calendar).value| && parse(EntriesOf(calendar).value[k]).Raised?)
    ensures EntriesOf(calendar).Some? && CutoffInRange(now, daysAhead) && UpcomingWith(parse, calendar, now, daysAhead).Raised? ==>
      exists k :: 0 <= k < |EntriesOf(calendar).value| &&
        parse(EntriesOf(calendar).value[k]) == Raised(UpcomingWith(parse, calendar, now, daysAhead).error)
  {
    if EntriesOf(calendar).Some? {
      CollectRaisesOnBadDate(parse, EntriesOf(calendar).value, now, daysAhead);
    }
  }

  /** What `find_upcoming_publications` returns: the admitted publications in
      date order, each describing its entry, each entry as often as it occurs
      in the calendar and no other entry. */
  lemma UpcomingResult(parse: Parser, calendar: Option<CalendarData>, now: DateTime, daysAhead: int)
    requires ValidParser(parse) && ValidDateTime(now)
    requires EntriesOf(calendar).Some? && UpcomingWith(parse, calendar, now, daysAhead).Returned?
    ensures SortedByDate(UpcomingWith(parse, calendar, now, daysAhead).value)
    ensures forall p :: p in UpcomingWith(parse, calendar, now, daysAhead).value ==> Describes(parse, now, daysAhead, p)
    ensures forall e :: multiset(EntriesIn(UpcomingWith(parse, calendar, now, daysAhead).value))[e] ==
                        if Admits(parse, now, daysAhead, e) then multiset(EntriesOf(calendar).value)[e] else 0
  {
    var es := EntriesOf(calendar).value;
    var u := Collect(parse, es, now, daysAhead).value;
    SortByDateSorts(u);
    SortByDatePermutes(u);
    SortByDateKeepsEntries(u);
    CollectDescribesEntries(parse, es, now, daysAhead);
    forall p | p in SortByDate(u) ensures Describes(parse, now, daysAhead, p) {
      assert p in multiset(SortByDate(u));
    }
    forall e ensures multiset(EntriesIn(SortByDate(u)))[e] ==
        if Admits(parse, now, daysAhead, e) then multiset(es)[e] else 0 {
      CollectCountsEntries(parse, es, now, daysAhead, e);
    }
  }

  /** Publications on one date come out in the order the loop collected them. */
  lemma UpcomingStable(parse: Parser, calendar: Option<CalendarData>, now: DateTime, daysAhead: int, d: Date)
    requires ValidParser(parse) && ValidDateTime(now)
    requires EntriesOf(calendar).Some? && UpcomingWith(parse, calendar, now, daysAhead).Returned?
    ensures OnDate(UpcomingWith(parse, calendar, now, daysAhead).value, d) ==
      OnDate(Collect(parse, EntriesOf(calendar).value, now, daysAhead).value, d)
  {
    SortByDateIsStable(Collect(parse, EntriesOf(calendar).value, now, daysAhead).value, d);
  }

  /** With the real date parser the only exception from the loop is ValueError. */
  lemma UpcomingPublicationsRaisesValueError(calendar: Option<CalendarData>, now: DateTime, daysAhead: int)
    requires ValidDateTime(now) && EntriesOf(calendar).Some? && CutoffInRange(now, daysAhead)
    ensures UpcomingPublications(calendar, now, daysAhead).Raised? ==>
      UpcomingPublications(calendar, now, daysAhead) == Raised(ValueError)
  {
    UpcomingRaises(EntryDate, calendar, now, daysAhead);
  }

  /** `find_upcoming_publications(calendar_data, days_ahead)`, reading the clock
      once as `now`. */
  method FindUpcomingPublications(calendar: Option<CalendarData>, now: DateTime, daysAhead: int)
    returns (r: Outcome<seq<Publication>>)
    requires ValidDateTime(now)
    ensures r == UpcomingPublications(calendar, now, daysAhead)
  {
    if EntriesOf(calendar).None? {
      return Returned([]);
    }
    var entries := EntriesOf(calendar).value;
    if !CutoffInRange(now, daysAhead) {
      return Raised(OverflowError);
    }
    var upcoming: seq<Publication> := [];
    var i := 0;
    while i < |entries|
      invariant 0 <= i <= |entries|
      invariant Collect(EntryDate, entries[..i], now, daysAhead) == Returned(upcoming)
    {
      var entry := entries[i];
      CollectNext(EntryDate, entries, i, upcoming, now, daysAhead);
      var datum := EntryDate(entry);
      if datum.Raised? {
        CollectRaisedEscapes(EntryDate, entries, i + 1, now, daysAhead);
        return Raised(datum.error);
      }
      if datum.value.Some? && InWindow(now, datum.value.value, daysAhead) {
        upcoming := upcoming + [PublicationOf(entry, datum.value.value)];
      }
      i := i + 1;
    }
    assert entries[..i] == entries;
    return Returned(SortByDate(upcoming));
  }
}
