/** `construct_url`: fills the placeholders `{periode}` and `{datum}` of a URL
    pattern from a calendar entry. */
module UrlPattern {
  import opened Base
  import opened Text
  import opened Dates
  import opened DutchDate
  import opened Calendar

  const PeriodePlaceholder: string := "{periode}"
  const DatumPlaceholder: string := "{datum}"

  /** The first step: every `{periode}` becomes the entry's period (or ''), when
      the pattern has one and the entry is a non-empty dict. */
  function FillPeriode(url: string, entry: Entry): string {
    if Contains(url, PeriodePlaceholder) && EntryTruthy(entry)
    then Replace(url, PeriodePlaceholder, Get(entry.periode))
    else url
  }

  /** The second step: every `{datum}` becomes the entry's date as YYYYMMDD when
      the date text parses; a text without a date leaves the URL as it is, and a
      date that does not exist raises. */
  function FillDatum(url: string, entry: Entry): Outcome<string> {
    if Contains(url, DatumPlaceholder) && EntryTruthy(entry) then
      match ParseDatumText(Get(entry.datumText))
      case Raised(x) => Raised(x)
      case Returned(None) => Returned(url)
      case Returned(Some(d)) => Returned(Replace(url, DatumPlaceholder, FormatYmd(d)))
    else Returned(url)
  }

  /** `construct_url(url_pattern, calendar_entry)`; an empty pattern gives None. */
  function ConstructUrl(pattern: string, entry: Entry): Outcome<Option<string>> {
    if pattern == "" then Returned(None)
    else
      match FillDatum(FillPeriode(pattern, entry), entry)
      case Raised(x) => Raised(x)
      case Returned(url) => Returned(Some(url))
  }

  /** None comes back exactly for the empty pattern; the only exception is the
      ValueError of a `{datum}` whose entry names a day that does not exist. */
  lemma ConstructUrlOutcomes(pattern: string, entry: Entry)
    ensures ConstructUrl(pattern, entry) == Returned(None) <==> pattern == ""
    ensures ConstructUrl(pattern, entry).Raised? ==>
      && ConstructUrl(pattern, entry).error == ValueError
      && EntryTruthy(entry)
      && Contains(FillPeriode(pattern, entry), DatumPlaceholder)
      && ParseDatumText(Get(entry.datumText)).Raised?
  {
  }

  /** A pattern without placeholders is the URL itself. */
  lemma PlainPatternIsUrl(pattern: string, entry: Entry)
    requires pattern != "" && !Contains(pattern, PeriodePlaceholder) && !Contains(pattern, DatumPlaceholder)
    ensures ConstructUrl(pattern, entry) == Returned(Some(pattern))
  {
  }

  /** An empty entry dict fills nothing in. */
  lemma EmptyEntryFillsNothing(pattern: string)
    requires pattern != ""
    ensures ConstructUrl(pattern, Entry(None, None, None, false)) == Returned(Some(pattern))
  {
  }

  lemma PeriodeUnbordered()
    ensures Unbordered(PeriodePlaceholder)
  {
    assert PeriodePlaceholder == ['{', 'p', 'e', 'r', 'i', 'o', 'd', 'e', '}'];
  }

  lemma DatumUnbordered()
    ensures Unbordered(DatumPlaceholder)
  {
    assert DatumPlaceholder == ['{', 'd', 'a', 't', 'u', 'm', '}'];
  }

  /** A text of two or more pieces joined by `pat` contains `pat`. */
  lemma JoinContainsSeparator(pieces: seq<string>, pat: string)
    requires |pieces| >= 2
    ensures Contains(Join(pieces, pat), pat)
  {
    var s := Join(pieces, pat);
    assert s == pieces[0] + pat + Join(pieces[1..], pat);
    assert s[|pieces[0]|..|pieces[0]| + |pat|] == pat;
    assert OccursAt(s, pat, |pieces[0]|);
  }

  /** Every `{periode}` is replaced by the entry's period: a pattern made of
      placeholder-free pieces around `{periode}` becomes those pieces around the
      period. */
  lemma FillPeriodeReplacesEvery(pieces: seq<string>, entry: Entry)
    requires |pieces| >= 2 && EntryTruthy(entry)
    requires forall i :: 0 <= i < |pieces| ==> !Contains(pieces[i], PeriodePlaceholder)
    ensures FillPeriode(Join(pieces, PeriodePlaceholder), entry) == Join(pieces, Get(entry.periode))
  {
    JoinContainsSeparator(pieces, PeriodePlaceholder);
    PeriodeUnbordered();
    ReplaceJoin(pieces, PeriodePlaceholder, Get(entry.periode));
  }

  /** Every `{datum}` is replaced by the eight-digit date when the entry's date
      text parses. */
  lemma FillDatumReplacesEvery(pieces: seq<string>, entry: Entry, d: Date)
    requires |pieces| >= 2 && EntryTruthy(entry)
    requires forall i :: 0 <= i < |pieces| ==> !Contains(pieces[i], DatumPlaceholder)
    requires ParseDatumText(Get(entry.datumText)) == Returned(Some(d))
    ensures FillDatum(Join(pieces, DatumPlaceholder), entry) == Returned(Join(pieces, FormatYmd(d)))
  {
    JoinContainsSeparator(pieces, DatumPlaceholder);
    DatumUnbordered();
    ReplaceJoin(pieces, DatumPlaceholder, FormatYmd(d));
  }

  /** When the date text holds no date, `{datum}` stays in the URL that is
      returned. */
  lemma UnparsedDatumStays(pattern: string, entry: Entry)
    requires pattern != "" && Contains(FillPeriode(pattern, entry), DatumPlaceholder)
    requires ParseDatumText(Get(entry.datumText)) == Returned(None)
    ensures ConstructUrl(pattern, entry).Returned?
    ensures Contains(ConstructUrl(pattern, entry).value.value, DatumPlaceholder)
  {
  }

  /** A pattern that is only `{periode}`, with an empty period, gives the empty
      URL: `construct_url` can return a falsy string for a non-empty pattern. */
  lemma EmptyPeriodeGivesEmptyUrl()
    ensures ConstructUrl(PeriodePlaceholder, Entry(None, None, Some(""), false)) == Returned(Some(""))
  {
    var p := PeriodePlaceholder;
    assert OccursAt(p, p, 0);
    assert p[|p|..] == "";
    assert Replace(p, p, "") == "" + Replace("", p, "");
    assert !Contains("", DatumPlaceholder);
  }
}
