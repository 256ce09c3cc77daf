/** Calendar data as `check_and_download.py` reads it, and
    `find_statistic_in_calendar`: an exact pass over the entries, then a fuzzy
    (substring) pass, each returning the first hit. */
module Calendar {
  import opened Base
  import opened Text

  /** One calendar entry, a JSON object with (usually) the keys `datum_text`,
      `naam` and `periode`; an absent key is None. `otherKeys` says whether the
      object has any key besides these three. */
  datatype Entry = Entry(datumText: Option<string>, naam: Option<string>, periode: Option<string>, otherKeys: bool)

  /** `entry.get(key, '')`. */
  function Get(field: Option<string>): string {
    match field
    case Some(v) => v
    case None => ""
  }

  /** A dict is truthy when it has a key. */
  predicate EntryTruthy(e: Entry) {
    e.datumText.Some? || e.naam.Some? || e.periode.Some? || e.otherKeys
  }

  /** The loaded calendar JSON object: its `entries` list when that key is
      present, and whether it has any other key. */
  datatype CalendarData = CalendarData(entries: Option<seq<Entry>>, otherKeys: bool)

  /** `calendar_data` is truthy: it was loaded and is a non-empty object. */
  predicate CalendarTruthy(c: Option<CalendarData>) {
    c.Some? && (c.value.entries.Some? || c.value.otherKeys)
  }

  /** The guard `not calendar_data or 'entries' not in calendar_data`: an object
      holding `entries` is never empty, so only the key matters. */
  function EntriesOf(c: Option<CalendarData>): (r: Option<seq<Entry>>)
    ensures r.Some? ==> CalendarTruthy(c)
  {
    if c.Some? then c.value.entries else None
  }

  /** `name.lower().strip()`. */
  function Norm(name: string): string {
    Strip(Lower(name))
  }

  /** The entry's normalised name, `entry.get('naam', '').lower().strip()`. */
  function EntryName(e: Entry): string {
    Norm(Get(e.naam))
  }

  /** The fuzzy test: `target in name or name in target`. */
  predicate FuzzyHit(name: string, target: string) {
    Contains(name, target) || Contains(target, name)
  }

  /** The normalised names of all entries, in list order. */
  function Names(entries: seq<Entry>): (r: seq<string>)
    ensures |r| == |entries|
    ensures forall j :: 0 <= j < |entries| ==> r[j] == EntryName(entries[j])
  {
    seq(|entries|, j requires 0 <= j < |entries| => EntryName(entries[j]))
  }

  /** The exact pass from index `i` on: the first name equal to `target`. */
  function FindExactFrom(names: seq<string>, target: string, i: nat): (r: Option<nat>)
    requires i <= |names|
    ensures r.Some? ==> i <= r.value < |names| && names[r.value] == target
    ensures r.Some? ==> forall j :: i <= j < r.value ==> names[j] != target
    ensures r.None? ==> forall j :: i <= j < |names| ==> names[j] != target
    decreases |names| - i
  {
    if i == |names| then None
    else if names[i] == target then Some(i)
    else FindExactFrom(names, target, i + 1)
  }

  /** The fuzzy pass from index `i` on: the first name that contains `target`
      or is contained in it. */
  function FindFuzzyFrom(names: seq<string>, target: string, i: nat): (r: Option<nat>)
    requires i <= |names|
    ensures r.Some? ==> i <= r.value < |names| && FuzzyHit(names[r.value], target)
    ensures r.Some? ==> forall j :: i <= j < r.value ==> !FuzzyHit(names[j], target)
    ensures r.None? ==> forall j :: i <= j < |names| ==> !FuzzyHit(names[j], target)
    decreases |names| - i
  {
    if i == |names| then None
    else if FuzzyHit(names[i], target) then Some(i)
    else FindFuzzyFrom(names, target, i + 1)
  }

  /** Position in `entries` of the entry `find_statistic_in_calendar` returns. */
  function FindStatisticIndex(statisticName: string, entries: seq<Entry>): (r: Option<nat>)
    ensures r.Some? ==> r.value < |entries|
  {
    var names := Names(entries);
    var target := Norm(statisticName);
    match FindExactFrom(names, target, 0)
    case Some(i) => Some(i)
    case None => FindFuzzyFrom(names, target, 0)
  }

  /** `find_statistic_in_calendar(statistic_name, calendar_data)`. */
  function FindStatistic(statisticName: string, calendar: Option<CalendarData>): (r: Option<Entry>)
    ensures r.Some? ==> EntriesOf(calendar).Some? && r.value in EntriesOf(calendar).value
    ensures EntriesOf(calendar).None? ==> r.None?
  {
    match EntriesOf(calendar)
    case None => None
    case Some(entries) =>
      match FindStatisticIndex(statisticName, entries)
      case Some(i) => Some(entries[i])
      case None => None
  }

  /** A name always fuzzily matches itself, so an exact hit is also a fuzzy one. */
  lemma ContainsSelf(s: string)
    ensures Contains(s, s)
  {
    assert OccursAt(s, s, 0);
  }

  /** The empty string is in every string. */
  lemma ContainsEmpty(s: string)
    ensures Contains(s, "")
  {
    assert OccursAt(s, "", 0);
  }

  /** An exact match wins, and the first exact match: entry `i` is returned when
      its normalised name equals the normalised lookup and no earlier one does,
      even when an earlier entry would match fuzzily. */
  lemma ExactMatchWins(statisticName: string, entries: seq<Entry>, i: nat)
    requires i < |entries| && EntryName(entries[i]) == Norm(statisticName)
    requires forall j :: 0 <= j < i ==> EntryName(entries[j]) != Norm(statisticName)
    ensures FindStatisticIndex(statisticName, entries) == Some(i)
  {
    var names := Names(entries);
    assert names[i] == Norm(statisticName);
    FirstInNames(names, Norm(statisticName), i, false);
  }

  /** Index `i` is where a pass (exact when `fuzzy` is false) stops when it is
      the first index whose name qualifies. */
  lemma FirstInNames(names: seq<string>, target: string, i: nat, fuzzy: bool)
    requires i < |names|
    requires if fuzzy then FuzzyHit(names[i], target) else names[i] == target
    requires forall j :: 0 <= j < i ==> if fuzzy then !FuzzyHit(names[j], target) else names[j] != target
    ensures (if fuzzy then FindFuzzyFrom(names, target, 0) else FindExactFrom(names, target, 0)) == Some(i)
  {
    if fuzzy {
      var r := FindFuzzyFrom(names, target, 0);
      assert r.Some?;
      assert !(r.value < i) && !(r.value > i);
    } else {
      var r := FindExactFrom(names, target, 0);
      assert r.Some?;
      assert !(r.value < i) && !(r.value > i);
    }
  }

  /** Without any exact match, the first fuzzy hit in list order is returned. */
  lemma FirstFuzzyMatch(statisticName: string, entries: seq<Entry>, i: nat)
    requires forall j :: 0 <= j < |entries| ==> EntryName(entries[j]) != Norm(statisticName)
    requires i < |entries| && FuzzyHit(EntryName(entries[i]), Norm(statisticName))
    requires forall j :: 0 <= j < i ==> !FuzzyHit(EntryName(entries[j]), Norm(statisticName))
    ensures FindStatisticIndex(statisticName, entries) == Some(i)
  {
    var names := Names(entries);
    var target := Norm(statisticName);
    assert forall j :: 0 <= j < |names| ==> names[j] != target;
    assert FindExactFrom(names, target, 0).None?;
    assert FuzzyHit(names[i], target);
    FirstInNames(names, target, i, true);
  }

  /** Nothing is found exactly when no entry matches even fuzzily. */
  lemma NotFoundMeansNoFuzzyHit(statisticName: string, entries: seq<Entry>)
    ensures FindStatisticIndex(statisticName, entries).None? <==>
      forall j :: 0 <= j < |entries| ==> !FuzzyHit(EntryName(entries[j]), Norm(statisticName))
  {
    var target := Norm(statisticName);
    if FindExactFrom(Names(entries), target, 0).Some? {
      ContainsSelf(target);
    }
  }

  /** An entry with an empty (or blank, or missing) name matches every lookup in
      the fuzzy pass: something is always found, and no later entry than it. */
  lemma EmptyNameMatchesEverything(statisticName: string, entries: seq<Entry>, i: nat)
    requires i < |entries| && EntryName(entries[i]) == ""
    ensures FindStatisticIndex(statisticName, entries).Some?
    ensures FindExactFrom(Names(entries), Norm(statisticName), 0).None? ==> FindStatisticIndex(statisticName, entries).value <= i
  {
    ContainsEmpty(Norm(statisticName));
    assert FuzzyHit(EntryName(entries[i]), Norm(statisticName));
  }
}
