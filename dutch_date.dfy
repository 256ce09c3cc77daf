/** `parse_datum_text` (scripts/check_and_download.py): finds the first
    `<day> <month word> <year>` in a lower-cased Dutch text and resolves the word
    against the month table by prefix, first name wins. */
module DutchDate {
  import opened Base
  import opened Text
  import opened Dates

  /** The month table, in the order the loop visits it. */
  const MonthNames: seq<string> := ["januari", "februari", "maart", "april", "mei", "juni",
                                    "juli", "augustus", "september", "oktober", "november", "december"]

  /** The month loop from table index `k` on: the number of the first month whose
      name starts with `word`. */
  function MonthFrom(word: string, k: nat): (r: Option<int>)
    requires k <= 12
    ensures r.Some? ==> k < r.value <= 12 && StartsWith(MonthNames[r.value - 1], word)
    ensures r.Some? ==> forall j :: k <= j < r.value - 1 ==> !StartsWith(MonthNames[j], word)
    ensures r.None? ==> forall j :: k <= j < 12 ==> !StartsWith(MonthNames[j], word)
    decreases 12 - k
  {
    if k == 12 then None
    else if StartsWith(MonthNames[k], word) then Some(k + 1)
    else MonthFrom(word, k + 1)
  }

  /** The number of the first month, in table order, whose name starts with `word`. */
  function MonthNumber(word: string): Option<int> {
    MonthFrom(word, 0)
  }

  // ---------------------------------------------------------------------------
  // The pattern (\d{1,2})\s+(\w+)\s+(\d{4})

  datatype CharClass = Digit | Space | Word

  predicate InClass(c: char, k: CharClass) {
    match k
    case Digit => IsDigit(c)
    case Space => IsSpace(c)
    case Word => IsWordChar(c)
  }

  /** Every character of `s[lo..hi]` is in class `k`. */
  predicate AllIn(s: string, lo: int, hi: int, k: CharClass)
    requires 0 <= lo && hi <= |s|
  {
    forall j {:trigger InClass(s[j], k)} :: lo <= j < hi ==> InClass(s[j], k)
  }

  /** Where the three groups of one match lie: the day is `s[start..dayEnd]`, the
      month word `s[wordStart..wordEnd]`, the year `s[yearStart..yearStart + 4]`. */
  datatype Match = Match(start: nat, dayEnd: nat, wordStart: nat, wordEnd: nat, yearStart: nat)

  /** The pattern matches `s` at `m.start`, with its groups where `m` puts them. */
  predicate PatternAt(s: string, m: Match) {
    && m.start < m.dayEnd <= m.start + 2
    && m.dayEnd < m.wordStart < m.wordEnd < m.yearStart
    && m.yearStart + 4 <= |s|
    && AllIn(s, m.start, m.dayEnd, Digit)
    && AllIn(s, m.dayEnd, m.wordStart, Space)
    && AllIn(s, m.wordStart, m.wordEnd, Word)
    && AllIn(s, m.wordEnd, m.yearStart, Space)
    && AllIn(s, m.yearStart, m.yearStart + 4, Digit)
  }

  /** Length of the longest run of class `k` starting at `i`. */
  function Run(s: string, i: nat, k: CharClass): (n: nat)
    requires i <= |s|
    ensures i + n <= |s|
    ensures forall j {:trigger InClass(s[j], k)} :: i <= j < i + n ==> InClass(s[j], k)
    ensures i + n == |s| || !InClass(s[i + n], k)
    decreases |s| - i
  {
    if i < |s| && InClass(s[i], k) then 1 + Run(s, i + 1, k) else 0
  }

  /** Where the groups would lie if the pattern matched at `i`, taking for each
      quantifier its longest run. A space is never a digit or a word character,
      so a shorter run could never let the rest of the pattern match. */
  function Candidate(s: string, i: nat): Match
    requires i < |s|
  {
    var dayEnd := DayEnd(s, i);
    var wordStart := dayEnd + Run(s, dayEnd, Space);
    var wordEnd := wordStart + Run(s, wordStart, Word);
    var yearStart := wordEnd + Run(s, wordEnd, Space);
    Match(i, dayEnd, wordStart, wordEnd, yearStart)
  }

  /** The end of the day group at `i`: one or two digits, as many as there are. */
  function DayEnd(s: string, i: nat): (e: nat)
    requires i < |s|
    ensures i < e <= |s| && e <= i + 2
  {
    if i + 1 < |s| && IsDigit(s[i + 1]) then i + 2 else i + 1
  }

  /** Tries the pattern at position `i`. */
  function MatchAt(s: string, i: nat): (r: Option<Match>)
    requires i <= |s|
    ensures r.Some? ==> r.value.start == i && PatternAt(s, r.value)
  {
    if i == |s| || !IsDigit(s[i]) then None
    else
      var c := Candidate(s, i);
      if c.dayEnd < c.wordStart < c.wordEnd < c.yearStart && c.yearStart + 4 <= |s|
         && AllIn(s, c.yearStart, c.yearStart + 4, Digit)
      then Some(c)
      else None
  }

  lemma {:induction false} RunExact(s: string, i: nat, j: nat, k: CharClass)
    requires i <= j <= |s| && AllIn(s, i, j, k)
    requires j == |s| || !InClass(s[j], k)
    ensures Run(s, i, k) == j - i
    decreases j - i
  {
    if i < j {
      RunExact(s, i + 1, j, k);
    }
  }

  /** A whitespace character is neither a digit nor a word character. */
  lemma SpaceIsNoWordChar(c: char)
    ensures IsSpace(c) ==> !IsDigit(c) && !IsWordChar(c)
  {
  }

  /** The candidate's groups are the runs of the text: once each run is known,
      so is the candidate. */
  lemma CandidateFromRuns(s: string, m: Match)
    requires m.start < m.dayEnd <= m.wordStart <= m.wordEnd <= m.yearStart <= |s|
    requires m.dayEnd == DayEnd(s, m.start)
    requires Run(s, m.dayEnd, Space) == m.wordStart - m.dayEnd
    requires Run(s, m.wordStart, Word) == m.wordEnd - m.wordStart
    requires Run(s, m.wordEnd, Space) == m.yearStart - m.wordEnd
    ensures Candidate(s, m.start) == m
  {
    var w := m.dayEnd + Run(s, m.dayEnd, Space);
    var e := w + Run(s, w, Word);
    var y := e + Run(s, e, Space);
    assert w == m.wordStart && e == m.wordEnd && y == m.yearStart;
  }

  /** The day group of a match is as long as the run of digits allows, at most two. */
  lemma DayEndOfMatch(s: string, m: Match)
    requires PatternAt(s, m)
    ensures m.dayEnd == DayEnd(s, m.start)
  {
    if m.dayEnd == m.start + 1 {
      assert InClass(s[m.dayEnd], Space);
      SpaceIsNoWordChar(s[m.dayEnd]);
    } else {
      assert InClass(s[m.start + 1], Digit);
    }
  }

  /** A group that a character of another class closes is a maximal run. */
  lemma RunClosedBy(s: string, lo: nat, hi: nat, k: CharClass, other: CharClass)
    requires lo <= hi < |s| && AllIn(s, lo, hi, k)
    requires InClass(s[hi], other)
    requires (k == Space) != (other == Space)
    ensures Run(s, lo, k) == hi - lo
  {
    SpaceIsNoWordChar(s[hi]);
    RunExact(s, lo, hi, k);
  }

  /** The pattern has at most one match at each position, and MatchAt finds it:
      the groups do not depend on the order in which a regex engine backtracks. */
  lemma MatchAtComplete(s: string, m: Match)
    requires PatternAt(s, m)
    ensures MatchAt(s, m.start) == Some(m)
  {
    assert InClass(s[m.start], Digit);
    DayEndOfMatch(s, m);
    assert InClass(s[m.wordStart], Word);
    RunClosedBy(s, m.dayEnd, m.wordStart, Space, Word);
    assert InClass(s[m.wordEnd], Space);
    RunClosedBy(s, m.wordStart, m.wordEnd, Word, Space);
    assert InClass(s[m.yearStart], Digit);
    RunClosedBy(s, m.wordEnd, m.yearStart, Space, Digit);
    CandidateFromRuns(s, m);
  }

  /** The scan of `re.search` from position `i` on. */
  function SearchFrom(s: string, i: nat): (r: Option<Match>)
    requires i <= |s|
    ensures r.Some? ==> i <= r.value.start && PatternAt(s, r.value)
    decreases |s| - i
  {
    match MatchAt(s, i)
    case Some(m) => Some(m)
    case None => if i == |s| then None else SearchFrom(s, i + 1)
  }

  /** The scan returns the match at the first position that has one, and
      nothing only when no position has one. */
  lemma {:induction false} SearchFromIsFirst(s: string, i: nat)
    requires i <= |s|
    ensures SearchFrom(s, i).Some? ==> MatchAt(s, SearchFrom(s, i).value.start) == SearchFrom(s, i)
    ensures SearchFrom(s, i).Some? ==> forall j :: i <= j < SearchFrom(s, i).value.start ==> MatchAt(s, j).None?
    ensures SearchFrom(s, i).None? ==> forall j :: i <= j <= |s| ==> MatchAt(s, j).None?
    decreases |s| - i
  {
    var here := MatchAt(s, i);
    if here.None? && i < |s| {
      var r := SearchFrom(s, i + 1);
      assert SearchFrom(s, i) == r;
      SearchFromIsFirst(s, i + 1);
      if r.Some? {
        forall j | i <= j < r.value.start ensures MatchAt(s, j).None? {
          if j == i { assert MatchAt(s, j) == here; }
        }
      } else {
        forall j | i <= j <= |s| ensures MatchAt(s, j).None? {
          if j == i { assert MatchAt(s, j) == here; }
        }
      }
    }
  }

  /** `re.search(pattern, s)`. */
  function Search(s: string): (r: Option<Match>)
    ensures r.Some? ==> PatternAt(s, r.value)
  {
    SearchFrom(s, 0)
  }

  /** `m` is the leftmost match of the pattern in `s`. */
  ghost predicate LeftmostMatch(s: string, m: Match) {
    PatternAt(s, m) && forall m' :: PatternAt(s, m') ==> m.start <= m'.start
  }

  /** `re.search` returns the unique leftmost match, and nothing exactly when the
      pattern matches nowhere. */
  lemma SearchIsLeftmost(s: string)
    ensures Search(s).Some? ==> LeftmostMatch(s, Search(s).value)
    ensures Search(s).Some? ==> forall m' :: LeftmostMatch(s, m') ==> m' == Search(s).value
    ensures Search(s).None? <==> forall m :: !PatternAt(s, m)
  {
    SearchFromIsFirst(s, 0);
    if Search(s).Some? {
      MatchAtComplete(s, Search(s).value);
    }
    forall m' | PatternAt(s, m')
      ensures Search(s).Some? && Search(s).value.start <= m'.start
      ensures Search(s).value.start == m'.start ==> Search(s).value == m'
    {
      MatchAtComplete(s, m');
    }
  }

  // ---------------------------------------------------------------------------
  // parse_datum_text

  /** `int(match.group(1))`: the day. */
  function DayOf(s: string, m: Match): nat
    requires PatternAt(s, m)
  {
    assert AllDigits(s[m.start..m.dayEnd]) by {
      forall i | m.start <= i < m.dayEnd ensures IsDigit(s[i]) {
        assert InClass(s[i], Digit);
      }
    }
    DigitsValue(s[m.start..m.dayEnd])
  }

  /** `match.group(2)`: the month word. */
  function WordOf(s: string, m: Match): string
    requires PatternAt(s, m)
  {
    s[m.wordStart..m.wordEnd]
  }

  /** `int(match.group(3))`: the year. */
  function YearOf(s: string, m: Match): nat
    requires PatternAt(s, m)
  {
    assert AllDigits(s[m.yearStart..m.yearStart + 4]) by {
      forall i | m.yearStart <= i < m.yearStart + 4 ensures IsDigit(s[i]) {
        assert InClass(s[i], Digit);
      }
    }
    DigitsValue(s[m.yearStart..m.yearStart + 4])
  }

  /** What `parse_datum_text` does with a match: look the word up in the month
      table and build `datetime(jaar, nummer, dag)`, which raises ValueError for a
      day, month or year that does not exist. */
  function FromGroups(s: string, m: Match): (r: Outcome<Option<Date>>)
    requires PatternAt(s, m)
    ensures r == Returned(None) <==> forall j :: 0 <= j < 12 ==> !StartsWith(MonthNames[j], WordOf(s, m))
    ensures r.Returned? && r.value.Some? ==>
      var d := r.value.value;
      && ValidDate(d) && d.day == DayOf(s, m) && d.year == YearOf(s, m)
      && StartsWith(MonthNames[d.month - 1], WordOf(s, m))
      && forall j :: 0 <= j < d.month - 1 ==> !StartsWith(MonthNames[j], WordOf(s, m))
    ensures r.Raised? ==>
      && r.error == ValueError
      && MonthNumber(WordOf(s, m)).Some?
      && !ValidDate(Date(YearOf(s, m), MonthNumber(WordOf(s, m)).value, DayOf(s, m)))
  {
    var dag := DayOf(s, m);
    var jaar := YearOf(s, m);
    match MonthNumber(WordOf(s, m))
    case None => Returned(None)
    case Some(nummer) =>
      var d := Date(jaar, nummer, dag);
      if ValidDate(d) then Returned(Some(d)) else Raised(ValueError)
  }

  /** `parse_datum_text(datum_text)`. */
  function ParseDatumText(text: string): (r: Outcome<Option<Date>>)
    ensures r.Returned? && r.value.Some? ==> ValidDate(r.value.value)
    ensures r.Raised? ==> r.error == ValueError
  {
    var s := Lower(text);
    match Search(s)
    case None => Returned(None)
    case Some(m) => FromGroups(s, m)
  }

  /** The outcome is decided by the leftmost match alone, whichever way it is
      found: a later match is never looked at. */
  lemma ParseUsesLeftmostMatch(text: string, m: Match)
    requires LeftmostMatch(Lower(text), m)
    ensures ParseDatumText(text) == FromGroups(Lower(text), m)
  {
    SearchIsLeftmost(Lower(text));
  }

  /** A text in which the pattern matches nowhere has no date. */
  lemma ParseWithoutMatch(text: string)
    requires forall m :: !PatternAt(Lower(text), m)
    ensures ParseDatumText(text) == Returned(None)
  {
    SearchIsLeftmost(Lower(text));
  }

  /** The month loop returns month `n` exactly when the `n`-th name is the first,
      in table order, that starts with the word. */
  lemma MonthNumberIsFirstPrefix(word: string, n: int)
    requires 1 <= n <= 12
    ensures MonthNumber(word) == Some(n) <==>
      StartsWith(MonthNames[n - 1], word) && forall j :: 0 <= j < n - 1 ==> !StartsWith(MonthNames[j], word)
  {
    var r := MonthFrom(word, 0);
    if StartsWith(MonthNames[n - 1], word) && forall j :: 0 <= j < n - 1 ==> !StartsWith(MonthNames[j], word) {
      assert r.Some?;
      assert !(r.value < n) && !(r.value > n);
    }
  }

  /** "ju" resolves to juni, never to juli: the first name it begins wins. */
  lemma MonthJuIsJune()
    ensures MonthNumber("ju") == Some(6)
  {
    assert MonthNames[5] == "juni";
    assert forall j :: 0 <= j < 5 ==> MonthNames[j][0] != 'j' || MonthNames[j][1] != 'u';
    MonthNumberIsFirstPrefix("ju", 6);
  }

  /** "m" resolves to maart, the first name beginning with m. */
  lemma MonthMIsMarch()
    ensures MonthNumber("m") == Some(3)
  {
    assert MonthNames[2] == "maart";
    assert MonthNames[0][0] != 'm' && MonthNames[1][0] != 'm';
    MonthNumberIsFirstPrefix("m", 3);
  }

  /** No month name before december begins with a word that starts with `d`. */
  lemma OnlyDecemberStartsWithD(word: string)
    requires |word| > 0 && word[0] == 'd'
    ensures forall j :: 0 <= j < 11 ==> !StartsWith(MonthNames[j], word)
  {
    forall j | 0 <= j < 11 ensures !StartsWith(MonthNames[j], word) {
      var name := MonthNames[j];
      assert name[0] != 'd' by {
        assert MonthNames[0][0] != 'd';
        assert MonthNames[1][0] != 'd';
        assert MonthNames[2][0] != 'd';
        assert MonthNames[3][0] != 'd';
        assert MonthNames[4][0] != 'd';
        assert MonthNames[5][0] != 'd';
        assert MonthNames[6][0] != 'd';
        assert MonthNames[7][0] != 'd';
        assert MonthNames[8][0] != 'd';
        assert MonthNames[9][0] != 'd';
        assert MonthNames[10][0] != 'd';
      }
    }
  }

  /** The abbreviation "dec" resolves to december. */
  lemma MonthDecIsDecember()
    ensures MonthNumber("dec") == Some(12)
  {
    assert StartsWith(MonthNames[11], "dec");
    OnlyDecemberStartsWithD("dec");
    MonthNumberIsFirstPrefix("dec", 12);
  }

  /** "mrt" begins no month name, so it resolves to nothing. */
  lemma MonthMrtIsNone()
    ensures MonthNumber("mrt") == None
  {
    assert MonthNames[0][0] != 'm';
    assert MonthNames[1][0] != 'm';
    assert MonthNames[2][1] != 'r';
    assert MonthNames[3][0] != 'm';
    assert MonthNames[4][1] != 'r';
    assert MonthNames[5][0] != 'm';
    assert MonthNames[6][0] != 'm';
    assert MonthNames[7][0] != 'm';
    assert MonthNames[8][0] != 'm';
    assert MonthNames[9][0] != 'm';
    assert MonthNames[10][0] != 'm';
    assert MonthNames[11][0] != 'm';
    assert forall j :: 0 <= j < 12 ==> !StartsWith(MonthNames[j], "mrt");
  }

  /** A match at the very start of the text is the leftmost one. */
  lemma ParseMatchAtStart(text: string, m: Match)
    requires m.start == 0 && PatternAt(Lower(text), m)
    ensures ParseDatumText(text) == FromGroups(Lower(text), m)
  {
    ParseUsesLeftmostMatch(text, m);
  }

  lemma DigitsExamples()
    ensures DigitsValue("1") == 1 && DigitsValue("0") == 0 && DigitsValue("31") == 31
    ensures DigitsValue("2025") == 2025
  {
    assert "2025"[..3] == "202" && "202"[..2] == "20" && "20"[..1] == "2";
    assert "31"[..1] == "3";
  }

  lemma LowerDecemberExample()
    ensures Lower("1 December 2025") == "1 december 2025"
  {
    var s := Lower("1 December 2025");
    assert s[2] == 'd';
    assert forall j :: 0 <= j < 15 && j != 2 ==> s[j] == "1 December 2025"[j];
  }

  lemma PatternDecemberExample()
    ensures PatternAt("1 december 2025", Match(0, 1, 2, 10, 11))
  {
    var s := "1 december 2025";
    assert IsSpace(s[1]) && IsSpace(s[10]);
    assert AllIn(s, 2, 10, Word);
    assert AllIn(s, 11, 15, Digit);
  }

  lemma GroupValuesDecemberExample()
    ensures PatternAt("1 december 2025", Match(0, 1, 2, 10, 11))
    ensures DayOf("1 december 2025", Match(0, 1, 2, 10, 11)) == 1
    ensures YearOf("1 december 2025", Match(0, 1, 2, 10, 11)) == 2025
    ensures WordOf("1 december 2025", Match(0, 1, 2, 10, 11)) == "december"
  {
    var s := "1 december 2025";
    PatternDecemberExample();
    DigitsExamples();
    assert s[0..1] == "1";
    assert s[11..15] == "2025";
  }

  lemma MonthDecemberIsDecember()
    ensures MonthNumber("december") == Some(12)
  {
    assert MonthNames[11] == "december";
    OnlyDecemberStartsWithD("december");
    MonthNumberIsFirstPrefix("december", 12);
  }

  lemma GroupsDecemberExample()
    ensures FromGroups("1 december 2025", Match(0, 1, 2, 10, 11)) == Returned(Some(Date(2025, 12, 1)))
  {
    GroupValuesDecemberExample();
    MonthDecemberIsDecember();
  }

  /** "1 December 2025" is 2025-12-01: the text is lower-cased first. */
  lemma ParseFirstOfDecember()
    ensures ParseDatumText("1 December 2025") == Returned(Some(Date(2025, 12, 1)))
  {
    LowerDecemberExample();
    PatternDecemberExample();
    ParseMatchAtStart("1 December 2025", Match(0, 1, 2, 10, 11));
    GroupsDecemberExample();
  }

  /** Lower-casing leaves a text without capitals unchanged. */
  lemma LowerUnchanged(s: string)
    requires forall j :: 0 <= j < |s| ==> !('A' <= s[j] <= 'Z')
    ensures Lower(s) == s
  {
  }

  lemma PatternFebruaryExample()
    ensures PatternAt("31 februari 2025", Match(0, 2, 3, 11, 12))
  {
    var s := "31 februari 2025";
    assert IsSpace(s[2]) && IsSpace(s[11]);
    assert AllIn(s, 3, 11, Word);
    assert AllIn(s, 12, 16, Digit);
  }

  lemma GroupValuesFebruaryExample()
    ensures PatternAt("31 februari 2025", Match(0, 2, 3, 11, 12))
    ensures DayOf("31 februari 2025", Match(0, 2, 3, 11, 12)) == 31
    ensures YearOf("31 februari 2025", Match(0, 2, 3, 11, 12)) == 2025
    ensures WordOf("31 februari 2025", Match(0, 2, 3, 11, 12)) == "februari"
  {
    var s := "31 februari 2025";
    PatternFebruaryExample();
    DigitsExamples();
    assert s[0..2] == "31";
    assert s[12..16] == "2025";
  }

  lemma MonthFebruariIsFebruary()
    ensures MonthNumber("februari") == Some(2)
  {
    assert MonthNames[1] == "februari" && MonthNames[0][0] != 'f';
    MonthNumberIsFirstPrefix("februari", 2);
  }

  lemma GroupsFebruaryExample()
    ensures FromGroups("31 februari 2025", Match(0, 2, 3, 11, 12)) == Raised(ValueError)
  {
    GroupValuesFebruaryExample();
    MonthFebruariIsFebruary();
    assert !ValidDate(Date(2025, 2, 31));
  }

  /** "31 februari 2025" matches and names a month, but the day does not exist:
      `datetime(2025, 2, 31)` raises ValueError instead of returning None. */
  lemma ParseThirtyFirstOfFebruaryRaises()
    ensures ParseDatumText("31 februari 2025") == Raised(ValueError)
  {
    var t := "31 februari 2025";
    assert forall j :: 0 <= j < |t| ==> t[j] == ' ' || 'a' <= t[j] <= 'z' || '0' <= t[j] <= '9';
    LowerUnchanged(t);
    GroupValuesFebruaryExample();
    ParseMatchAtStart("31 februari 2025", Match(0, 2, 3, 11, 12));
    GroupsFebruaryExample();
  }

  lemma GroupValuesMrtExample()
    ensures PatternAt("1 mrt 2025 en 2 mei 2025", Match(0, 1, 2, 5, 6))
    ensures WordOf("1 mrt 2025 en 2 mei 2025", Match(0, 1, 2, 5, 6)) == "mrt"
  {
    var s := "1 mrt 2025 en 2 mei 2025";
    assert IsSpace(s[1]) && IsSpace(s[5]);
    assert AllIn(s, 2, 5, Word);
    assert AllIn(s, 6, 10, Digit);
    assert s[2] == 'm' && s[3] == 'r' && s[4] == 't';
    assert s[2..5] == "mrt";
  }

  /** Only the first match is looked at: "mrt" starts no month name, so the
      text has no date even though "2 mei 2025" follows. */
  lemma ParseOnlyFirstMatch()
    ensures ParseDatumText("1 mrt 2025 en 2 mei 2025") == Returned(None)
  {
    var t := "1 mrt 2025 en 2 mei 2025";
    assert forall j :: 0 <= j < |t| ==> t[j] == ' ' || 'a' <= t[j] <= 'z' || '0' <= t[j] <= '9';
    LowerUnchanged(t);
    GroupValuesMrtExample();
    ParseMatchAtStart("1 mrt 2025 en 2 mei 2025", Match(0, 1, 2, 5, 6));
    MonthMrtIsNone();
  }
}
