/** `parse_calendar_table` of `fetch_calendar.py`: the rows of the calendar
    page's tables that become calendar entries. A page is given as its tables,
    each a list of rows, each the stripped texts of the row's cells; header
    (`th`) and data (`td`) cells are alike. */
module CalendarTable {
  import opened Base
  import opened Text
  import opened DutchDate
  import opened Calendar

  /** The stripped texts of one row's cells, in order. */
  type Row = seq<string>

  /** One table: its rows, in order. */
  type Table = seq<Row>

  /** The entry one row yields: rows with two or more cells whose first two
      texts are non-empty and whose first text holds a date pattern match. */
  function RowEntry(cells: Row): Option<Entry> {
    if |cells| < 2 then None
    else
      var datum := cells[0];
      var naam := cells[1];
      var periode := if |cells| > 2 then cells[2] else "";
      if datum == "" || naam == "" then None
      else if Search(datum).None? then None
      else Some(Entry(Some(datum), Some(naam), Some(periode), false))
  }

  /** The entries a list of rows yields, in row order. */
  function RowsEntries(rows: seq<Row>): seq<Entry>
    decreases |rows|
  {
    if rows == [] then []
    else
      var n := |rows| - 1;
      var e := RowEntry(rows[n]);
      RowsEntries(rows[..n]) + (if e.Some? then [e.value] else [])
  }

  /** The entries a page yields: table by table, each in row order. */
  function TablesEntries(tables: seq<Table>): seq<Entry>
    decreases |tables|
  {
    if tables == [] then []
    else
      var n := |tables| - 1;
      TablesEntries(tables[..n]) + RowsEntries(tables[n])
  }

  /** All rows of all tables, in table order and then row order. */
  function Flatten(tables: seq<Table>): (rows: seq<Row>)
    ensures |rows| == TotalRows(tables)
    decreases |tables|
  {
    if tables == [] then [] else Flatten(tables[..|tables| - 1]) + tables[|tables| - 1]
  }

  function TotalRows(tables: seq<Table>): nat
    decreases |tables|
  {
    if tables == [] then 0 else TotalRows(tables[..|tables| - 1]) + |tables[|tables| - 1]|
  }

  /** `parse_calendar_table(soup)` over the page's tables. */
  method ParseCalendarTable(tables: seq<Table>) returns (entries: seq<Entry>)
    ensures entries == TablesEntries(tables)
  {
    entries := [];
    var t := 0;
    while t < |tables|
      invariant 0 <= t <= |tables|
      invariant entries == TablesEntries(tables[..t])
    {
      var rows := tables[t];
      ghost var before := entries;
      var r := 0;
      while r < |rows|
        invariant 0 <= r <= |rows|
        invariant entries == before + RowsEntries(rows[..r])
      {
        RowsEntriesStep(rows, r);
        var cells := rows[r];
        if |cells| >= 2 {
          var datum := cells[0];
          var naam := cells[1];
          var periode := if |cells| > 2 then cells[2] else "";
          if datum != "" && naam != "" && Search(datum).Some? {
            entries := entries + [Entry(Some(datum), Some(naam), Some(periode), false)];
          }
        }
        r := r + 1;
      }
      assert rows[..r] == rows;
      assert tables[..t + 1][..t] == tables[..t];
      t := t + 1;
    }
    assert tables[..t] == tables;
  }

  /** One more row adds its entry, if any, at the end. */
  lemma RowsEntriesStep(rows: seq<Row>, r: nat)
    requires r < |rows|
    ensures RowsEntries(rows[..r + 1]) ==
      RowsEntries(rows[..r]) + (if RowEntry(rows[r]).Some? then [RowEntry(rows[r]).value] else [])
  {
    assert rows[..r + 1][..r] == rows[..r];
  }

  // ---------------------------------------------------------------------------
  // One row

  /** The date pattern matches a text exactly when it matches the lower-cased
      text: lower-casing keeps digits, whitespace and word characters. */
  lemma LowerKeepsPattern(s: string, m: Match)
    ensures PatternAt(s, m) <==> PatternAt(Lower(s), m)
  {
    var l := Lower(s);
    forall k: CharClass, j | 0 <= j < |s| ensures InClass(s[j], k) <==> InClass(l[j], k) {
      assert l[j] == LowerChar(s[j]);
    }
  }

  /** A row yields an entry exactly when it has two or more cells, its first
      two texts are non-empty and the date pattern matches somewhere in the
      first; the entry holds the first two texts and, as period, the third text
      when there is one and the empty text otherwise. */
  lemma RowEntryIff(cells: Row)
    ensures RowEntry(cells).Some? <==>
      && |cells| >= 2 && cells[0] != "" && cells[1] != ""
      && exists m :: PatternAt(cells[0], m)
    ensures RowEntry(cells).Some? ==>
      && RowEntry(cells).value.datumText == Some(cells[0])
      && RowEntry(cells).value.naam == Some(cells[1])
      && RowEntry(cells).value.periode == Some(if |cells| > 2 then cells[2] else "")
  {
    if |cells| >= 2 {
      SearchIsLeftmost(cells[0]);
    }
  }

  /** Cells after the third play no part. */
  lemma ExtraCellsIgnored(cells: Row, extra: seq<string>)
    requires |cells| == 3
    ensures RowEntry(cells + extra) == RowEntry(cells)
  {
    var c := cells + extra;
    assert c[0] == cells[0] && c[1] == cells[1] && c[2] == cells[2];
  }

  /** The date text of every row entry, once lower-cased as `parse_datum_text`
      does, still holds a match, so the date parser always finds its groups;
      only the month lookup or the date itself can fail there. */
  lemma RowEntryHasDateMatch(cells: Row)
    requires RowEntry(cells).Some?
    ensures Search(Lower(Get(RowEntry(cells).value.datumText))).Some?
  {
    var s := cells[0];
    SearchIsLeftmost(s);
    var m := Search(s).value;
    LowerKeepsPattern(s, m);
    SearchIsLeftmost(Lower(s));
  }

  // ---------------------------------------------------------------------------
  // All rows

  /** The entries of consecutive rows are the entries of each part, in order. */
  lemma {:induction false} RowsEntriesAppend(a: seq<Row>, b: seq<Row>)
    ensures RowsEntries(a + b) == RowsEntries(a) + RowsEntries(b)
    decreases |b|
  {
    if b == [] {
      assert a + b == a;
    } else {
      var n := |b| - 1;
      assert (a + b)[..|a + b| - 1] == a + b[..n];
      assert (a + b)[|a + b| - 1] == b[n];
      RowsEntriesAppend(a, b[..n]);
    }
  }

  /** The page's entries are those of all its rows taken together. */
  lemma {:induction false} TablesAreConcatenated(tables: seq<Table>)
    ensures TablesEntries(tables) == RowsEntries(Flatten(tables))
    decreases |tables|
  {
    if tables != [] {
      var n := |tables| - 1;
      TablesAreConcatenated(tables[..n]);
      RowsEntriesAppend(Flatten(tables[..n]), tables[n]);
    }
  }

  /** Number of rows that yield an entry. */
  function AcceptedRows(rows: seq<Row>): nat
    decreases |rows|
  {
    if rows == [] then 0
    else AcceptedRows(rows[..|rows| - 1]) + (if RowEntry(rows[|rows| - 1]).Some? then 1 else 0)
  }

  /** There are as many entries as rows that yield one, so never more than rows. */
  lemma {:induction false} RowsEntriesCount(rows: seq<Row>)
    ensures |RowsEntries(rows)| == AcceptedRows(rows) <= |rows|
    decreases |rows|
  {
    if rows != [] {
      RowsEntriesCount(rows[..|rows| - 1]);
    }
  }

  /** Every entry comes from a row. */
  lemma {:induction false} RowsEntriesComeFromRows(rows: seq<Row>)
    ensures forall e :: e in RowsEntries(rows) ==> exists i :: 0 <= i < |rows| && RowEntry(rows[i]) == Some(e)
    decreases |rows|
  {
    if rows != [] {
      var n := |rows| - 1;
      var init := rows[..n];
      RowsEntriesComeFromRows(init);
      forall e | e in RowsEntries(rows) ensures exists i :: 0 <= i < |rows| && RowEntry(rows[i]) == Some(e) {
        if e in RowsEntries(init) {
          var i :| 0 <= i < |init| && RowEntry(init[i]) == Some(e);
          assert rows[i] == init[i];
        } else {
          assert RowEntry(rows[n]) == Some(e);
        }
      }
    }
  }

  /** Every row that yields an entry has it among the entries. */
  lemma {:induction false} RowsEntriesKeepRows(rows: seq<Row>)
    ensures forall i :: 0 <= i < |rows| && RowEntry(rows[i]).Some? ==> RowEntry(rows[i]).value in RowsEntries(rows)
    decreases |rows|
  {
    if rows != [] {
      var n := |rows| - 1;
      var init := rows[..n];
      RowsEntriesKeepRows(init);
      forall i | 0 <= i < |rows| && RowEntry(rows[i]).Some? ensures RowEntry(rows[i]).value in RowsEntries(rows) {
        if i < n {
          assert rows[i] == init[i];
        }
      }
    }
  }

  /** Each row yields at most one entry: every entry comes from a row, every
      accepted row's entry is there, and there are as many entries as accepted
      rows, so never more than rows. */
  lemma RowsEntriesFromRows(rows: seq<Row>)
    ensures |RowsEntries(rows)| == AcceptedRows(rows) <= |rows|
    ensures forall e :: e in RowsEntries(rows) ==> exists i :: 0 <= i < |rows| && RowEntry(rows[i]) == Some(e)
    ensures forall i :: 0 <= i < |rows| && RowEntry(rows[i]).Some? ==> RowEntry(rows[i]).value in RowsEntries(rows)
  {
    RowsEntriesCount(rows);
    RowsEntriesComeFromRows(rows);
    RowsEntriesKeepRows(rows);
  }

  /** Every entry of the page has a non-empty date text holding a date pattern
      match (also after lower-casing), a non-empty name and a period, and there
      are no more entries than rows. */
  lemma PageEntriesWellFormed(tables: seq<Table>)
    ensures |TablesEntries(tables)| <= TotalRows(tables)
    ensures forall e :: e in TablesEntries(tables) ==>
      && e.datumText.Some? && e.datumText.value != ""
      && e.naam.Some? && e.naam.value != ""
      && e.periode.Some?
      && (exists m :: PatternAt(e.datumText.value, m))
      && Search(Lower(e.datumText.value)).Some?
  {
    var rows := Flatten(tables);
    TablesAreConcatenated(tables);
    RowsEntriesFromRows(rows);
    forall e | e in TablesEntries(tables)
      ensures e.datumText.Some? && e.datumText.value != "" && e.naam.Some? && e.naam.value != "" && e.periode.Some?
      ensures exists m :: PatternAt(e.datumText.value, m)
      ensures Search(Lower(e.datumText.value)).Some?
    {
      var i :| 0 <= i < |rows| && RowEntry(rows[i]) == Some(e);
      RowEntryIff(rows[i]);
      RowEntryHasDateMatch(rows[i]);
    }
  }
}
