/** The version timeline of `getAllEvents`: one entry per data row of the version-history table,
    keyed by the row's header-cell text, starting at the parsed first data cell and ending six
    weeks later. The timeline is a dictionary filled row by row, so a later row with the same key
    replaces the earlier entry. */
module Timeline {
  import opened Text
  import opened Calendar
  import opened JsDate

  /** A data row of the version-history table: the text of its header cell (`th`) and of its
      first data cell (`td`), as the document gives them. */
  datatype VersionRow = VersionRow(headerText: string, dateText: string)

  /** One version's window. */
  datatype Interval = Interval(start: Date, end: Date)

  /** The dictionary key of a row: its header text without its first line break. */
  function KeyOf(row: VersionRow): (key: string) {
    RemoveFirst(row.headerText, '\n')
  }

  /** The window of a row: the first data cell, line break removed, parsed as a UTC+8 date, and the
      same instant 42 days later. `parse` stands for JavaScript's `new Date(string)`. */
  function IntervalOf(row: VersionRow, parse: string -> Date): (iv: Interval)
    ensures SixWeeks(iv)
  {
    var start := parse(RemoveFirst(row.dateText, '\n') + " UTC+0800");
    Interval(start, AddDays(start, VersionDays))
  }

  /** The dictionary after writing the rows one after the other. */
  function Build(rows: seq<VersionRow>, parse: string -> Date): (version: map<string, Interval>)
  {
    if rows == [] then map[]
    else
      var last := rows[|rows| - 1];
      Build(rows[..|rows| - 1], parse)[KeyOf(last) := IntervalOf(last, parse)]
  }

  /** A window is six weeks long: its end is computed from its start, never read. */
  predicate SixWeeks(iv: Interval) {
    match iv.start
    case Instant(ms) => iv.end == Instant(ms + 42 * 86_400_000)
    case InvalidDate => iv.end == InvalidDate
  }

  /** The version loop of `getAllEvents`: writes each row's entry into the dictionary in turn. */
  method BuildTimeline(rows: seq<VersionRow>, parse: string -> Date) returns (version: map<string, Interval>)
    ensures version == Build(rows, parse)
    ensures forall key :: key in version ==> SixWeeks(version[key])
  {
    version := map[];
    var i := 0;
    while i < |rows|
      invariant 0 <= i <= |rows|
      invariant version == Build(rows[..i], parse)
      invariant forall key :: key in version ==> SixWeeks(version[key])
    {
      var row := rows[i];
      var key := RemoveFirst(row.headerText, '\n');
      var start := parse(RemoveFirst(row.dateText, '\n') + " UTC+0800");
      var end := AddDays(start, VersionDays);
      version := version[key := Interval(start, end)];
      assert rows[..i + 1][..i] == rows[..i];
      i := i + 1;
    }
    assert rows[..i] == rows;
  }

  /** The keys of the timeline are exactly the keys of the rows. */
  lemma {:induction false} BuildKeys(rows: seq<VersionRow>, parse: string -> Date, key: string)
    ensures key in Build(rows, parse) <==> exists i :: 0 <= i < |rows| && KeyOf(rows[i]) == key
  {
    if rows != [] {
      var init, last := rows[..|rows| - 1], rows[|rows| - 1];
      BuildKeys(init, parse, key);
      assert Build(rows, parse) == Build(init, parse)[KeyOf(last) := IntervalOf(last, parse)];
      if key in Build(rows, parse) {
        if KeyOf(last) == key {
          assert KeyOf(rows[|rows| - 1]) == key;
        } else {
          var i :| 0 <= i < |init| && KeyOf(init[i]) == key;
          assert rows[i] == init[i];
        }
      } else {
        forall i | 0 <= i < |rows| ensures KeyOf(rows[i]) != key {
          if i < |init| {
            assert rows[i] == init[i];
          }
        }
      }
    }
  }

  /** Last write wins: the entry for a key is the window of the LAST row with that key. */
  lemma {:induction false} BuildLastWriteWins(rows: seq<VersionRow>, parse: string -> Date, i: int)
    requires 0 <= i < |rows|
    requires forall j :: i < j < |rows| ==> KeyOf(rows[j]) != KeyOf(rows[i])
    ensures KeyOf(rows[i]) in Build(rows, parse)
    ensures Build(rows, parse)[KeyOf(rows[i])] == IntervalOf(rows[i], parse)
  {
    var init := rows[..|rows| - 1];
    if i < |rows| - 1 {
      forall j | i < j < |init| ensures KeyOf(init[j]) != KeyOf(init[i]) {
        assert init[j] == rows[j];
      }
      BuildLastWriteWins(init, parse, i);
      assert init[i] == rows[i];
    }
  }

  /** Appending a row overwrites the entry for its key and leaves every other entry as it was. */
  lemma AppendRowOverwrites(rows: seq<VersionRow>, row: VersionRow, parse: string -> Date, key: string)
    ensures var before, after := Build(rows, parse), Build(rows + [row], parse);
            (key == KeyOf(row) ==> key in after && after[key] == IntervalOf(row, parse)) &&
            (key != KeyOf(row) ==> (key in after <==> key in before) &&
                                   (key in before ==> after[key] == before[key]))
  {
    assert (rows + [row])[..|rows|] == rows;
  }

  /** Every window in the timeline is six weeks long. */
  lemma {:induction false} BuildSixWeeks(rows: seq<VersionRow>, parse: string -> Date)
    ensures forall key :: key in Build(rows, parse) ==> SixWeeks(Build(rows, parse)[key])
  {
    if rows != [] {
      BuildSixWeeks(rows[..|rows| - 1], parse);
    }
  }
}
