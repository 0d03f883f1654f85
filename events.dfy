/** The event loop of `getAllEvents`: every row of the event table after the first becomes one
    event, except rows tagged 特殊活动 (special) or 永久活动 (permanent). The row's time cell holds
    "start~end"; each end is turned into a date by `handleDateStr`, and the first end that cannot
    be resolved aborts the whole extraction with its error. */
module Events {
  import opened Wrappers
  import opened Text
  import opened JsDate
  import opened Timeline
  import opened Resolver

  const Special: string := "特殊活动"
  const Permanent: string := "永久活动"
  /** What destructuring binds to the end of a range written without "~", once `exec` turns
      `undefined` into a string. */
  const Undefined: string := "undefined"

  /** A row of the event table: its `data-param1` attribute (the comma-separated categories) and
      the texts of its first three cells (time range, identifier, name). */
  datatype EventRow = EventRow(category: string, timeCell: string, idCell: string, nameCell: string)

  /** An extracted event; `id` is the crc32 checksum of the identifier cell. */
  datatype Event = Event(id: string, name: string, description: string, start: Date, end: Date)

  /** What the event loop reads besides the rows: the version timeline, the clock, JavaScript's
      date parser and the crc32 checksum. */
  datatype Context = Context(version: map<string, Interval>, now: int, parse: string -> Date, hash: string -> string)

  /** `.slice(1)`: the first row is the table's header. */
  function DataRows(table: seq<EventRow>): (rows: seq<EventRow>)
    ensures |table| > 0 ==> table == [table[0]] + rows
    ensures |table| == 0 ==> rows == []
  {
    if |table| == 0 then [] else table[1..]
  }

  /** The row is skipped: one of its ", "-separated categories is 特殊活动 or 永久活动. */
  predicate IsExcluded(category: string) {
    var types := Split(category, ", ");
    Special in types || Permanent in types
  }

  /** `[startStr, endStr] = timeCell.replace('\n', '').split('~')`: the first two pieces, with
      "undefined" for a missing second piece. */
  function TimeEnds(timeCell: string): (ends: (string, string))
    ensures !Contains(ends.0, "~") && !Contains(ends.1, "~")
  {
    var pieces := Split(RemoveFirst(timeCell, '\n'), "~");
    MissingFirstChar(Undefined, "~");
    (pieces[0], if |pieces| > 1 then pieces[1] else Undefined)
  }

  /** The event of one kept row. The start is resolved before the end, so when both fail the
      error is the start's. */
  function BuildEvent(row: EventRow, ctx: Context): (r: Result<Event, ResolveError>)
    ensures var (a, b) := TimeEnds(row.timeCell);
            var ra, rb := Resolve(ctx.version, ctx.now, ctx.parse, a), Resolve(ctx.version, ctx.now, ctx.parse, b);
            (r.Success? <==> ra.Success? && rb.Success?) &&
            (ra.Failure? ==> r == Failure(ra.error)) &&
            (ra.Success? && rb.Failure? ==> r == Failure(rb.error)) &&
            (r.Success? ==> r.value.start == ra.value && r.value.end == rb.value &&
                            r.value.description == row.category &&
                            r.value.name == RemoveFirst(row.nameCell, '\n') &&
                            r.value.id == ctx.hash(RemoveFirst(row.idCell, '\n')))
  {
    var (a, b) := TimeEnds(row.timeCell);
    match Resolve(ctx.version, ctx.now, ctx.parse, a)
    case Failure(e) => Failure(e)
    case Success(start) =>
      match Resolve(ctx.version, ctx.now, ctx.parse, b)
      case Failure(e) => Failure(e)
      case Success(end) =>
        Success(Event(ctx.hash(RemoveFirst(row.idCell, '\n')), RemoveFirst(row.nameCell, '\n'),
                      row.category, start, end))
  }

  /** The row handler of the event loop: skipped rows give `None`, the others their event or
      the error thrown while building it. */
  function Handle(row: EventRow, ctx: Context): (h: Option<Result<Event, ResolveError>>) {
    if IsExcluded(row.category) then None else Some(BuildEvent(row, ctx))
  }

  function Handler(ctx: Context): (handle: EventRow -> Option<Result<Event, ResolveError>>) {
    row => Handle(row, ctx)
  }

  /** The rows that `handle` does not skip, in order. */
  function Kept(rows: seq<EventRow>, handle: EventRow -> Option<Result<Event, ResolveError>>): (kept: seq<EventRow>)
    ensures |kept| <= |rows|
    ensures forall k :: 0 <= k < |kept| ==> handle(kept[k]).Some?
  {
    if rows == [] then []
    else
      var init, last := rows[..|rows| - 1], rows[|rows| - 1];
      Kept(init, handle) + if handle(last).None? then [] else [last]
  }

  /** `Kept` is a filter that keeps the order: the rows kept from a concatenation are those kept
      from its first part followed by those kept from its second part. Together with the
      one-row case (its definition on `[row]`), this fixes `Kept` on every table. */
  lemma {:induction false} KeptAppend(a: seq<EventRow>, b: seq<EventRow>,
                                      handle: EventRow -> Option<Result<Event, ResolveError>>)
    ensures Kept(a + b, handle) == Kept(a, handle) + Kept(b, handle)
  {
    if b == [] {
      assert a + b == a;
    } else {
      var init, last := b[..|b| - 1], b[|b| - 1];
      assert (a + b)[..|a + b| - 1] == a + init;
      assert (a + b)[|a + b| - 1] == last;
      KeptAppend(a, init, handle);
    }
  }

  /** A row is kept exactly when it is in the table and the handler does not skip it. */
  lemma {:induction false} KeptMembers(rows: seq<EventRow>, handle: EventRow -> Option<Result<Event, ResolveError>>,
                                       row: EventRow)
    ensures row in Kept(rows, handle) <==> row in rows && handle(row).Some?
  {
    if rows != [] {
      var init, last := rows[..|rows| - 1], rows[|rows| - 1];
      KeptMembers(init, handle, row);
      assert rows == init + [last];
    }
  }

  /** The outcome of the loop over `rows`: the events pushed so far, or the first error thrown. */
  function Loop(rows: seq<EventRow>, handle: EventRow -> Option<Result<Event, ResolveError>>): (r: Result<seq<Event>, ResolveError>)
  {
    if rows == [] then Success([])
    else
      var init, last := rows[..|rows| - 1], rows[|rows| - 1];
      match Loop(init, handle)
      case Failure(e) => Failure(e)
      case Success(events) =>
        match handle(last)
        case None => Success(events)
        case Some(Failure(e)) => Failure(e)
        case Some(Success(event)) => Success(events + [event])
  }

  /** `getAllEvents` once both pages are fetched: builds the version timeline from its rows, then
      runs the event loop over the event table without its header row. */
  method GetAllEvents(versionRows: seq<VersionRow>, eventTable: seq<EventRow>, now: int,
                      parse: string -> Date, hash: string -> string)
    returns (r: Result<seq<Event>, ResolveError>)
    ensures r == Loop(DataRows(eventTable), Handler(Context(Build(versionRows, parse), now, parse, hash)))
  {
    var version := BuildTimeline(versionRows, parse);
    r := EachRow(DataRows(eventTable), Handler(Context(version, now, parse, hash)));
  }

  /** The `.each` loop over the event rows with the callback `handle`: pushes each event in turn
      and stops at the first error thrown. */
  method EachRow(rows: seq<EventRow>, handle: EventRow -> Option<Result<Event, ResolveError>>)
    returns (r: Result<seq<Event>, ResolveError>)
    ensures r == Loop(rows, handle)
  {
    var result: seq<Event> := [];
    var i := 0;
    while i < |rows|
      invariant 0 <= i <= |rows|
      invariant Loop(rows[..i], handle) == Success(result)
    {
      LoopStep(rows, i, handle);
      match handle(rows[i]) {
        case None =>
        case Some(Failure(e)) =>
          LoopFailureIsFinal(rows, i + 1, handle);
          return Failure(e);
        case Some(Success(event)) =>
          result := result + [event];
      }
      i := i + 1;
    }
    assert rows[..i] == rows;
    return Success(result);
  }

  /** One more row of the loop. */
  lemma LoopStep(rows: seq<EventRow>, i: nat, handle: EventRow -> Option<Result<Event, ResolveError>>)
    requires i < |rows|
    ensures Loop(rows[..i + 1], handle) ==
            match Loop(rows[..i], handle)
            case Failure(e) => Failure(e)
            case Success(events) =>
              match handle(rows[i])
              case None => Success(events)
              case Some(Failure(e)) => Failure(e)
              case Some(Success(event)) => Success(events + [event])
  {
    assert rows[..i + 1][..i] == rows[..i];
  }

  /** Once a prefix of the rows fails, so do all the rows, with the same error. */
  lemma {:induction false} LoopFailureIsFinal(rows: seq<EventRow>, n: nat, handle: EventRow -> Option<Result<Event, ResolveError>>)
    requires n <= |rows| && Loop(rows[..n], handle).Failure?
    ensures Loop(rows, handle) == Loop(rows[..n], handle)
    decreases |rows| - n
  {
    if n < |rows| {
      assert rows[..n + 1][..n] == rows[..n];
      LoopFailureIsFinal(rows, n + 1, handle);
    } else {
      assert rows[..n] == rows;
    }
  }

  /** On success there is one event per kept row, in order, each built from its row. */
  lemma {:induction false} LoopEvents(rows: seq<EventRow>, handle: EventRow -> Option<Result<Event, ResolveError>>)
    requires Loop(rows, handle).Success?
    ensures |Loop(rows, handle).value| == |Kept(rows, handle)|
    ensures forall k :: 0 <= k < |Kept(rows, handle)| ==>
                        handle(Kept(rows, handle)[k]) == Some(Success(Loop(rows, handle).value[k]))
  {
    if rows != [] {
      LoopEvents(rows[..|rows| - 1], handle);
    }
  }

  /** Every row that `handle` keeps builds an event. */
  predicate AllBuild(rows: seq<EventRow>, handle: EventRow -> Option<Result<Event, ResolveError>>) {
    forall k :: 0 <= k < |Kept(rows, handle)| ==> handle(Kept(rows, handle)[k]).value.Success?
  }

  /** When every kept row builds an event, the loop succeeds. */
  lemma {:induction false} LoopSucceedsWhenAllBuild(rows: seq<EventRow>, handle: EventRow -> Option<Result<Event, ResolveError>>)
    requires AllBuild(rows, handle)
    ensures Loop(rows, handle).Success?
  {
    if rows != [] {
      var init, last := rows[..|rows| - 1], rows[|rows| - 1];
      var kept, before := Kept(rows, handle), Kept(init, handle);
      forall k | 0 <= k < |before| ensures handle(before[k]).value.Success? {
        assert before[k] == kept[k];
      }
      LoopSucceedsWhenAllBuild(init, handle);
      if handle(last).Some? {
        assert kept[|before|] == last;
      }
    }
  }

  /** The loop succeeds exactly when every kept row builds an event. */
  lemma LoopSucceeds(rows: seq<EventRow>, handle: EventRow -> Option<Result<Event, ResolveError>>)
    ensures Loop(rows, handle).Success? <==> AllBuild(rows, handle)
  {
    if Loop(rows, handle).Success? {
      LoopEvents(rows, handle);
    } else if AllBuild(rows, handle) {
      LoopSucceedsWhenAllBuild(rows, handle);
    }
  }

  /** On failure, the error is that of the first kept row that cannot be built. */
  lemma {:induction false} LoopFails(rows: seq<EventRow>, handle: EventRow -> Option<Result<Event, ResolveError>>)
    requires Loop(rows, handle).Failure?
    ensures exists k :: 0 <= k < |Kept(rows, handle)| &&
                        handle(Kept(rows, handle)[k]) == Some(Failure(Loop(rows, handle).error)) &&
                        forall j :: 0 <= j < k ==> handle(Kept(rows, handle)[j]).value.Success?
  {
    var init, last := rows[..|rows| - 1], rows[|rows| - 1];
    var kept := Kept(rows, handle);
    assert forall k :: 0 <= k < |Kept(init, handle)| ==> kept[k] == Kept(init, handle)[k];
    if Loop(init, handle).Failure? {
      LoopFails(init, handle);
      var k :| 0 <= k < |Kept(init, handle)| && handle(Kept(init, handle)[k]) == Some(Failure(Loop(init, handle).error)) &&
               forall j :: 0 <= j < k ==> handle(Kept(init, handle)[j]).value.Success?;
      assert kept[k] == Kept(init, handle)[k];
      assert Loop(rows, handle).error == Loop(init, handle).error;
      assert forall j :: 0 <= j < k ==> handle(kept[j]).value.Success? by {
        forall j | 0 <= j < k ensures handle(kept[j]).value.Success? {
          assert kept[j] == Kept(init, handle)[j];
        }
      }
    } else {
      LoopSucceeds(init, handle);
      assert kept[|Kept(init, handle)|] == last;
    }
  }

  /** The categories `tags`, written with ", " between them, are excluded exactly when one of them
      is 特殊活动 or 永久活动; a category that merely contains one of those words is not. */
  lemma ExcludedCategories(tags: seq<string>)
    requires |tags| > 0 && forall k :: 0 <= k < |tags| ==> !Contains(tags[k], ", ")
    ensures IsExcluded(Join(tags, ", ")) <==> Special in tags || Permanent in tags
  {
    assert NoSelfOverlap(", ");
    SplitJoin(tags, ", ");
  }

  /** A cell that reads, once its first line break is removed, as pieces joined by "~" (no other
      "~") is read as its first two pieces; any further pieces are ignored. */
  lemma TimeEndsOfPieces(cell: string, pieces: seq<string>)
    requires |pieces| >= 2 && forall k :: 0 <= k < |pieces| ==> !Contains(pieces[k], "~")
    requires RemoveFirst(cell, '\n') == Join(pieces, "~")
    ensures TimeEnds(cell) == (pieces[0], pieces[1])
  {
    SplitJoin(pieces, "~");
  }

  /** A cell without "~" is all start (its first line break removed); its end is the string
      "undefined", which names no version and no launch, so it is handed to the date parser. */
  lemma TimeEndsWithoutTilde(cell: string, ctx: Context)
    requires !Contains(RemoveFirst(cell, '\n'), "~")
    ensures TimeEnds(cell) == (RemoveFirst(cell, '\n'), Undefined)
    ensures Resolve(ctx.version, ctx.now, ctx.parse, Undefined) == Success(ctx.parse("undefined UTC+0800"))
  {
    assert Undefined + " UTC+0800" == "undefined UTC+0800";
    SplitJoin([RemoveFirst(cell, '\n')], "~");
    NoDigitNoVersion(Undefined, AfterUpdate);
    NoDigitNoVersion(Undefined, BeforeEnd);
    NoDigitNoVersion(Undefined, AtEnd);
    MissingFirstChar(Undefined, AfterLaunch);
    ResolveAbsolute(ctx.version, ctx.now, ctx.parse, Undefined);
  }
}
