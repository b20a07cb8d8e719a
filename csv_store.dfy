/**
 * The CSV-backed event store of app/services/event_service.py.
 *
 * The file is abstracted to its rows: `None` when it does not exist, otherwise the
 * sequence of rows the csv module reads, each row the sequence of its text fields
 * (a blank line is the empty row). Quoting and encoding are below this level.
 */
module EventService {
  import opened Wrappers
  import opened Http
  import opened Integers
  import opened Uuids

  type Row = seq<string>

  type File = Option<seq<Row>>

  const Header: Row := ["id", "title", "date", "location", "capacity", "category"]

  /** The `max_length` bounds of `EventCreateSchema`. */
  const MaxTitle: nat := 100
  const MaxLocation: nat := 150

  const EventNotFound := HttpException(404, "Event not found.")

  /** `EventSchema`: an event as stored; `date` is text the store never interprets. */
  datatype Event = Event(id: Uuid, title: string, date: string, location: string, capacity: int, category: string)

  /** The field constraints pydantic enforces when an `EventSchema` is built. */
  predicate SchemaValid(e: Event) {
    |e.title| <= MaxTitle && |e.location| <= MaxLocation
  }

  predicate AllValid(es: seq<Event>) {
    forall i :: 0 <= i < |es| ==> SchemaValid(es[i])
  }

  /** The row `writer.writerow` emits for an event, fields in header order. */
  function EventRow(e: Event): (row: Row)
    ensures |row| == |Header| && row != []
  {
    [UuidText(e.id), e.title, e.date, e.location, IntText(e.capacity), e.category]
  }

  /**
   * One step of `read_events`: build an `EventSchema` from a record of `csv.DictReader`.
   * A row shorter than the header leaves keys at `None` and fails; extra fields are ignored.
   */
  function ParseRow(row: Row): (r: Option<Event>)
    ensures r.Some? ==> SchemaValid(r.value) && |row| >= |Header|
  {
    if |row| < |Header| then None
    else match ParseUuid(row[0])
      case None => None
      case Some(id) =>
        match ParseInt(row[4])
        case None => None
        case Some(capacity) =>
          var e := Event(id, row[1], row[2], row[3], capacity, row[5]);
          if SchemaValid(e) then Some(e) else None
  }

  function Parsed(row: Row): seq<Event> {
    match ParseRow(row)
    case Some(e) => [e]
    case None => []
  }

  /** The events parsed from a sequence of data rows, in order, every failing row skipped. */
  function ParsedEvents(rows: seq<Row>): (es: seq<Event>)
    ensures |es| <= |rows|
    ensures AllValid(es)
  {
    if rows == [] then [] else ParsedEvents(rows[..|rows| - 1]) + Parsed(rows[|rows| - 1])
  }

  /** The number of records `csv.DictReader` yields: the non-blank rows. */
  function RecordCount(rows: seq<Row>): (n: nat)
    ensures n <= |rows|
  {
    if rows == [] then 0 else RecordCount(rows[..|rows| - 1]) + (if rows[|rows| - 1] == [] then 0 else 1)
  }

  /** The rows of the file after `ensure_csv`. */
  function Ensured(f: File): (rows: seq<Row>)
    ensures |rows| >= 1 && rows[0] == Header
  {
    match f
    case None => [Header]
    case Some(old_rows) =>
      if |old_rows| >= 1 && old_rows[0] == Header then old_rows
      else [Header] + (if |old_rows| >= 1 then old_rows[1..] else [])
  }

  /** What `read_events` returns for a file. */
  function StoredEvents(f: File): seq<Event> {
    ParsedEvents(Ensured(f)[1..])
  }

  /** What `count_events` returns for a file. */
  function StoredCount(f: File): nat {
    RecordCount(Ensured(f)[1..])
  }

  function EventRows(es: seq<Event>): (rows: seq<Row>)
    ensures |rows| == |es|
  {
    seq(|es|, i requires 0 <= i < |es| => EventRow(es[i]))
  }

  /** The whole file a rewrite produces: the header, then one row per event. */
  function Table(es: seq<Event>): seq<Row> {
    [Header] + EventRows(es)
  }

  /** The events `update_event_csv` writes: every event with the new event's id replaced by it. */
  function ReplaceById(es: seq<Event>, u: Event): (r: seq<Event>)
    ensures |r| == |es|
  {
    seq(|es|, i requires 0 <= i < |es| => if es[i].id == u.id then u else es[i])
  }

  /** The events `delete_event_csv` writes: every event with the given id left out, order kept. */
  function RemoveById(es: seq<Event>, id: Uuid): (r: seq<Event>)
    ensures |r| <= |es|
    ensures !HasId(r, id)
  {
    if es == [] then []
    else
      var last := es[|es| - 1];
      RemoveById(es[..|es| - 1], id) + (if last.id == id then [] else [last])
  }

  predicate HasId(es: seq<Event>, id: Uuid) {
    exists i :: 0 <= i < |es| && es[i].id == id
  }

  // ---------------------------------------------------------------------------
  // The store itself: one object holding the file, rewritten by each operation.

  class EventFile {
    var file: File

    constructor (initial: File)
      ensures file == initial
    {
      file := initial;
    }

    /** `ensure_csv`: create the file with the header, or replace a missing or wrong first row. */
    method EnsureCsv()
      modifies this
      ensures file == Some(Ensured(old(file)))
    {
      if file.None? {
        file := Some([Header]);
        return;
      }
      var rows := file.value;
      if |rows| == 0 || rows[0] != Header {
        var remaining := if |rows| >= 1 then rows[1..] else [];
        var rewritten := [Header];
        for i := 0 to |remaining|
          invariant rewritten == [Header] + remaining[..i]
        {
          rewritten := rewritten + [remaining[i]];
        }
        assert remaining[..|remaining|] == remaining;
        file := Some(rewritten);
      }
    }

    /** `read_events`: normalise the header, then parse every data row, skipping the ones that fail. */
    method ReadEvents() returns (events: seq<Event>)
      modifies this
      ensures file == Some(Ensured(old(file)))
      ensures events == StoredEvents(old(file))
    {
      EnsureCsv();
      var rows := file.value;
      events := [];
      for i := 1 to |rows|
        invariant events == ParsedEvents(rows[1..i])
      {
        assert rows[1..i + 1][..i - 1] == rows[1..i] && rows[1..i + 1][i - 1] == rows[i];
        match ParseRow(rows[i])
        case Some(e) =>
          events := events + [e];
        case None =>
      }
      assert rows[1..|rows|] == rows[1..];
    }

    /** `write_event`: normalise the header, then append one row; no check for a repeated id. */
    method WriteEvent(e: Event)
      modifies this
      ensures file == Some(Ensured(old(file)) + [EventRow(e)])
    {
      EnsureCsv();
      file := Some(file.value + [EventRow(e)]);
    }

    /**
     * `update_event_csv`: rewrite the file from what `read_events` returned, with every event
     * carrying the new event's id replaced. A missing id is not reported.
     */
    method UpdateEventCsv(updated: Event)
      modifies this
      ensures file == Some(Table(ReplaceById(StoredEvents(old(file)), updated)))
    {
      var events := ReadEvents();
      EnsureCsv();
      var rows := [Header];
      for i := 0 to |events|
        invariant rows == Table(ReplaceById(events, updated)[..i])
      {
        var row := if events[i].id == updated.id then EventRow(updated) else EventRow(events[i]);
        EventRowsSnoc(ReplaceById(events, updated), i);
        rows := rows + [row];
      }
      assert ReplaceById(events, updated)[..|events|] == ReplaceById(events, updated);
      file := Some(rows);
    }

    /**
     * `delete_event_csv`: rewrite the file from what `read_events` returned, leaving out every
     * event with the id; raise not-found, after the rewrite, when none had it.
     */
    method DeleteEventCsv(eventId: Uuid) returns (r: Result<(), HttpException>)
      modifies this
      ensures file == Some(Table(RemoveById(StoredEvents(old(file)), eventId)))
      ensures r.Err? <==> !HasId(StoredEvents(old(file)), eventId)
      ensures r.Err? ==> r.error == EventNotFound
    {
      var events := ReadEvents();
      var found := false;
      EnsureCsv();
      var rows := [Header];
      ghost var kept := [];
      for i := 0 to |events|
        invariant kept == RemoveById(events[..i], eventId)
        invariant rows == Table(kept)
        invariant found <==> HasId(events[..i], eventId)
      {
        assert events[..i + 1] == events[..i] + [events[i]];
        HasIdSnoc(events[..i], events[i], eventId);
        if events[i].id == eventId {
          found := true;
          continue;
        }
        EventRowsAppend(kept, events[i]);
        rows := rows + [EventRow(events[i])];
        kept := kept + [events[i]];
      }
      assert events[..|events|] == events;
      file := Some(rows);
      if !found {
        return Err(EventNotFound);
      }
      return Ok(());
    }

    /** `count_events`: normalise the header, then count every record after it, parseable or not. */
    method CountEvents() returns (n: nat)
      modifies this
      ensures file == Some(Ensured(old(file)))
      ensures n == StoredCount(old(file))
    {
      EnsureCsv();
      var rows := file.value;
      n := 0;
      for i := 1 to |rows|
        invariant n == RecordCount(rows[1..i])
      {
        assert rows[1..i + 1][..i - 1] == rows[1..i] && rows[1..i + 1][i - 1] == rows[i];
        if rows[i] != [] {
          n := n + 1;
        }
      }
      assert rows[1..|rows|] == rows[1..];
    }

    /**
     * The update route of app/routes/event_router.py: look the id up with `read_events`
     * and answer 404 when it is absent, otherwise rewrite through `update_event_csv`.
     */
    method UpdateEventRoute(eventId: Uuid, payload: Event) returns (r: Result<Event, HttpException>)
      modifies this
      ensures var updated := payload.(id := eventId);
        if HasId(StoredEvents(old(file)), eventId) then
          r == Ok(updated) && file == Some(Table(ReplaceById(StoredEvents(old(file)), updated)))
        else
          r == Err(EventNotFound) && file == Some(Ensured(old(file)))
    {
      var all := ReadEvents();
      var i := 0;
      while i < |all| && all[i].id != eventId
        invariant 0 <= i <= |all|
        invariant !HasId(all[..i], eventId)
      {
        assert all[..i + 1][..i] == all[..i];
        i := i + 1;
      }
      if i == |all| {
        assert all[..i] == all;
        return Err(EventNotFound);
      }
      EnsuredIdempotent(old(file));
      var updated := payload.(id := eventId);
      UpdateEventCsv(updated);
      return Ok(updated);
    }
  }

  // ---------------------------------------------------------------------------
  // Properties of the file model.

  lemma EventRowsSnoc(es: seq<Event>, i: nat)
    requires i < |es|
    ensures EventRows(es[..i + 1]) == EventRows(es[..i]) + [EventRow(es[i])]
  {
  }

  lemma EventRowsAppend(es: seq<Event>, e: Event)
    ensures EventRows(es + [e]) == EventRows(es) + [EventRow(e)]
  {
  }

  /** A second `ensure_csv` changes nothing. */
  lemma EnsuredIdempotent(f: File)
    ensures Ensured(Some(Ensured(f))) == Ensured(f)
  {
  }

  /**
   * `ensure_csv` on an existing file keeps every row after the first; the first row is
   * kept when it is the header and otherwise lost, not shifted down.
   */
  lemma EnsuredKeepsData(rows: seq<Row>)
    requires |rows| >= 1
    ensures Ensured(Some(rows))[1..] == rows[1..]
    ensures rows[0] != Header ==> |Ensured(Some(rows))| == |rows|
  {
  }

  /** A row fails to parse on each of the source's error conditions. */
  lemma ParseRowRejects(row: Row)
    requires || |row| < |Header|
             || ParseUuid(row[0]).None?
             || ParseInt(row[4]).None?
             || |row[1]| > MaxTitle
             || |row[3]| > MaxLocation
    ensures ParseRow(row) == None
  {
  }

  /** Every event the schema accepts is read back unchanged from the row written for it. */
  lemma RowRoundTrip(e: Event)
    requires SchemaValid(e)
    ensures ParseRow(EventRow(e)) == Some(e)
  {
    UuidTextRoundTrip(e.id);
    IntTextRoundTrip(e.capacity);
  }

  lemma {:induction false} ParsedEventRows(es: seq<Event>)
    requires AllValid(es)
    ensures ParsedEvents(EventRows(es)) == es
    ensures RecordCount(EventRows(es)) == |es|
  {
    if es != [] {
      var n := |es|;
      assert EventRows(es)[..n - 1] == EventRows(es[..n - 1]);
      ParsedEventRows(es[..n - 1]);
      RowRoundTrip(es[n - 1]);
      assert es[..n - 1] + [es[n - 1]] == es;
    }
  }

  /** A rewritten file reads back as exactly the events written, and counts exactly them. */
  lemma TableRoundTrip(es: seq<Event>)
    requires AllValid(es)
    ensures StoredEvents(Some(Table(es))) == es
    ensures StoredCount(Some(Table(es))) == |es|
  {
    assert Table(es)[1..] == EventRows(es);
    ParsedEventRows(es);
  }

  /** `count_events` never reports fewer events than `read_events` returns. */
  lemma {:induction false} CountAtLeastRead(rows: seq<Row>)
    ensures |ParsedEvents(rows)| <= RecordCount(rows)
  {
    if rows != [] {
      CountAtLeastRead(rows[..|rows| - 1]);
    }
  }

  /** One non-blank row that fails to parse makes the count exceed the events read. */
  lemma {:induction false} CountExceedsReadOnBadRow(rows: seq<Row>, k: nat)
    requires k < |rows| && rows[k] != [] && ParseRow(rows[k]).None?
    ensures |ParsedEvents(rows)| < RecordCount(rows)
  {
    var n := |rows|;
    if k == n - 1 {
      CountAtLeastRead(rows[..n - 1]);
    } else {
      CountExceedsReadOnBadRow(rows[..n - 1], k);
    }
  }

  /** Appending a valid event with `write_event` makes `read_events` return it last, after the old events. */
  lemma WriteThenRead(f: File, e: Event)
    requires SchemaValid(e)
    ensures StoredEvents(Some(Ensured(f) + [EventRow(e)])) == StoredEvents(f) + [e]
    ensures StoredCount(Some(Ensured(f) + [EventRow(e)])) == StoredCount(f) + 1
  {
    var rows := Ensured(f) + [EventRow(e)];
    assert Ensured(Some(rows)) == rows;
    assert rows[1..] == Ensured(f)[1..] + [EventRow(e)];
    assert rows[1..][..|rows[1..]| - 1] == Ensured(f)[1..];
    RowRoundTrip(e);
  }

  /** `write_event` does not look for the id: writing an event whose id is stored yields two events with it. */
  lemma WriteRepeatsId(f: File, e: Event)
    requires SchemaValid(e) && HasId(StoredEvents(f), e.id)
    ensures var after := StoredEvents(Some(Ensured(f) + [EventRow(e)]));
      exists i, j :: 0 <= i < j < |after| && after[i].id == after[j].id == e.id
  {
    WriteThenRead(f, e);
    var after := StoredEvents(Some(Ensured(f) + [EventRow(e)]));
    var i :| 0 <= i < |StoredEvents(f)| && StoredEvents(f)[i].id == e.id;
    assert after[i].id == after[|after| - 1].id == e.id;
  }

  /** After `update_event_csv`, `read_events` returns the old events with every match replaced. */
  lemma UpdateReadBack(f: File, u: Event)
    requires SchemaValid(u)
    ensures StoredEvents(Some(Table(ReplaceById(StoredEvents(f), u)))) == ReplaceById(StoredEvents(f), u)
  {
    var es := ReplaceById(StoredEvents(f), u);
    assert AllValid(es);
    TableRoundTrip(es);
  }

  /** Every event with the id is replaced by the new one; every other event stays where it was. */
  lemma ReplaceByIdEffect(es: seq<Event>, u: Event, i: nat)
    requires i < |es|
    ensures es[i].id == u.id ==> ReplaceById(es, u)[i] == u
    ensures es[i].id != u.id ==> ReplaceById(es, u)[i] == es[i]
  {
  }

  /** An update whose id is absent leaves the events unchanged and reports nothing. */
  lemma UpdateAbsentKeepsEvents(es: seq<Event>, u: Event)
    requires !HasId(es, u.id)
    ensures ReplaceById(es, u) == es
  {
  }

  /** After `delete_event_csv`, `read_events` returns the old events without the id. */
  lemma DeleteReadBack(f: File, id: Uuid)
    ensures StoredEvents(Some(Table(RemoveById(StoredEvents(f), id)))) == RemoveById(StoredEvents(f), id)
    ensures HasId(StoredEvents(f), id) ==> |RemoveById(StoredEvents(f), id)| < |StoredEvents(f)|
  {
    var es := StoredEvents(f);
    RemoveByIdValid(es, id);
    TableRoundTrip(RemoveById(es, id));
    RemoveByIdSize(es, id);
  }

  lemma {:induction false} RemoveByIdValid(es: seq<Event>, id: Uuid)
    requires AllValid(es)
    ensures AllValid(RemoveById(es, id))
  {
    if es != [] {
      RemoveByIdValid(es[..|es| - 1], id);
    }
  }

  /** Deleting an id that no event has changes nothing; deleting one that some event has shrinks the events. */
  lemma {:induction false} RemoveByIdSize(es: seq<Event>, id: Uuid)
    ensures !HasId(es, id) ==> RemoveById(es, id) == es
    ensures HasId(es, id) ==> |RemoveById(es, id)| < |es|
  {
    if es != [] {
      var n := |es|;
      var prefix := es[..n - 1];
      RemoveByIdSize(prefix, id);
      assert prefix + [es[n - 1]] == es;
      if es[n - 1].id != id {
        HasIdSnoc(prefix, es[n - 1], id);
      }
    }
  }

  lemma HasIdSnoc(es: seq<Event>, e: Event, id: Uuid)
    ensures HasId(es + [e], id) <==> HasId(es, id) || e.id == id
  {
    if HasId(es, id) {
      var j :| 0 <= j < |es| && es[j].id == id;
      assert (es + [e])[j].id == id;
    }
    if e.id == id {
      assert (es + [e])[|es|].id == id;
    }
    if HasId(es + [e], id) && e.id != id {
      var j :| 0 <= j < |es| + 1 && (es + [e])[j].id == id;
      assert es[j].id == id;
    }
  }

  /** Deleting adds nothing: every event left was in the input and does not carry the id. */
  lemma {:induction false} RemoveByIdSubset(es: seq<Event>, id: Uuid)
    ensures forall x :: x in RemoveById(es, id) ==> x in es && x.id != id
  {
    if es != [] {
      var n := |es|;
      RemoveByIdSubset(es[..n - 1], id);
      forall x | x in RemoveById(es, id) ensures x in es && x.id != id {
        if x in RemoveById(es[..n - 1], id) {
          assert x in es[..n - 1];
          var j :| 0 <= j < n - 1 && es[..n - 1][j] == x;
          assert es[j] == x;
        } else {
          assert x == es[n - 1];
        }
      }
    }
  }

  /** Deleting keeps every event that does not carry the id. */
  lemma {:induction false} RemoveByIdKeeps(es: seq<Event>, id: Uuid, x: Event)
    requires x in es && x.id != id
    ensures x in RemoveById(es, id)
  {
    var n := |es|;
    if es[n - 1] != x {
      assert x in es[..n - 1] by {
        var j :| 0 <= j < n && es[j] == x;
        assert es[..n - 1][j] == x;
      }
      RemoveByIdKeeps(es[..n - 1], id, x);
    }
  }

  /**
   * Both rewrites write only what `read_events` returned, so a non-blank row it skipped is gone
   * afterwards: the count of the rewritten file falls below the count before.
   */
  lemma RewriteDropsSkippedRows(f: File, es: seq<Event>, k: nat)
    requires AllValid(es) && |es| <= |StoredEvents(f)|
    requires 1 <= k < |Ensured(f)| && Ensured(f)[k] != [] && ParseRow(Ensured(f)[k]).None?
    ensures StoredCount(Some(Table(es))) < StoredCount(f)
  {
    var data := Ensured(f)[1..];
    assert data[k - 1] == Ensured(f)[k];
    CountExceedsReadOnBadRow(data, k - 1);
    assert |StoredEvents(f)| < StoredCount(f);
    TableRoundTrip(es);
  }

  /** A concrete file: a header and one row whose id is not a UUID. */
  lemma UpdateDropsBadRowExample(u: Event)
    requires SchemaValid(u)
    ensures var f := Some([Header, ["not-a-uuid", "Talk", "01-05-2024", "Room A", "30", "Tech"]]);
      StoredCount(f) == 1 && StoredEvents(f) == [] &&
      StoredCount(Some(Table(ReplaceById(StoredEvents(f), u)))) == 0
  {
    var f := Some([Header, ["not-a-uuid", "Talk", "01-05-2024", "Room A", "30", "Tech"]]);
    assert ParseUuid("not-a-uuid") == None;
    assert Ensured(f)[1..] == [["not-a-uuid", "Talk", "01-05-2024", "Room A", "30", "Tech"]];
    TableRoundTrip([]);
  }
}
