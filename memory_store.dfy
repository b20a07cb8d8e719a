/**
 * The in-memory event store of app/api/endpoints/event_router.py (the router the
 * application mounts) and of its line-for-line copy app/api/endpoints/events.py.
 * Each module keeps its own module-level `events` list; one `EventList` object
 * stands for one such list.
 */
module MemoryStore {
  import opened Wrappers
  import opened Http

  /**
   * The `Event` request model. The request's own `id` is overwritten before an event is
   * stored, so a stored event always carries an integer id; `date` is kept opaque.
   */
  datatype Event = Event(id: int, title: string, date: string, location: string, capacity: int)

  const EventNotFound := HttpException(404, "Event not found")

  /** k is the position of the first event with the id. */
  predicate IsFirstMatch(s: seq<Event>, id: int, k: nat) {
    k < |s| && s[k].id == id && forall j :: 0 <= j < k ==> s[j].id != id
  }

  predicate Absent(s: seq<Event>, id: int) {
    forall j :: 0 <= j < |s| ==> s[j].id != id
  }

  /** Where the handlers' search loop stops: the first event with the id, if any. */
  function IndexOf(s: seq<Event>, id: int): (r: Option<nat>)
    ensures r.Some? ==> IsFirstMatch(s, id, r.value)
    ensures r.None? ==> Absent(s, id)
  {
    if s == [] then None
    else if s[0].id == id then Some(0)
    else match IndexOf(s[1..], id)
      case None => None
      case Some(k) => Some(k + 1)
  }

  /** Positions with the same id as some other position. */
  predicate HasDuplicateIds(s: seq<Event>) {
    exists i, j :: 0 <= i < j < |s| && s[i].id == s[j].id
  }

  class EventList {
    var events: seq<Event>

    /** The list as the module starts it: empty. */
    constructor ()
      ensures events == []
    {
      events := [];
    }

    /** `create_event`: the new id is the current length plus one; the event is appended. */
    method CreateEvent(e: Event) returns (created: Event)
      modifies this
      ensures created == e.(id := |old(events)| + 1)
      ensures events == old(events) + [created]
    {
      created := e.(id := |events| + 1);
      events := events + [created];
    }

    /** `get_events`: the whole list, as it is. */
    method GetEvents() returns (all: seq<Event>)
      ensures all == events
    {
      all := events;
    }

    /** `get_event`: the first event with the id, or 404 when there is none. */
    method GetEvent(eventId: int) returns (r: Result<Event, HttpException>)
      ensures match IndexOf(events, eventId)
        case None => r == Err(EventNotFound)
        case Some(k) => r == Ok(events[k])
    {
      for i := 0 to |events|
        invariant Absent(events[..i], eventId)
      {
        if events[i].id == eventId {
          assert IsFirstMatch(events, eventId, i);
          return Ok(events[i]);
        }
      }
      assert events[..|events|] == events;
      return Err(EventNotFound);
    }

    /**
     * `update_event`: the first event with the id is overwritten in place by the new one,
     * which takes over the old id; 404 and no change when there is none.
     */
    method UpdateEvent(eventId: int, updated: Event) returns (r: Result<Event, HttpException>)
      modifies this
      ensures match IndexOf(old(events), eventId)
        case None => r == Err(EventNotFound) && events == old(events)
        case Some(k) =>
          r == Ok(updated.(id := eventId)) && events == old(events)[k := updated.(id := eventId)]
    {
      for i := 0 to |events|
        invariant Absent(events[..i], eventId)
      {
        if events[i].id == eventId {
          assert IsFirstMatch(events, eventId, i);
          var stored := updated.(id := events[i].id);
          events := events[i := stored];
          return Ok(stored);
        }
      }
      assert events[..|events|] == events;
      return Err(EventNotFound);
    }

    /** `delete_event`: the first event with the id is popped; 404 and no change when there is none. */
    method DeleteEvent(eventId: int) returns (r: Result<(), HttpException>)
      modifies this
      ensures match IndexOf(old(events), eventId)
        case None => r == Err(EventNotFound) && events == old(events)
        case Some(k) => r == Ok(()) && events == old(events)[..k] + old(events)[k + 1..]
    {
      for i := 0 to |events|
        invariant Absent(events[..i], eventId)
      {
        if events[i].id == eventId {
          assert IsFirstMatch(events, eventId, i);
          events := events[..i] + events[i + 1..];
          return Ok(());
        }
      }
      assert events[..|events|] == events;
      return Err(EventNotFound);
    }
  }

  // ---------------------------------------------------------------------------
  // Properties of the list operations.

  /** The first match is unique, so the search finds exactly it. */
  lemma IndexOfFirst(s: seq<Event>, id: int, k: nat)
    requires IsFirstMatch(s, id, k)
    ensures IndexOf(s, id) == Some(k)
  {
  }

  /** Popping the first match shortens the list by one and keeps the others in order. */
  lemma DeleteShape(s: seq<Event>, k: nat, i: nat)
    requires k < |s| && i < |s| - 1
    ensures |s[..k] + s[k + 1..]| == |s| - 1
    ensures (s[..k] + s[k + 1..])[i] == if i < k then s[i] else s[i + 1]
  {
  }

  /** Only the first match goes: a second event with the same id survives the delete. */
  lemma {:induction false} DeleteRemovesOnlyFirst(s: seq<Event>, id: int, j: nat)
    requires IndexOf(s, id).Some? && IndexOf(s, id).value < j < |s| && s[j].id == id
    ensures var k := IndexOf(s, id).value; !Absent(s[..k] + s[k + 1..], id)
  {
    var k := IndexOf(s, id).value;
    assert (s[..k] + s[k + 1..])[j - 1] == s[j];
  }

  /** Only the first match is replaced: a second event with the same id is left as it was. */
  lemma UpdateReplacesOnlyFirst(s: seq<Event>, id: int, u: Event, j: nat)
    requires IndexOf(s, id).Some? && j < |s| && j != IndexOf(s, id).value
    ensures s[IndexOf(s, id).value := u.(id := id)][j] == s[j]
  {
  }

  /**
   * The id of a create depends only on the length. In a list built by creates alone
   * (ids 1..n), deleting any event but the last makes the next create reuse the last id.
   */
  lemma {:induction false} CreateReusesIdAfterDelete(s: seq<Event>, k: nat, e: Event)
    requires forall i :: 0 <= i < |s| ==> s[i].id == i + 1
    requires k < |s| - 1
    ensures var t := s[..k] + s[k + 1..];
      HasDuplicateIds(t + [e.(id := |t| + 1)])
  {
    var t := s[..k] + s[k + 1..];
    var u := t + [e.(id := |t| + 1)];
    assert t[|t| - 1] == s[|s| - 1];
    assert u[|t| - 1].id == u[|t|].id;
  }

  /** Without deletes the scheme is sound: in a list of ids 1..n, the next id n + 1 is fresh. */
  lemma CreateFreshWithoutDelete(s: seq<Event>)
    requires forall i :: 0 <= i < |s| ==> s[i].id == i + 1
    ensures Absent(s, |s| + 1)
  {
  }

  /** create, create, delete(1), create on a fresh list: both remaining events have id 2. */
  method IdReuseScenario(a: Event, b: Event, c: Event) returns (events: seq<Event>)
    ensures |events| == 2 && events[0].id == 2 && events[1].id == 2
  {
    var store := new EventList();
    var _ := store.CreateEvent(a);
    var _ := store.CreateEvent(b);
    assert store.events[0].id == 1;
    var _ := store.DeleteEvent(1);
    var _ := store.CreateEvent(c);
    events := store.events;
  }
}
