/** The database as an immutable value: one sequence of rows per table, in
    rowid order, and the inner join `event JOIN sport JOIN venue` that every
    event read is built on. */
module Store {
  import opened Values

  datatype Sport = Sport(sportId: int, name: Text)
  datatype Venue = Venue(venueId: int, name: Text, city: Text, address: Text)
  datatype Event = Event(eventId: int, sportId: int, venueId: int,
                         eventDate: Text, eventTime: Text, description: Text)
  datatype Participant = Participant(eventId: int, name: Text)

  datatype Store = Store(sports: seq<Sport>, venues: seq<Venue>,
                         events: seq<Event>, participants: seq<Participant>)

  function SportId(s: Sport): int { s.sportId }
  function VenueId(v: Venue): int { v.venueId }
  function EventId(e: Event): int { e.eventId }

  ghost predicate UniqueIds<T>(rows: seq<T>, idOf: T -> int) {
    forall i, j :: 0 <= i < j < |rows| ==> idOf(rows[i]) != idOf(rows[j])
  }

  predicate HasEvent(events: seq<Event>, id: int) {
    exists i :: 0 <= i < |events| && events[i].eventId == id
  }

  /** The primary keys are unique, and every participant row refers to an
      event row (the foreign key of `event_participant`). SQLite checks the
      keys but not the foreign key, so the second half is not a database
      guarantee: it is an invariant of the stores `create_event` produces
      from well-formed ones (`EventsRouter.CreatePreservesWellFormed`). */
  ghost predicate WellFormed(st: Store) {
    && UniqueIds(st.sports, SportId)
    && UniqueIds(st.venues, VenueId)
    && UniqueIds(st.events, EventId)
    && forall p :: p in st.participants ==> HasEvent(st.events, p.eventId)
  }

  /** The first row whose key is `id`, as `WHERE key = ?` with `fetchone()`. */
  function FindById<T>(rows: seq<T>, id: int, idOf: T -> int): (r: Option<T>)
    ensures r.Some? ==> r.value in rows && idOf(r.value) == id
    ensures r.None? <==> forall i :: 0 <= i < |rows| ==> idOf(rows[i]) != id
    decreases |rows|
  {
    if |rows| == 0 then None
    else if idOf(rows[0]) == id then Some(rows[0])
    else FindById(rows[1..], id, idOf)
  }

  /** With unique keys the row found is the one row carrying the key. */
  lemma {:induction false} FindByIdUnique<T>(rows: seq<T>, id: int, idOf: T -> int, i: int)
    requires UniqueIds(rows, idOf)
    requires 0 <= i < |rows| && idOf(rows[i]) == id
    ensures FindById(rows, id, idOf) == Some(rows[i])
    decreases |rows|
  {
    if i > 0 {
      assert idOf(rows[0]) != id;
      FindByIdUnique(rows[1..], id, idOf, i - 1);
    }
  }

  /** One row of `event e JOIN sport s ON e.sport_id = s.sport_id
      JOIN venue v ON e.venue_id = v.venue_id`, with the sport's and the
      venue's names. */
  datatype JoinedRow = JoinedRow(event: Event, sport: Text, venue: Text)

  /** The inner join of one event: nothing when its sport or its venue is missing. */
  function JoinEvent(e: Event, sports: seq<Sport>, venues: seq<Venue>): (r: Option<JoinedRow>)
    ensures r.Some? <==>
      (exists s :: s in sports && s.sportId == e.sportId) &&
      (exists v :: v in venues && v.venueId == e.venueId)
    ensures r.Some? ==>
      && r.value.event == e
      && (exists s :: s in sports && s.sportId == e.sportId && s.name == r.value.sport)
      && (exists v :: v in venues && v.venueId == e.venueId && v.name == r.value.venue)
  {
    match (FindById(sports, e.sportId, SportId), FindById(venues, e.venueId, VenueId))
    case (Some(s), Some(v)) => Some(JoinedRow(e, s.name, v.name))
    case _ => None
  }

  /** The joined rows of `events`, in table order: one row for each event
      that has both a sport and a venue, and none for the others. */
  function JoinAll(events: seq<Event>, sports: seq<Sport>, venues: seq<Venue>): (rows: seq<JoinedRow>)
    ensures |rows| <= |events|
    ensures forall r :: r in rows ==> r.event in events && JoinEvent(r.event, sports, venues) == Some(r)
    ensures forall e :: e in events && JoinEvent(e, sports, venues).Some? ==>
      JoinEvent(e, sports, venues).value in rows
    ensures forall e {:trigger multiset(events)[e]} :: JoinEvent(e, sports, venues).Some? ==>
      multiset(rows)[JoinEvent(e, sports, venues).value] == multiset(events)[e]
    decreases |events|
  {
    if |events| == 0 then []
    else
      assert events == [events[0]] + events[1..];
      JoinOne(events[0], sports, venues) + JoinAll(events[1..], sports, venues)
  }

  function JoinRows(st: Store): seq<JoinedRow> {
    JoinAll(st.events, st.sports, st.venues)
  }

  predicate Joinable(st: Store, e: Event) {
    JoinEvent(e, st.sports, st.venues).Some?
  }

  /** The joined rows an event contributes: its join, or nothing. */
  function JoinOne(e: Event, sports: seq<Sport>, venues: seq<Venue>): seq<JoinedRow> {
    match JoinEvent(e, sports, venues)
    case Some(r) => [r]
    case None => []
  }

  lemma JoinAllCons(e: Event, events: seq<Event>, sports: seq<Sport>, venues: seq<Venue>)
    ensures JoinAll([e] + events, sports, venues) ==
      JoinOne(e, sports, venues) + JoinAll(events, sports, venues)
  {
    assert ([e] + events)[0] == e && ([e] + events)[1..] == events;
  }

  /** Appending an event row appends its joined row, if it has one. */
  lemma {:induction false} JoinAllAppend(events: seq<Event>, e: Event, sports: seq<Sport>, venues: seq<Venue>)
    ensures JoinAll(events + [e], sports, venues) ==
      JoinAll(events, sports, venues) + JoinOne(e, sports, venues)
    decreases |events|
  {
    if |events| == 0 {
      calc {
        JoinAll(events + [e], sports, venues);
        { assert events + [e] == [e] + []; }
        JoinAll([e] + [], sports, venues);
        { JoinAllCons(e, [], sports, venues); }
        JoinOne(e, sports, venues) + JoinAll([], sports, venues);
        { assert events == []; }
        JoinAll(events, sports, venues) + JoinOne(e, sports, venues);
      }
    } else {
      var first := JoinOne(events[0], sports, venues);
      calc {
        JoinAll(events + [e], sports, venues);
        { assert events + [e] == [events[0]] + (events[1..] + [e]); }
        JoinAll([events[0]] + (events[1..] + [e]), sports, venues);
        { JoinAllCons(events[0], events[1..] + [e], sports, venues); }
        first + JoinAll(events[1..] + [e], sports, venues);
        { JoinAllAppend(events[1..], e, sports, venues); }
        first + (JoinAll(events[1..], sports, venues) + JoinOne(e, sports, venues));
        (first + JoinAll(events[1..], sports, venues)) + JoinOne(e, sports, venues);
        { JoinAllCons(events[0], events[1..], sports, venues); assert [events[0]] + events[1..] == events; }
        JoinAll(events, sports, venues) + JoinOne(e, sports, venues);
      }
    }
  }
}
