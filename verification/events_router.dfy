/** The FastAPI `/events` router: the date-ordered event list, one event
    with its participants, and the creation of an event with its
    participant rows. */
module EventsRouter {
  import opened Values
  import opened Collation
  import opened Sorting
  import opened Store

  /** One element of the `GET /events/` JSON array. */
  datatype EventSummary = EventSummary(eventId: int, eventDate: Text, eventTime: Text, sport: Text, venue: Text)

  function ToSummary(row: JoinedRow): EventSummary {
    EventSummary(row.event.eventId, row.event.eventDate, row.event.eventTime, row.sport, row.venue)
  }

  /** `ORDER BY e.event_date ASC`. */
  function DateKey(row: JoinedRow): SortKey {
    [row.event.eventDate]
  }

  /** `GET /events/`: the joined events as summaries, by ascending date. */
  function GetEvents(st: Store): (r: seq<EventSummary>)
    ensures multiset(r) == multiset(MapSeq(JoinRows(st), ToSummary))
    ensures forall i, j :: 0 <= i < j < |r| ==> TextLe(r[i].eventDate, r[j].eventDate)
  {
    var sorted := SortBy(JoinRows(st), DateKey);
    MapPermutation(sorted, JoinRows(st), ToSummary);
    forall i, j | 0 <= i < j < |sorted|
      ensures TextLe(sorted[i].event.eventDate, sorted[j].event.eventDate)
    {
      KeyLeSingle(sorted[i].event.eventDate, sorted[j].event.eventDate);
    }
    MapSeq(sorted, ToSummary)
  }

  /** The summaries listed are exactly those of the joined rows. */
  lemma GetEventsMembers(st: Store, x: EventSummary)
    ensures x in GetEvents(st) <==> exists row :: row in JoinRows(st) && ToSummary(row) == x
  {
    var rows := JoinRows(st);
    var mapped := MapSeq(rows, ToSummary);
    assert multiset(GetEvents(st)) == multiset(mapped);
    PermutationMembers(GetEvents(st), mapped);
    MappedMembers(rows, x);
  }

  lemma MappedMembers(rows: seq<JoinedRow>, x: EventSummary)
    ensures x in MapSeq(rows, ToSummary) <==> exists row :: row in rows && ToSummary(row) == x
  {
    var mapped := MapSeq(rows, ToSummary);
    if x in mapped {
      var k :| 0 <= k < |mapped| && mapped[k] == x;
      assert rows[k] in rows;
    }
    if exists row :: row in rows && ToSummary(row) == x {
      var row :| row in rows && ToSummary(row) == x;
      var k :| 0 <= k < |rows| && rows[k] == row;
      assert mapped[k] == x;
    }
  }

  /** A stored event is in the list exactly when its sport and its venue
      exist, and then with its own fields and the joined names. */
  lemma GetEventsListsJoined(st: Store, e: Event)
    requires UniqueIds(st.events, EventId)
    requires e in st.events
    ensures (exists i :: 0 <= i < |GetEvents(st)| && GetEvents(st)[i].eventId == e.eventId) <==> Joinable(st, e)
    ensures Joinable(st, e) ==> ToSummary(JoinEvent(e, st.sports, st.venues).value) in GetEvents(st)
  {
    var r := GetEvents(st);
    if Joinable(st, e) {
      var row := JoinEvent(e, st.sports, st.venues).value;
      GetEventsMembers(st, ToSummary(row));
      var i :| 0 <= i < |r| && r[i] == ToSummary(row);
    }
    if exists i :: 0 <= i < |r| && r[i].eventId == e.eventId {
      var i :| 0 <= i < |r| && r[i].eventId == e.eventId;
      GetEventsMembers(st, r[i]);
      var row :| row in JoinRows(st) && ToSummary(row) == r[i];
      SameIdSameEvent(st, row.event, e);
    }
  }

  /** Event ids are a key: two stored events with one id are one event. */
  lemma SameIdSameEvent(st: Store, e1: Event, e2: Event)
    requires UniqueIds(st.events, EventId)
    requires e1 in st.events && e2 in st.events && e1.eventId == e2.eventId
    ensures e1 == e2
  {
    var a :| 0 <= a < |st.events| && st.events[a] == e1;
    var b :| 0 <= b < |st.events| && st.events[b] == e2;
    assert EventId(st.events[a]) == EventId(st.events[b]);
  }

  /** `SELECT participant_name FROM event_participant WHERE event_id = ?`,
      in table order. */
  function ParticipantsOf(ps: seq<Participant>, id: int): (names: seq<Text>)
    ensures |names| <= |ps|
    ensures (forall i :: 0 <= i < |ps| ==> ps[i].eventId != id) ==> names == []
    ensures forall n {:trigger multiset(names)[n]} :: multiset(names)[n] == multiset(ps)[Participant(id, n)]
    decreases |ps|
  {
    if |ps| == 0 then []
    else
      assert ps == [ps[0]] + ps[1..];
      (if ps[0].eventId == id then [ps[0].name] else []) + ParticipantsOf(ps[1..], id)
  }

  /** The names returned are exactly those of the rows carrying the id. */
  lemma {:induction false} ParticipantsOfMembers(ps: seq<Participant>, id: int, n: Text)
    ensures n in ParticipantsOf(ps, id) <==> exists p :: p in ps && p.eventId == id && p.name == n
    decreases |ps|
  {
    if |ps| > 0 {
      ParticipantsOfMembers(ps[1..], id, n);
      assert ps == [ps[0]] + ps[1..];
    }
  }

  /** The query over two blocks of rows is the query over each block. */
  lemma {:induction false} ParticipantsOfAppend(a: seq<Participant>, b: seq<Participant>, id: int)
    ensures ParticipantsOf(a + b, id) == ParticipantsOf(a, id) + ParticipantsOf(b, id)
    decreases |a|
  {
    if |a| == 0 {
      assert a + b == b;
    } else {
      var head := if a[0].eventId == id then [a[0].name] else [];
      calc {
        ParticipantsOf(a + b, id);
        { assert a + b == [a[0]] + (a[1..] + b); }
        ParticipantsOf([a[0]] + (a[1..] + b), id);
        { ParticipantsOfCons(a[0], a[1..] + b, id); }
        head + ParticipantsOf(a[1..] + b, id);
        { ParticipantsOfAppend(a[1..], b, id); }
        head + (ParticipantsOf(a[1..], id) + ParticipantsOf(b, id));
        (head + ParticipantsOf(a[1..], id)) + ParticipantsOf(b, id);
        { ParticipantsOfCons(a[0], a[1..], id); assert [a[0]] + a[1..] == a; }
        ParticipantsOf(a, id) + ParticipantsOf(b, id);
      }
    }
  }

  lemma ParticipantsOfCons(p: Participant, ps: seq<Participant>, id: int)
    ensures ParticipantsOf([p] + ps, id) ==
      (if p.eventId == id then [p.name] else []) + ParticipantsOf(ps, id)
  {
    assert ([p] + ps)[1..] == ps;
  }

  /** The participant rows `create_event` inserts: one per name, in order. */
  function ParticipantRows(id: int, names: seq<Text>): (rows: seq<Participant>)
    ensures |rows| == |names|
    ensures forall i :: 0 <= i < |names| ==> rows[i] == Participant(id, names[i])
  {
    seq(|names|, i requires 0 <= i < |names| => Participant(id, names[i]))
  }

  /** Reading back the rows inserted for one event gives its names back. */
  lemma {:induction false} ParticipantsOfOwnRows(id: int, names: seq<Text>)
    ensures ParticipantsOf(ParticipantRows(id, names), id) == names
    decreases |names|
  {
    if |names| > 0 {
      var rows := ParticipantRows(id, names);
      assert rows[1..] == ParticipantRows(id, names[1..]);
      ParticipantsOfOwnRows(id, names[1..]);
      assert names == [names[0]] + names[1..];
    }
  }

  /** What the router raises instead of answering. */
  datatype RouterError =
    | NoJoinedRow(eventId: int)   // `dict(None)` raises on a missing event row
    | MissingField(field: string) // `event[key]` on a missing key

  /** The `GET /events/{event_id}` answer. */
  datatype EventDetail = EventDetail(event: Event, sport: Text, venue: Text, participants: seq<Text>)

  function RowEventId(row: JoinedRow): int {
    row.event.eventId
  }

  /** `GET /events/{event_id}`: the joined event row and the names of
      exactly its participant rows; fails when no joined row has the id. */
  function GetEvent(st: Store, id: int): (r: Result<EventDetail, RouterError>)
    ensures r.Success? <==> exists e :: e in st.events && e.eventId == id && Joinable(st, e)
    ensures r.Success? ==>
      && r.value.event in st.events
      && r.value.event.eventId == id
      && JoinEvent(r.value.event, st.sports, st.venues) == Some(JoinedRow(r.value.event, r.value.sport, r.value.venue))
      && r.value.participants == ParticipantsOf(st.participants, id)
    ensures r.Failure? ==> r.error == NoJoinedRow(id)
  {
    var rows := JoinRows(st);
    match FindById(rows, id, RowEventId)
    case None =>
      assert forall e :: e in st.events && e.eventId == id && Joinable(st, e) ==>
        RowEventId(JoinEvent(e, st.sports, st.venues).value) == id;
      Failure(NoJoinedRow(id))
    case Some(row) =>
      Success(EventDetail(row.event, row.sport, row.venue, ParticipantsOf(st.participants, id)))
  }

  /** The JSON body of `POST /events/`: each key may be absent. A present
      `description` may itself be null. */
  datatype EventInput = EventInput(
    sportId: Option<int>,
    venueId: Option<int>,
    eventDate: Option<Text>,
    eventTime: Option<Text>,
    description: Option<Text>,
    participants: Option<seq<Text>>)

  /** The rowid SQLite gives the next row: one more than the largest, or 1
      for an empty table. */
  function NextEventId(events: seq<Event>): (id: int)
    ensures forall i :: 0 <= i < |events| ==> events[i].eventId < id
    ensures |events| == 0 ==> id == 1
    ensures |events| > 0 ==> HasEvent(events, id - 1)
    decreases |events|
  {
    if |events| == 0 then 1
    else if |events| == 1 then events[0].eventId + 1
    else
      var rest := NextEventId(events[1..]);
      if events[0].eventId + 1 > rest then events[0].eventId + 1 else rest
  }

  /** The new store and the id of the inserted event. */
  datatype Created = Created(store: Store, eventId: int)

  /** `POST /events/`: insert the event, then one participant row per name. */
  function CreateEvent(st: Store, input: EventInput): (r: Result<Created, RouterError>)
    ensures input.sportId.None? ==> r == Failure(MissingField("sport_id"))
    ensures input.sportId.Some? && input.venueId.None? ==> r == Failure(MissingField("venue_id"))
    ensures input.sportId.Some? && input.venueId.Some? && input.eventDate.None? ==>
      r == Failure(MissingField("event_date"))
    ensures input.sportId.Some? && input.venueId.Some? && input.eventDate.Some? && input.eventTime.None? ==>
      r == Failure(MissingField("event_time"))
    ensures r.Success? <==>
      input.sportId.Some? && input.venueId.Some? && input.eventDate.Some? && input.eventTime.Some?
    ensures r.Success? ==>
      var c := r.value;
      var names := input.participants.GetOr([]);
      && !HasEvent(st.events, c.eventId)
      && c.store.sports == st.sports
      && c.store.venues == st.venues
      && |c.store.events| == |st.events| + 1
      && c.store.events[..|st.events|] == st.events
      && c.store.events[|st.events|] ==
           Event(c.eventId, input.sportId.value, input.venueId.value,
                 input.eventDate.value, input.eventTime.value, input.description.GetOr(None))
      && |c.store.participants| == |st.participants| + |names|
      && c.store.participants[..|st.participants|] == st.participants
      && forall i :: 0 <= i < |names| ==>
           c.store.participants[|st.participants| + i] == Participant(c.eventId, names[i])
    ensures r.Success? && input.description.None? ==> r.value.store.events[|st.events|].description.None?
    ensures r.Success? && input.participants.None? ==> r.value.store.participants == st.participants
  {
    if input.sportId.None? then Failure(MissingField("sport_id"))
    else if input.venueId.None? then Failure(MissingField("venue_id"))
    else if input.eventDate.None? then Failure(MissingField("event_date"))
    else if input.eventTime.None? then Failure(MissingField("event_time"))
    else
      var id := NextEventId(st.events);
      var event := Event(id, input.sportId.value, input.venueId.value,
                         input.eventDate.value, input.eventTime.value,
                         input.description.GetOr(None));
      var added := ParticipantRows(id, input.participants.GetOr([]));
      Success(Created(
        Store(st.sports, st.venues, st.events + [event], st.participants + added),
        id))
  }

  /** Creating an event keeps the keys unique and every participant row
      pointing at an event. */
  lemma CreatePreservesWellFormed(st: Store, input: EventInput)
    requires WellFormed(st)
    requires CreateEvent(st, input).Success?
    ensures WellFormed(CreateEvent(st, input).value.store)
  {
    var c := CreateEvent(st, input).value;
    var events := c.store.events;
    assert events == st.events + [events[|st.events|]];
    forall p | p in c.store.participants
      ensures HasEvent(events, p.eventId)
    {
      var k :| 0 <= k < |c.store.participants| && c.store.participants[k] == p;
      if k < |st.participants| {
        assert p in st.participants;
        var i :| 0 <= i < |st.events| && st.events[i].eventId == p.eventId;
        assert events[i] == st.events[i];
      } else {
        assert events[|st.events|].eventId == p.eventId;
      }
    }
  }

  /** Round trip: after a create, reading the new id back gives the stored
      row and exactly the participant names sent, in order, unless the
      sport or the venue is missing, in which case the read fails. */
  lemma CreateThenGet(st: Store, input: EventInput)
    requires WellFormed(st)
    requires CreateEvent(st, input).Success?
    ensures var c := CreateEvent(st, input).value;
      var g := GetEvent(c.store, c.eventId);
      && (g.Success? <==>
            (exists s :: s in st.sports && s.sportId == input.sportId.value) &&
            (exists v :: v in st.venues && v.venueId == input.venueId.value))
      && (g.Success? ==>
            && g.value.event == c.store.events[|st.events|]
            && g.value.event.eventDate == input.eventDate.value
            && g.value.event.eventTime == input.eventTime.value
            && g.value.event.description == input.description.GetOr(None)
            && g.value.participants == input.participants.GetOr([]))
  {
    var c := CreateEvent(st, input).value;
    CreatedParticipants(st, input);
    CreatedEventOnly(st, input);
    var inserted := c.store.events[|st.events|];
    assert inserted in c.store.events;
  }

  /** The participant rows carrying the new id are exactly the added ones. */
  lemma CreatedParticipants(st: Store, input: EventInput)
    requires WellFormed(st)
    requires CreateEvent(st, input).Success?
    ensures var c := CreateEvent(st, input).value;
      ParticipantsOf(c.store.participants, c.eventId) == input.participants.GetOr([])
  {
    var c := CreateEvent(st, input).value;
    var id := c.eventId;
    var names := input.participants.GetOr([]);
    var added := ParticipantRows(id, names);
    assert c.store.participants == st.participants + added;
    ParticipantsOfAppend(st.participants, added, id);
    ParticipantsOfOwnRows(id, names);
    forall i | 0 <= i < |st.participants|
      ensures st.participants[i].eventId != id
    {
      assert st.participants[i] in st.participants;
    }
  }

  /** The inserted row is the only event row carrying the new id. */
  lemma CreatedEventOnly(st: Store, input: EventInput)
    requires CreateEvent(st, input).Success?
    ensures var c := CreateEvent(st, input).value;
      forall e :: e in c.store.events && e.eventId == c.eventId ==> e == c.store.events[|st.events|]
  {
    var c := CreateEvent(st, input).value;
    assert c.store.events == st.events + [c.store.events[|st.events|]];
  }
}
