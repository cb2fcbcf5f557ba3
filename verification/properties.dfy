/** Properties that tie the write path of the events router to the reads
    of the calendar backend, and the worked example of a first event. */
module Properties {
  import opened Values
  import opened Store
  import opened Server
  import opened EventsRouter

  /** A created event shows on the calendar exactly when its sport and its
      venue exist: the inner join hides it otherwise. */
  lemma CreateThenListed(st: Store, input: EventInput)
    requires CreateEvent(st, input).Success?
    ensures var c := CreateEvent(st, input).value;
      var inserted := c.store.events[|st.events|];
      && inserted.eventId == c.eventId
      && ((exists i :: 0 <= i < |Listing(c.store)| && Listing(c.store)[i].event == inserted) <==>
            (exists s :: s in st.sports && s.sportId == input.sportId.value) &&
            (exists v :: v in st.venues && v.venueId == input.venueId.value))
  {
    var c := CreateEvent(st, input).value;
    var inserted := c.store.events[|st.events|];
    ListedIffJoined(c.store, inserted);
  }

  /** One soccer match at noon on a calendar with no events yet. */
  const SeedStore := Store([Sport(1, Some("Soccer"))],
                           [Venue(1, Some("Main Field"), Some("Springfield"), Some("1 Elm St"))],
                           [], [])
  const NoonMatch := EventInput(Some(1), Some(1), Some(Some("2025-11-20")), Some(Some("12:00")),
                                None, Some([Some("Team A"), Some("Team B")]))
  const MatchRow := Event(1, 1, 1, Some("2025-11-20"), Some("12:00"), None)
  const AfterCreate := Store(SeedStore.sports, SeedStore.venues, [MatchRow],
                             [Participant(1, Some("Team A")), Participant(1, Some("Team B"))])

  const MatchJoined := JoinedRow(MatchRow, Some("Soccer"), Some("Main Field"))

  /** The match gets id 1 and reads back with both teams. */
  lemma FirstEventCreated()
    ensures CreateEvent(SeedStore, NoonMatch) == Success(Created(AfterCreate, 1))
    ensures GetEvent(AfterCreate, 1).Success?
    ensures GetEvent(AfterCreate, 1).value.participants == [Some("Team A"), Some("Team B")]
  {
    var names := [Some("Team A"), Some("Team B")];
    assert NextEventId([]) == 1;
    var added := ParticipantRows(1, names);
    assert added == AfterCreate.participants;
    assert SeedStore.participants + added == added;
    assert SeedStore.events + [MatchRow] == [MatchRow];
    AfterCreateJoin();
    assert FindById([MatchJoined], 1, RowEventId) == Some(MatchJoined);
    ParticipantsOfOwnRows(1, names);
  }

  lemma AfterCreateJoin()
    ensures JoinRows(AfterCreate) == [MatchJoined]
  {
    var st := AfterCreate;
    assert FindById(st.sports, 1, SportId) == Some(st.sports[0]);
    assert FindById(st.venues, 1, VenueId) == Some(st.venues[0]);
    assert JoinEvent(MatchRow, st.sports, st.venues) == Some(MatchJoined);
    JoinAllAppend([], MatchRow, st.sports, st.venues);
    assert st.events == [] + [MatchRow];
  }

  /** Sorting a single joined row leaves it alone. */
  lemma ListingOfOne(st: Store, row: JoinedRow)
    requires JoinRows(st) == [row]
    ensures Listing(st) == [row]
  {
    var rows := Listing(st);
    assert multiset(rows) == multiset{row};
    assert |rows| == |multiset(rows)| == 1;
    assert rows[0] in multiset(rows);
  }

  /** The calendar lists the match once, titled by sport and venue, and
      starting at noon with the seconds added. The store is passed in rather
      than named, which keeps the solver from evaluating the sort on it. */
  lemma FirstEventOnCalendar(st: Store)
    requires st == AfterCreate
    ensures |Listing(st)| == 1
    ensures ToCalendar(Listing(st)[0]) ==
      CalendarEntry(1, 1, 1, "Soccer @ Main Field", Some("2025-11-20T12:00:00"))
  {
    AfterCreateJoin();
    ListingOfOne(st, MatchJoined);
    MatchOnCalendar(Listing(st)[0]);
  }

  lemma MatchOnCalendar(row: JoinedRow)
    requires row == MatchJoined
    ensures ToCalendar(row) == CalendarEntry(1, 1, 1, "Soccer @ Main Field", Some("2025-11-20T12:00:00"))
  {
    NoonStart(row.event.eventDate.value, row.event.eventTime.value);
    assert Title(row.sport, row.venue) == "Soccer @ Main Field";
  }

  lemma NoonStart(date: string, time: string)
    requires date == "2025-11-20" && time == "12:00"
    ensures StartOf(Some(date), Some(time)) == Some("2025-11-20T12:00:00")
  {
    ClockColons(time);
    assert time + ":00" == "12:00:00";
    assert PadTime(Some(time)) == Some("12:00:00");
    assert date + "T" + "12:00:00" == "2025-11-20T12:00:00";
  }
}
