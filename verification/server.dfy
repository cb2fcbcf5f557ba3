/** The Flask calendar backend: `/api/sports` and `/api/venues` list their
    tables by name, and `/api/events` turns each joined event row, in
    (date, time) order, into a calendar entry with a title and an ISO
    `start` timestamp. */
module Server {
  import opened Values
  import opened Collation
  import opened Sorting
  import opened TextSplit
  import opened Store

  /** The time column with `:00` appended when it is a non-empty time with
      exactly one colon, i.e. when splitting it on ':' gives two pieces
      (so "12:" becomes "12::00"). */
  function PadTime(time: Text): (r: Text)
    ensures Truthy(time) && CountChar(time.value, ':') == 1 ==> r == Some(time.value + ":00")
    ensures !(Truthy(time) && CountChar(time.value, ':') == 1) ==> r == time
    ensures Truthy(r) <==> Truthy(time)
  {
    if Truthy(time) && |Split(time.value, ':')| == 2 then Some(time.value + ":00") else time
  }

  /** The calendar `start`: date, a 'T', and the padded time, or NULL
      unless both the date and the time are non-empty. */
  function StartOf(date: Text, time: Text): (r: Text)
    ensures r.Some? <==> Truthy(date) && Truthy(time)
    ensures r.Some? ==> r.value == date.value + "T" + PadTime(time).value
  {
    var padded := PadTime(time);
    if Truthy(date) && Truthy(padded) then Some(date.value + "T" + padded.value) else None
  }

  /** The calendar `title`, "<sport> @ <venue>". */
  function Title(sport: Text, venue: Text): (r: string)
    ensures |r| == |Show(sport)| + 3 + |Show(venue)|
    ensures r[..|Show(sport)|] == Show(sport)
    ensures r[|Show(sport)|..|Show(sport)| + 3] == " @ "
    ensures r[|Show(sport)| + 3..] == Show(venue)
  {
    Show(sport) + " @ " + Show(venue)
  }

  /** When no sport name contains `@`, the title determines both of its
      parts: the first `@` sits right after the sport text. */
  lemma TitleDeterminesParts(s1: Text, v1: Text, s2: Text, v2: Text)
    requires '@' !in Show(s1) && '@' !in Show(s2)
    requires Title(s1, v1) == Title(s2, v2)
    ensures Show(s1) == Show(s2) && Show(v1) == Show(v2)
  {
    FirstAtSign(s1, v1);
    FirstAtSign(s2, v2);
    var t := Title(s1, v1);
    var n1 := |Show(s1)|;
    assert Show(s1) == t[..n1] == Show(s2);
    assert Show(v1) == t[n1 + 3..] == Show(v2);
  }

  lemma FirstAtSign(sport: Text, venue: Text)
    requires '@' !in Show(sport)
    ensures Title(sport, venue)[|Show(sport)| + 1] == '@'
    ensures forall k :: 0 <= k <= |Show(sport)| ==> Title(sport, venue)[k] != '@'
  {
    var t := Title(sport, venue);
    forall k | 0 <= k <= |Show(sport)|
      ensures t[k] != '@'
    {
      if k < |Show(sport)| {
        assert t[k] == Show(sport)[k];
      }
    }
  }

  /** One element of the `/api/events` JSON array. */
  datatype CalendarEntry = CalendarEntry(id: int, sportId: int, venueId: int, title: string, start: Text)

  function ToCalendar(row: JoinedRow): (c: CalendarEntry)
    ensures c.id == row.event.eventId
    ensures c.sportId == row.event.sportId && c.venueId == row.event.venueId
    ensures c.title == Title(row.sport, row.venue)
    ensures c.start == StartOf(row.event.eventDate, row.event.eventTime)
  {
    CalendarEntry(row.event.eventId, row.event.sportId, row.event.venueId,
                  Title(row.sport, row.venue), StartOf(row.event.eventDate, row.event.eventTime))
  }

  /** `ORDER BY e.event_date, e.event_time`. */
  function DateTimeKey(row: JoinedRow): SortKey {
    [row.event.eventDate, row.event.eventTime]
  }

  /** `a` may come before `b`: an earlier date, or the same date and a time
      no later. */
  predicate DateTimeLe(a: JoinedRow, b: JoinedRow) {
    !TextLe(b.event.eventDate, a.event.eventDate) ||
    (a.event.eventDate == b.event.eventDate && TextLe(a.event.eventTime, b.event.eventTime))
  }

  lemma SortedByDateTime(rows: seq<JoinedRow>)
    requires SortedBy(rows, DateTimeKey)
    ensures forall i, j :: 0 <= i < j < |rows| ==> DateTimeLe(rows[i], rows[j])
  {
    forall i, j | 0 <= i < j < |rows|
      ensures DateTimeLe(rows[i], rows[j])
    {
      var a, b := rows[i].event, rows[j].event;
      KeyLePair(a.eventDate, a.eventTime, b.eventDate, b.eventTime);
    }
  }

  /** The rows the `/api/events` query returns. */
  function Listing(st: Store): (rows: seq<JoinedRow>)
    ensures multiset(rows) == multiset(JoinRows(st))
    ensures forall i, j :: 0 <= i < j < |rows| ==> DateTimeLe(rows[i], rows[j])
  {
    var rows := SortBy(JoinRows(st), DateTimeKey);
    SortedByDateTime(rows);
    rows
  }

  /** An event is listed exactly when both its sport and its venue exist. */
  lemma ListedIffJoined(st: Store, e: Event)
    ensures (exists i :: 0 <= i < |Listing(st)| && Listing(st)[i].event == e) <==>
      && e in st.events
      && (exists s :: s in st.sports && s.sportId == e.sportId)
      && (exists v :: v in st.venues && v.venueId == e.venueId)
  {
    var rows := Listing(st);
    PermutedJoinMembers(rows, st, e);
    var joined := JoinEvent(e, st.sports, st.venues);
    assert joined.Some? <==>
      (exists s :: s in st.sports && s.sportId == e.sportId) &&
      (exists v :: v in st.venues && v.venueId == e.venueId);
  }

  /** Any reordering of the joined rows holds the same events. */
  lemma PermutedJoinMembers(rows: seq<JoinedRow>, st: Store, e: Event)
    requires multiset(rows) == multiset(JoinRows(st))
    ensures (exists i :: 0 <= i < |rows| && rows[i].event == e) <==> e in st.events && Joinable(st, e)
  {
    PermutationMembers(rows, JoinRows(st));
    if e in st.events && Joinable(st, e) {
      var r := JoinEvent(e, st.sports, st.venues).value;
      assert r in JoinRows(st);
      var i :| 0 <= i < |rows| && rows[i] == r;
    }
    if exists i :: 0 <= i < |rows| && rows[i].event == e {
      var i :| 0 <= i < |rows| && rows[i].event == e;
      assert rows[i] in JoinRows(st);
    }
  }

  /** The loop over the fetched rows: one calendar entry per row, in
      the same order, none dropped. */
  method CalendarEntries(rows: seq<JoinedRow>) returns (events: seq<CalendarEntry>)
    ensures |events| == |rows|
    ensures forall i :: 0 <= i < |rows| ==> events[i] == ToCalendar(rows[i])
  {
    events := [];
    for i := 0 to |rows|
      invariant |events| == i
      invariant forall k :: 0 <= k < i ==> events[k] == ToCalendar(rows[k])
    {
      events := events + [ToCalendar(rows[i])];
    }
  }

  /** `/api/events`: the listing turned into calendar entries. */
  method ApiEvents(st: Store) returns (events: seq<CalendarEntry>)
    ensures |events| == |Listing(st)|
    ensures forall i :: 0 <= i < |events| ==> events[i] == ToCalendar(Listing(st)[i])
  {
    events := CalendarEntries(Listing(st));
  }

  /** One element of the `/api/sports` JSON array. */
  datatype SportItem = SportItem(id: int, name: Text)

  function ToSportItem(s: Sport): SportItem {
    SportItem(s.sportId, s.name)
  }

  function SportNameKey(s: Sport): SortKey {
    [s.name]
  }

  /** `/api/sports`: every sport as `{id, name}`, ordered by name. */
  function ApiSports(st: Store): (r: seq<SportItem>)
    ensures multiset(r) == multiset(MapSeq(st.sports, ToSportItem))
    ensures forall i, j :: 0 <= i < j < |r| ==> TextLe(r[i].name, r[j].name)
  {
    var sorted := SortBy(st.sports, SportNameKey);
    MapPermutation(sorted, st.sports, ToSportItem);
    forall i, j | 0 <= i < j < |sorted|
      ensures TextLe(sorted[i].name, sorted[j].name)
    {
      KeyLeSingle(sorted[i].name, sorted[j].name);
    }
    MapSeq(sorted, ToSportItem)
  }

  /** One element of the `/api/venues` JSON array. */
  datatype VenueItem = VenueItem(id: int, name: Text, city: Text)

  function ToVenueItem(v: Venue): VenueItem {
    VenueItem(v.venueId, v.name, v.city)
  }

  function VenueNameKey(v: Venue): SortKey {
    [v.name]
  }

  /** `/api/venues`: every venue as `{id, name, city}`, ordered by name. */
  function ApiVenues(st: Store): (r: seq<VenueItem>)
    ensures multiset(r) == multiset(MapSeq(st.venues, ToVenueItem))
    ensures forall i, j :: 0 <= i < j < |r| ==> TextLe(r[i].name, r[j].name)
  {
    var sorted := SortBy(st.venues, VenueNameKey);
    MapPermutation(sorted, st.venues, ToVenueItem);
    forall i, j | 0 <= i < j < |sorted|
      ensures TextLe(sorted[i].name, sorted[j].name)
    {
      KeyLeSingle(sorted[i].name, sorted[j].name);
    }
    MapSeq(sorted, ToVenueItem)
  }

  predicate IsDigit(c: char) {
    '0' <= c <= '9'
  }

  /** "YYYY-MM-DD" */
  predicate IsIsoDate(s: string) {
    && |s| == 10
    && IsDigit(s[0]) && IsDigit(s[1]) && IsDigit(s[2]) && IsDigit(s[3]) && s[4] == '-'
    && IsDigit(s[5]) && IsDigit(s[6]) && s[7] == '-' && IsDigit(s[8]) && IsDigit(s[9])
  }

  /** "HH:MM", as an HTML time input produces it. */
  predicate IsClock(s: string) {
    |s| == 5 && IsDigit(s[0]) && IsDigit(s[1]) && s[2] == ':' && IsDigit(s[3]) && IsDigit(s[4])
  }

  /** "HH:MM:SS" */
  predicate IsClockWithSeconds(s: string) {
    |s| == 8 && IsClock(s[..5]) && s[5] == ':' && IsDigit(s[6]) && IsDigit(s[7])
  }

  /** "YYYY-MM-DDTHH:MM:SS", the local date-time form a calendar accepts. */
  predicate IsIsoLocalDateTime(s: string) {
    |s| == 19 && IsIsoDate(s[..10]) && s[10] == 'T' && IsClockWithSeconds(s[11..])
  }

  lemma ClockColons(time: string)
    requires IsClock(time) || IsClockWithSeconds(time)
    ensures CountChar(time, ':') == if IsClock(time) then 1 else 2
  {
    if IsClock(time) {
      HourMinuteColons(time);
    } else {
      var hhmm, ss := time[..5], time[6..];
      HourMinuteColons(hhmm);
      CountCharAbsent(ss, ':');
      CountCharAppend(hhmm + [':'], ss, ':');
      CountCharAppend(hhmm, [':'], ':');
      assert time == hhmm + [':'] + ss;
    }
  }

  lemma HourMinuteColons(time: string)
    requires IsClock(time)
    ensures CountChar(time, ':') == 1
  {
    var hh, mm := time[..2], time[3..];
    CountCharAbsent(hh, ':');
    CountCharAbsent(mm, ':');
    CountCharAppend(hh + [':'], mm, ':');
    CountCharAppend(hh, [':'], ':');
    assert time == hh + [':'] + mm;
  }

  /** A date "YYYY-MM-DD" with a time "HH:MM" or "HH:MM:SS" always yields a
      full "YYYY-MM-DDTHH:MM:SS" start, which is what the padding is for. */
  lemma StartIsIsoLocalDateTime(date: string, time: string)
    requires IsIsoDate(date)
    requires IsClock(time) || IsClockWithSeconds(time)
    ensures StartOf(Some(date), Some(time)).Some?
    ensures IsIsoLocalDateTime(StartOf(Some(date), Some(time)).value)
  {
    ClockColons(time);
    var s := StartOf(Some(date), Some(time)).value;
    assert s[..10] == date;
    if IsClock(time) {
      assert s[11..] == time + ":00";
      assert s[11..][..5] == time;
    } else {
      assert s[11..] == time;
    }
  }
}
