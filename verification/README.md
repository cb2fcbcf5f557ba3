# SportsCalendar event catalogue, modelled in Dafny

The SportsCalendar backend keeps sports, venues, events and per-event
participant lists in SQLite. It serves them as JSON to a calendar front end.
Two pieces of logic sit between the SQL and the HTTP layer, and this project
models both:

* the Flask calendar backend (`backend/server.py`). `/api/sports` and
  `/api/venues` list their tables ordered by name. `/api/events` takes the
  inner join `event ⋈ sport ⋈ venue` ordered by (date, time) and turns each
  row into a calendar entry. A non-empty time with exactly one colon gets
  `:00` appended. `start` is `date + "T" + time` when both are non-empty.
  `title` is `"<sport> @ <venue>"`;
* the FastAPI events router (`backend/routers/events.py`). `get_events` is the
  date-ordered join. `get_event` returns one joined event and its
  participant names. `create_event` inserts an event row and then one
  participant row per name.

The database is an immutable `Store` value, with one sequence of rows per
table in rowid order. Each endpoint is a pure function of the store, or a
method over it. `create_event` is a function from store to store.

Modules and files:

| file | module | models |
|---|---|---|
| `values.dfy` | `Values` | `Option`, `Result`, nullable TEXT values, Python truthiness, f-string rendering of `None` |
| `collation.dfy` | `Collation` | SQLite's ascending order: NULL first, then strings in BINARY (code point) order, compared column by column |
| `sorting.dfy` | `Sorting` | `ORDER BY` as a sort that returns a permutation of its input in key order |
| `text_split.dfy` | `TextSplit` | `str.split(':')` and `':'.join` |
| `store.dfy` | `Store` | the tables, primary-key uniqueness, the inner join |
| `server.dfy` | `Server` | `api_sports`, `api_venues`, `api_events` |
| `events_router.dfy` | `EventsRouter` | `get_events`, `get_event`, `create_event` |
| `properties.dfy` | `Properties` | create-then-list, and a worked first-event example |

Modelling choices:

* A nullable TEXT column is `Text = Option<string>`, where `None` is SQL NULL.
  Python truthiness (`if time`, `if date and time`) holds when the value is
  present and non-empty. An f-string prints NULL as `None`.
* `ORDER BY` puts NULL first and compares strings lexicographically by code
  point. This is SQLite's BINARY collation, because UTF-8 byte order equals
  code point order. SQL leaves the order of rows with equal keys open. The
  model uses a stable insertion sort, but its contracts promise only key
  order and a permutation of the input.
* The join of an event takes the sport row and the venue row with the
  matching id. It drops the event when either row is missing. Under the
  primary-key invariant `WellFormed` this is exactly the SQL inner join.
* `create_event` takes the request body as a dictionary in which any key may
  be missing. A missing `sport_id`, `venue_id`, `event_date` or
  `event_time` raises `KeyError`. The model reports the first missing key, in
  the order the insert tuple reads them. A missing `description` stores NULL.
  A missing `participants` key adds no rows.
* The new event id (`cursor.lastrowid`) is SQLite's default rowid choice:
  one more than the largest id in the table, or 1 when the table is empty.
* SQLite does not enforce foreign keys unless asked to. `get_db_connection`
  (backend/server.py:15-23) does not enable them, and the model assumes that
  `backend.db.get_db` does not either (backend/db.py is not part of this model).
  So `create_event` inserts an event even when its sport or venue is missing.
  Such an event is then hidden by every joined read.
* `get_event` on an id with no joined row calls `dict(None)`, which raises
  `TypeError`. The model returns `Failure(NoJoinedRow(id))`.
* The Flask backend opens the database file `DB_PATH` (backend/server.py:8-9),
  and the events router opens `backend.db.get_db`. The model assumes that both
  open the same database file, so one `Store` value stands for what each of
  them reads and writes. `Properties.CreateThenListed` and
  `Properties.FirstEventOnCalendar` rely on this, because they read with the
  Flask `Server.Listing` what the router's `EventsRouter.CreateEvent` wrote.

The code does an inner join, raises on a missing event and raises
`KeyError` on a missing key. The Flask `server.py` has no POST or search route. Event creation is taken from
`backend/routers/events.py`.

## Model

| member | source | states |
|---|---|---|
| `Collation.LexLeMeaning` | backend/server.py:59 | The string order used by `ORDER BY` is lexicographic order: a prefix comes first, otherwise the first differing character decides. |
| `Collation.KeyLeTotal` | backend/server.py:59 | Any two rows' sort keys are comparable, so `ORDER BY` is defined on every pair of rows. |
| `Collation.KeyLeTransitive` | backend/server.py:59 | The multi-column sort order is transitive. |
| `Collation.KeyLePair` | backend/server.py:59 | `ORDER BY event_date, event_time`: an earlier date comes first, and equal dates are ordered by time. |
| `Collation.KeyLeSingle` | backend/routers/events.py:19 | A one-column `ORDER BY` orders exactly as that column does. |
| `Sorting.SortBy` | backend/server.py:59 | The sorted result is a permutation of the input rows and is in non-decreasing key order. |
| `Sorting.MapPermutation` | backend/server.py:33 | Mapping rows to records commutes with reordering: mapping two permutations gives two permutations. |
| `TextSplit.Split` | backend/server.py:69 | `time.split(':')` has one more piece than `time` has colons, and no piece contains a colon. |
| `TextSplit.SplitJoin` | backend/server.py:69 | Joining the pieces with `:` gives back the original string, so the split loses nothing. |
| `Server.PadTime` | backend/server.py:68-70 | A non-empty time with exactly one colon gets `:00` appended. Every other time, including NULL and empty, is unchanged. Truthiness is preserved. |
| `Server.StartOf` | backend/server.py:71 | `start` is present exactly when the date and the time are both non-empty, and then it is date, `T`, padded time. |
| `Server.StartIsIsoLocalDateTime` | backend/server.py:68-71 | A `YYYY-MM-DD` date with an `HH:MM` or `HH:MM:SS` time always gives a full `YYYY-MM-DDTHH:MM:SS` start. |
| `Server.Title` | backend/server.py:72 | The title is the sport name rendered as the f-string renders it (NULL as `None`), then ` @ `, then the venue name rendered the same way: the first part is the sport text, the three characters after it are ` @ `, and the rest is the venue text. |
| `Server.TitleDeterminesParts` | backend/server.py:72 | When neither sport name contains `@`, two equal titles have equal sport texts and equal venue texts. The title therefore identifies the pair it was built from, and `title.split(" @ ", 1)` recovers the parts. |
| `Server.ToCalendar` | backend/server.py:73 | A calendar entry carries the row's event, sport and venue ids unchanged, together with its title and start. |
| `Server.Listing` | backend/server.py:53-61 | The `/api/events` rows are a permutation of the joined rows, in non-decreasing (date, time) order. |
| `Server.ListedIffJoined` | backend/server.py:56-58 | A stored event is listed exactly when both its sport and its venue exist (inner join). |
| `Server.CalendarEntries` | backend/server.py:64-73 | The loop over the fetched rows yields exactly one calendar entry per row, in the same order, and drops none. |
| `Server.ApiEvents` | backend/server.py:48-75 | `/api/events` returns exactly one calendar entry per listed row, in listing order, with no filtering after the query. |
| `Server.ApiSports` | backend/server.py:30-33 | `/api/sports` returns every sport as `{id, name}`, each exactly once, ordered by name. |
| `Server.ApiVenues` | backend/server.py:41-44 | `/api/venues` returns every venue as `{id, name, city}`, each exactly once, ordered by name. |
| `Store.FindById` | backend/routers/events.py:37-38 | `WHERE id = ?` with `fetchone()` returns a row carrying the id, and returns nothing exactly when no row carries it. |
| `Store.FindByIdUnique` | backend/routers/events.py:37-38 | Under a primary key, the row found is the single row with that id. |
| `Store.JoinEvent` | backend/server.py:57-58 | An event joins exactly when a sport and a venue with its ids exist, and it then carries their names. |
| `Store.JoinAll` | backend/routers/events.py:16-18 | Every joined row is the join of a stored event. An event that has both a sport and a venue contributes its joined row as many times as the event row occurs, and an event missing either contributes nothing. |
| `Store.JoinAllAppend` | backend/routers/events.py:16-18 | Appending an event row appends its joined row when it has one, and otherwise adds nothing, so the join keeps table order. |
| `EventsRouter.GetEvents` | backend/routers/events.py:9-22 | `get_events` returns the summaries of the joined rows, each once, in non-decreasing date order. |
| `EventsRouter.GetEventsMembers` | backend/routers/events.py:10-15 | Every listed record has the fields `event_id`, `event_date`, `event_time`, `sport` and `venue` of some joined row, and every joined row is listed. |
| `EventsRouter.GetEventsListsJoined` | backend/routers/events.py:16-19 | When event ids are unique (the primary key), a stored event appears in `get_events` exactly when its sport and venue exist, and then with its own summary. Participant rows play no part. |
| `EventsRouter.ParticipantsOf` | backend/routers/events.py:40-44 | Each name occurs in the result exactly as many times as a participant row with that event id and that name occurs in the table. There is at most one name per row, and there are none when no row carries the id. |
| `EventsRouter.ParticipantsOfMembers` | backend/routers/events.py:40-48 | A name is returned exactly when a participant row with that event id and that name exists. |
| `EventsRouter.ParticipantsOfAppend` | backend/routers/events.py:40-44 | The participant query over two blocks of rows is the query over each block, concatenated. |
| `EventsRouter.ParticipantsOfOwnRows` | backend/routers/events.py:67-71 | Reading back the rows inserted for an event gives the inserted names, in order. |
| `EventsRouter.ParticipantRows` | backend/routers/events.py:67-71 | There is one participant row per supplied name, in list order, each with the new event id. |
| `EventsRouter.GetEvent` | backend/routers/events.py:29-48 | `get_event` succeeds exactly when a stored event with the id has both a sport and a venue. It then returns that joined row and exactly that event's participant names. Otherwise it fails, as `dict(None)` raises. |
| `EventsRouter.NextEventId` | backend/routers/events.py:65 | The new id is larger than every existing id, so it is fresh. It is 1 for an empty table, and otherwise one more than the largest id. |
| `EventsRouter.CreateEvent` | backend/routers/events.py:55-74 | A missing required key fails, reporting the first such key. Otherwise the event row is appended with a fresh id and the given fields, and one participant row per name follows in order. Sports, venues and existing rows are unchanged. A missing description is stored as NULL, and a missing participants key adds no rows. |
| `EventsRouter.CreatePreservesWellFormed` | backend/routers/events.py:55-73 | `create_event` keeps ids unique and keeps every participant row pointing at an existing event. |
| `EventsRouter.CreateThenGet` | backend/routers/events.py:40-48 | On a store whose ids are unique and whose participant rows all point at stored events (`WellFormed`), after a create, `get_event` on the new id succeeds exactly when the sport and venue exist. It then returns the stored fields and exactly the supplied names, in order. |
| `Properties.CreateThenListed` | backend/server.py:56-58 | A created event appears on the calendar exactly when its sport and venue exist. |
| `Properties.FirstEventCreated` | backend/routers/events.py:55-74 | Worked example: a soccer match posted to a store with no events gets id 1, and reads back with participants `Team A` and `Team B`. |
| `Properties.FirstEventOnCalendar` | backend/server.py:64-73 | Worked example: that match is listed once, titled `Soccer @ Main Field`, starting at `2025-11-20T12:00:00`. |

## Left out

- The Flask connection and first-run schema bootstrap `get_db_connection` (backend/server.py:15-23), and the FastAPI connection `backend.db.get_db` (backend/db.py, which is not part of this model). These are file I/O and a foreign library. The store is a parameter.
- Flask and FastAPI routing, JSON serialisation, static file serving (backend/server.py:78-91) and backend/main.py. This is framework glue.
- backend/routers/venues.py and backend/routers/teams.py. Each returns `dict(row)` for every row of a single `SELECT … ORDER BY name`: a name-ordered projection like `Server.ApiVenues`, with the keys `venue_id`, `name`, `city` and `address` for venues and `team_id` and `name` for teams. The team table is therefore not part of the store.
- The front-end scripts. They are DOM and `fetch` code.
- Keyword search (`/api/events/search`) and POST validation. tests/test_api.py exercises them, but neither backend/server.py nor backend/routers/events.py implements them.
- Transactions and `commit` (backend/routers/events.py:73). `create_event` is one atomic state update. If iterating `participants` failed part-way, the source would leave the insert uncommitted; that case is not modelled.
- SQLite's dynamic typing. Ids are integers, and date, time, names and descriptions are text or NULL. A request body whose `sport_id` is a string, or whose `participants` is not a list, is outside the input type.
- EventsRouter.NextEventId: does not model the rowid choice once the largest id reaches 2^63-1, nor an `AUTOINCREMENT` counter. Neither can occur without deleting rows or inserting a huge explicit id, and the API does neither.
- Store.JoinEvent: joins each event with the first sport and the first venue with its ids. This equals the SQL inner join only when the ids are unique (`WellFormed`). With duplicate ids SQL would emit one row per match.
- Sorting.SortBy: fixes the order of rows with equal keys (stable insertion order), which SQL leaves unspecified. The contracts state only what SQL promises.
- EventsRouter.ParticipantsOf: returns the names in table (rowid) order. The participant query has no `ORDER BY`, so SQL does not promise any order. Table order is the order in which SQLite scans the table. `EventsRouter.ParticipantsOfOwnRows` and the "in order" of `EventsRouter.CreateThenGet` depend on this assumption. `ParticipantsOf`'s own count law does not.
- EventsRouter.CreateEvent: assumes foreign-key enforcement is off, so an event whose `sport_id` or `venue_id` matches no row is still inserted. With `PRAGMA foreign_keys = ON`, that insert would raise `IntegrityError` before any row is written, and `create_event` would fail instead.
