# Monitoring-Tegangan in Dafny

A model of the voltage-monitoring system for SMAW welding (Monitoring-Tegangan), with proofs about it. An ESP32 posts voltage readings to an Express/SQLite backend. The backend stores them, pushes each one to the dashboards connected over WebSocket, and answers queries: latest readings, paged history, windowed statistics, and welding sessions. A React front end shows a gauge and a rolling chart, keeps a history table with CSV export, and puts a hard-coded login in front of it all.

The model has one module per part of the system:

- `Store` is the two SQLite tables, held as sequences. The reading and session ids come from AUTOINCREMENT counters, and `session_id` is UNIQUE.
- `Broadcast` is the fan-out to the WebSocket clients that are OPEN.
- `Server` holds every route handler of `backend/server.js`, each a pure function of the database and the request.
- `Query`, `Aggregate` and `Text` are the SQL query shapes, the aggregates, and the few JavaScript string operations used.
- `Dashboard`, `DataHistory`, `VoltageGauge`, `CurrentGauge`, `SystemStatus`, `Login` and `IndexPage` are the client-side rules.

Modelling conventions:

- Timestamps are integers (seconds).
- Voltages are `real`.
- A JSON number field that may be absent or `null` is `JsNum`.
- A string field or query parameter that may be absent is `Option<string>`.
- JavaScript truthiness is written out: `""` and `0` are falsy.
- The clock is a parameter of the handlers that read it.
- A storage failure outside the model (I/O, a locked database) is a `storageOk` parameter.
- Constraint violations are modelled exactly:
  - UNIQUE on `session_id`;
  - NOT NULL on `voltage`, reached by a JSON `null`.

Behaviour of the code worth noting:

- No API key or device allow-list is checked anywhere.
- A duplicate `sessionId` on session start gives the generic 500 "Database error", not a dedicated conflict reply.
- Session end does not check that the session exists or is still open:
  - an unknown id gets 200 with all-NULL stats;
  - a second end recomputes and overwrites the first.
- The session-end statistics have no upper time bound: every reading of the device from `start_time` on counts, even readings stored after the end.
- The `voltage_update` broadcast carries no row id. Its default timestamp comes from a second clock read, separate from the stored one.
- The ingest reply carries only the new row id.
- The page shell shows the login form for an empty user name as well as for no user.

## Model

| member | source | states |
|---|---|---|
| Store.InsertReading | backend/server.js:26-35 | a new reading is appended with id = last AUTOINCREMENT value + 1, so above every id used before; the tables stay valid; the sessions are untouched |
| Store.InsertSession | backend/server.js:37-49 | a session insert fails exactly when the `session_id` is already present (UNIQUE); on success the row is appended with the next row id, `end_time` and the stats NULL, `created_at` the insert time; the reading counter is untouched |
| Store.FindSession | backend/server.js:39 | finds a row with the given `session_id` iff one exists |
| Store.FindSessionUnique | backend/server.js:39 | with unique session ids, the row found for a row's id is that row |
| Store.UpdateSession | backend/server.js:322-331 | `UPDATE ... WHERE session_id = ?` changes exactly the rows with that id, keeps the readings and the validity of the tables, and is a no-op when no row matches |
| Broadcast.Fanout | backend/server.js:64-70 | one delivery per OPEN client, each carrying the event |
| Broadcast.FanoutOnlyOpen | backend/server.js:64-70 | every delivery goes to an OPEN client of the set |
| Broadcast.FanoutReachesOpen | backend/server.js:64-70 | every OPEN client is sent the event |
| Broadcast.FanoutExactlyOpen | backend/server.js:64-70 | with distinct clients, a client receives the event iff its state is OPEN |
| Broadcast.FanoutNoneOpen | backend/server.js:64-70 | no OPEN client, no delivery |
| Server.OrNull | backend/server.js:105-107 | a stored optional field is NULL exactly when the supplied value is falsy (absent, null or 0) |
| Server.NullIfFalsy | backend/server.js:328-330 | a session statistic is written as NULL exactly when it is NULL or 0 |
| Server.Ingest | backend/server.js:84-136 | 400 iff `deviceId` is falsy or `voltage` is undefined (0 is accepted); success iff additionally the voltage is a number and storage works; on failure nothing is stored and nothing is sent; on success the row holds the request with falsy optionals as NULL and the timestamp defaulted to now, the reply is its id, which becomes the reading counter while the sessions and their counter stay as they were, the event goes to exactly the OPEN clients, and the tables stay valid |
| Server.IngestIdsIncrease | backend/server.js:27 | successive successful ingests return strictly increasing ids, each above every stored id |
| Server.Latest | backend/server.js:139-160 | the device's readings (all when no device is named) newest first, at most the limit (10 when absent or empty; a negative limit returns all), and no omitted reading is newer than a returned one |
| Server.NewestPrefixFacts | backend/server.js:145-147 | a prefix of the descending order is descending, drawn from the source rows, and holds the newest ones |
| Server.ParamOr | backend/server.js:164-165 | `parseInt(x) \|\| default`: a missing or zero parameter gives the default, any other value is kept, so the result is 0 only when the default is |
| Server.History | backend/server.js:163-208 | page defaults to 1 and limit to 50; data is the LIMIT/OFFSET window at offset (page-1)*limit of the device's rows newest first; total counts the device's rows; for a positive limit totalPages is the least n with n*limit >= total, and 0 when there are no rows; for a negative limit it is `Math.ceil(total / limit)`, the least n with n*limit <= total |
| Server.HistoryPagesCover | backend/server.js:163-208 | pages 1..totalPages laid end to end give every row of the device, newest first, each exactly once |
| Server.HistoryPagesArePages | backend/server.js:170-176 | for a positive limit, pages 1..n of the history request laid end to end are the first n LIMIT/OFFSET windows of the device's rows newest first |
| Server.HistoryPagesDisjoint | backend/server.js:170-176 | two different pages (numbers >= 1) share no reading |
| Server.NewestDistinct | backend/server.js:27 | because ids are AUTOINCREMENT, the device's rows contain no row twice |
| Server.Newest | backend/server.js:143-147 | `WHERE device_id = ? ORDER BY timestamp DESC`: the device's rows (all rows without a device) as a descending permutation |
| Server.EffectiveRange | backend/server.js:213 | the range defaults to `24h`, worth 86400 seconds, when absent or empty; any other given string is kept |
| Server.Cutoff | backend/server.js:211-229 | no time condition iff a non-empty range other than `1h`, `24h`, `7d`, `30d` is given; otherwise the cutoff is at least an hour before now, and 24 hours before now by default |
| Server.RangeSeconds | backend/server.js:213-229 | exactly `1h`, `24h`, `7d` and `30d` set a time condition, of 3600, 86400, 7*86400 and 30*86400 seconds |
| Server.Summarize | backend/server.js:231-240 | count of the rows; over no rows every aggregate is NULL; otherwise min and max bound every voltage and are attained, min <= avg <= max, avg is the sum over the count, first and last bound every timestamp and are each the timestamp of some row |
| Server.Stats | backend/server.js:211-255 | on success the reply is the summary of the device's rows within the range cutoff |
| Server.StatsWindowMembership | backend/server.js:213-243 | a stored reading is counted iff it matches the device (when one is given) and, for a recognised range (default `24h`), is no older than the range before now |
| Server.StartSession | backend/server.js:258-287 | 400 iff `sessionId` or `deviceId` is falsy; success iff additionally storage works and the id is new; the new open session starts now with the given operator, or `Unknown` when it is falsy, and `created_at` now; the session counter advances by one and the readings and their counter stay as they were; failures change nothing |
| Server.StartDuplicateRejected | backend/server.js:272-277 | a reused session id is a 500 and leaves the table unchanged |
| Server.EndSession | backend/server.js:290-348 | 400 iff `sessionId` is falsy; otherwise the stats over the joined readings are returned and written back with end_time = now and falsy values as NULL |
| Server.EndUnknownSessionSucceeds | backend/server.js:300-309 | ending an id that was never started succeeds with NULL stats and changes nothing |
| Server.EndClosesSession | backend/server.js:322-331 | ending an existing session closes exactly its row with the stats of its window; other rows and the readings are unchanged |
| Server.SessionRows | backend/server.js:300-309 | the JOIN yields nothing for an unknown session id; otherwise only stored readings of the session's device from its start on, and every such reading |
| Server.EndStatsWindow | backend/server.js:300-309 | the aggregated readings are exactly the session device's readings with timestamp >= start_time |
| Server.EndStatsBounds | backend/server.js:300-309 | the end stats are all NULL over an empty window and satisfy min <= avg <= max otherwise |
| Server.EndTwiceOverwrites | backend/server.js:290-348 | a second end succeeds too, overwrites end_time and reports the same stats |
| Server.EndKeepsSessionRows | backend/server.js:300-331 | closing a session writes only end_time and stats, so the readings joined to it stay the same |
| Server.ListSessions | backend/server.js:351-368 | sessions newest start first, exactly the LIMIT/OFFSET window at offset (page-1)*limit of the table sorted by start time (defaults page 1, limit 20), at most `limit` of them for a positive limit |
| Server.ListSessionsFirstPage | backend/server.js:351-360 | the first page holds min(limit, number of sessions) sessions, and no session left off it started later than one on it |
| Query.SortDesc | backend/server.js:145-146 | `ORDER BY ... DESC`: a descending permutation of the input |
| Query.Where | backend/server.js:144 | a filter keeps exactly the rows satisfying the condition, nothing else |
| Query.WhereKeepsOrder | backend/server.js:144 | a filter keeps the relative order of the rows |
| Query.Window | backend/server.js:173 | `LIMIT ? OFFSET ?` with SQLite's reading of negative values: the rows from the clamped offset on, at most `limit` of them |
| Query.WindowSorted | backend/server.js:172-173 | a LIMIT/OFFSET window of rows in descending order is descending and drawn from those rows |
| Query.TopPrefix | backend/server.js:145-147 | a prefix of a descending ordering of a table is descending, drawn from the table, and no row left out has a larger key than a row kept |
| Query.TotalPagesIsCeiling | backend/server.js:203 | `Math.ceil(total / limit)` for a positive limit: the least non-negative n with n*limit >= total, 0 iff total is 0 |
| Query.TotalPagesNegativeLimit | backend/server.js:203 | `Math.ceil(total / limit)` for a negative limit: at most 0, the least n with n*limit <= total |
| Query.PagesCover | backend/server.js:172-173 | the windows of pages 1..ceil(total/limit) concatenate to all rows |
| Query.PagesArePrefix | backend/server.js:172-173 | the first n pages are the first n*limit rows |
| Query.PagesBeyondEndEmpty | backend/server.js:172-173 | pages after the last one are empty |
| Query.PagesDisjoint | backend/server.js:172-173 | different pages of rows without repeats share no row |
| Aggregate.MeanBetween | backend/server.js:233-235 | the average lies between the minimum and the maximum |
| Aggregate.SumBounds | backend/server.js:235 | the sum lies between count copies of the minimum and of the maximum |
| Aggregate.Min | backend/server.js:233 | the minimum bounds every element from below and is one of them |
| Aggregate.Max | backend/server.js:234 | the maximum bounds every element from above and is one of them |
| Dashboard.Step | src/pages/Dashboard.tsx:69-169 | open gives `connected`, close and switching off give `disconnected`, switching on only sets the switch, an error or unparseable message gives `error`; only a `voltage_update` message, switching off, or a non-empty fetch changes the gauge voltage; a `voltage_update` sets it to the message's voltage; switching off resets to 0 and the single `00:00` point; a `voltage_update` appends its point to the chart and any other parsed message changes nothing; a non-empty fetch sets the gauge to the newest row and the chart to the rows oldest first; an empty or failed fetch changes nothing; the chart changes only on those events and on switching off |
| Dashboard.AppendPoint | src/pages/Dashboard.tsx:99-102 | the new point last, after the last nine previous points: length min(previous + 1, 10) |
| Dashboard.AppendAllIsWindow | src/pages/Dashboard.tsx:99-102 | after any run of updates the chart is exactly the last ten points of everything it has held, in arrival order |
| Dashboard.ChartFromLatest | src/pages/Dashboard.tsx:142-148 | the fetched newest-first rows become chart points oldest first, one per row |
| Dashboard.StepPreserves | src/pages/Dashboard.tsx:137-150 | every handler keeps the chart non-empty with the gauge showing its newest point, and with fetches of at most ten rows keeps it at most ten points |
| Dashboard.RunPreserves | src/pages/Dashboard.tsx:30-35 | from any consistent state (the initial one included) every run of events keeps those invariants |
| Dashboard.TimeLabel | src/pages/Dashboard.tsx:96-97 | for a valid clock time, the hour text, ':' and two minute digits: 4 or 5 characters with ':' third from the end |
| Dashboard.TimeLabelRoundTrip | src/pages/Dashboard.tsx:97 | the time label splits at ':' into the hour and a two-digit minute that read back as the clock time |
| Dashboard.IngestReachesDashboard | src/pages/Dashboard.tsx:93-104 | a successfully ingested voltage reaches every OPEN dashboard and becomes its gauge value and newest chart point |
| Dashboard.Summarize | src/pages/Dashboard.tsx:171-173 | min <= every chart point <= max, both attained, min <= avg <= max, avg = sum / count |
| DataHistory.FromRow | src/components/DataHistory.tsx:93-101 | a stored row as a record: missing min and max as 0, missing or zero avg replaced by the voltage, fixed duration and operator |
| DataHistory.FromRows | src/components/DataHistory.tsx:93-101 | the fetched rows become records one for one, in the fetched order |
| DataHistory.FromRowsIdsDistinct | src/components/DataHistory.tsx:93-101 | rows with distinct ids become records with distinct ids |
| DataHistory.FromRowIdsDistinct | src/components/DataHistory.tsx:94 | record ids "DB_<id>" are equal iff the row ids are |
| DataHistory.Synthetic | src/components/DataHistory.tsx:66-74 | min = max(0, v-2) >= 0, max = v+2, avg = v |
| DataHistory.SyntheticBounds | src/components/DataHistory.tsx:69-71 | for v >= 0, min <= avg < max; for v < 0, min > avg |
| DataHistory.SavePayload | src/components/DataHistory.tsx:40-47 | a record is posted as device `esp32-01` with voltage = its average |
| DataHistory.SaveLoadRoundTrip | src/components/DataHistory.tsx:35-47 | a saved record is always accepted and reads back from its stored row as the same record, apart from the id |
| DataHistory.OnDay | src/components/DataHistory.tsx:109-112 | keeps exactly the records whose timestamp is on the selected day |
| DataHistory.OnDayKeepsOrder | src/components/DataHistory.tsx:109-112 | the day filter keeps the records' order |
| DataHistory.Toggle | src/components/DataHistory.tsx:122-128 | a selected id is removed (all its copies), an unselected one appended |
| DataHistory.ToggleKeepsOrder | src/components/DataHistory.tsx:124-126 | removing a selected id keeps the other ids in their order |
| DataHistory.ToggleTwice | src/components/DataHistory.tsx:122-128 | toggling an id twice restores the same set of selected ids |
| DataHistory.SelectAll | src/components/DataHistory.tsx:114-120 | clears the selection when its length equals the number of shown records, else selects every shown id in order |
| DataHistory.SelectAllComparesLengthOnly | src/components/DataHistory.tsx:114-120 | a selection as long as the shown list is cleared even when a shown record is not in it, since only the lengths are compared |
| DataHistory.SelectAllTwice | src/components/DataHistory.tsx:114-120 | select-all twice from a partial selection leaves nothing selected |
| DataHistory.Exported | src/components/DataHistory.tsx:137-139 | exactly the shown records whose id is selected |
| DataHistory.ExportedKeepsOrder | src/components/DataHistory.tsx:137-139 | the exported records keep the order in which they are shown |
| DataHistory.Csv | src/components/DataHistory.tsx:136-152 | whatever the records hold, the text up to the first newline is the comma-joined header, and with nothing exported the text is just that header; the line-by-line content is DataHistory.CsvRoundTrip |
| DataHistory.FirstLineIsHeader | src/components/DataHistory.tsx:141-152 | rows headed by the header, joined with commas and newlines, split at the first newline into the header line |
| DataHistory.CsvRoundTrip | src/components/DataHistory.tsx:141-152 | the CSV splits into the 7-column header plus one line per exported record, each splitting back into its fields, when no field holds a comma or newline |
| VoltageGauge.Clamp | src/components/VoltageGauge.tsx:39 | the voltage clamped into [min, max] |
| VoltageGauge.Fraction | src/components/VoltageGauge.tsx:40 | for min < max a fraction in [0, 1], 0 at or below min, 1 at or above max; NaN when min = max |
| VoltageGauge.BandOf | src/components/VoltageGauge.tsx:48-51 | red above 0.8, amber above 0.6, blue above 0.4, emerald otherwise, one band each |
| VoltageGauge.BandMonotone | src/components/VoltageGauge.tsx:48-51 | a higher fraction never gives a less severe colour |
| VoltageGauge.FractionMonotone | src/components/VoltageGauge.tsx:39-40 | a higher voltage never lowers the fraction |
| VoltageGauge.DefaultScaleBands | src/components/VoltageGauge.tsx:10 | with the default scale 0..250 the colour changes at 100, 150 and 200 V |
| CurrentGauge.Value | src/components/ui/CurrentGauge.tsx:11 | `min(current, maxCurrent)`, never above the maximum |
| CurrentGauge.Percentage | src/components/ui/CurrentGauge.tsx:12 | at most 100 for a positive maximum, exactly 100 at or above it, negative for a negative current |
| CurrentGauge.PercentageMonotone | src/components/ui/CurrentGauge.tsx:11-12 | the percentage never decreases as the current grows |
| CurrentGauge.DefaultScale | src/components/ui/CurrentGauge.tsx:10 | with the default maximum 30 the percentage is current/30*100, capped at 100 |
| SystemStatus.Color | src/components/SystemStatus.tsx:12-19 | gray iff the system is off or the status is none of the three known ones; red iff on with `error` |
| SystemStatus.Text | src/components/SystemStatus.tsx:22-29 | `System OFF` iff the system is off; `Unknown` iff on with a status none of the three known ones |
| SystemStatus.IconOf | src/components/SystemStatus.tsx:32-39 | Wifi iff on and `connected`; AlertTriangle iff on and `error`; WifiOff otherwise |
| SystemStatus.StatusTable | src/components/SystemStatus.tsx:12-40 | off: gray, `System OFF`, WifiOff whatever the status; on: green/`Terhubung`/Wifi, yellow/`Terputus`/WifiOff, red/`Error`/AlertTriangle; anything else gray/`Unknown`/WifiOff |
| SystemStatus.DashboardStatusesDistinct | src/components/SystemStatus.tsx:22-30 | the dashboard's statuses never reach the default branch, and the text tells off and each on-status apart |
| Login.Submit | src/components/Login.tsx:16-26 | logs in iff the username is `admin` and the password `admin123`, passing on the username and clearing the error; otherwise sets the fixed error message |
| IndexPage.ViewOf | src/pages/Index.tsx:17-21 | the login form iff there is no user (or an empty name), else the dashboard for that user |
| IndexPage.HandleLogin | src/pages/Index.tsx:9-11 | the user becomes the logged-in name, and a non-empty name shows that user's dashboard |
| IndexPage.HandleLogout | src/pages/Index.tsx:13-15 | the user is cleared and the login form shows |
| IndexPage.LoginLogoutCycle | src/pages/Index.tsx:7-21 | from the start, a submit shows the dashboard iff the credentials are right, for user `admin`; logout returns to the login form |
| Text.NatToStringRoundTrip | src/pages/Dashboard.tsx:97 | the decimal text of a number reads back as that number |
| Text.Pad2Exact | src/pages/Dashboard.tsx:97 | `padStart(2, '0')` of a number below 100 is two digits reading back as it |
| Text.SplitJoin | src/components/DataHistory.tsx:152 | splitting a join at a separator no part contains gives back the parts |

## Left out

- Server plumbing is not modelled: Express routing and middleware, `listen`, the SIGINT shutdown, and the health route, which reports `process.uptime()`. It is all process I/O.
- Store.InsertReading: the next reading id is the last AUTOINCREMENT value + 1. SQLite promises only a larger id than any used before, and the model takes the usual next one.
- Server.StartSession: `start_time` (JavaScript `new Date()`) and `created_at` (SQLite's `CURRENT_TIMESTAMP`) are two clock reads; the model gives both the one `now`, as Server.Ingest does for a reading's default `timestamp` and its `created_at`.
- Prepared statements and callbacks are flattened. Each handler is one function, and the storage outcome is the `storageOk` parameter.
- Session end reads and then updates without atomicity. Concurrent requests are not modelled.
- SQLite's `datetime('now', …)` and the textual comparison of ISO timestamps with SQLite datetime strings are not modelled. Timestamps are integers compared numerically.
- Query parameters reach the model already parsed. For `page` and `limit` of the history and session routes, an absent parameter stands for `parseInt` giving NaN as well, which `|| default` replaces. The raw `limit` string that the latest-readings route hands to SQLite's LIMIT is taken as an integer; a non-numeric one is not modelled.
- `ORDER BY timestamp DESC` breaks ties in no defined order. Server.Latest claims only a descending permutation of the device's rows. Server.ListSessions and Server.History state the page as a window of one fixed descending order (`Query.SortDesc`), which does fix an order among equal keys.
- Server.History: the model assumes every request sorts rows with equal timestamps the same way, so Server.HistoryPagesCover and Server.HistoryPagesDisjoint hold for that fixed order. SQLite does not promise a stable tie order across separate queries, so with equal timestamps real pages could repeat or skip a row; that case is not modelled.
- JSON values of other types (a string voltage, nested objects) are not modelled. Neither are SQLite's type affinity and the reply bodies' extra message strings.
- The WebSocket connection lifecycle, `send` and JSON serialisation are not modelled. A delivery records the client and the event.
- The chart time of a fetched reading (`new Date(ts).getHours()`) and of a live message (`new Date()`) is a `ClockTime` parameter; time zones are not modelled. The day test of the history filter (`isSameDay` after `parseISO`), the CSV date format and `number.toString()` are parameters too.
- React rendering, canvas drawing and the arc angle, recharts, `fetch`, the 3-second `setInterval`, the Blob download, and the dashboard's hard-coded sample records are not modelled. Neither is the session id the history panel generates, which is only logged.
- Dashboard.Step: a message's `voltage` is modelled as a number. A message with `type === 'voltage_update'` and a missing voltage would put `undefined` into the gauge, and that case is not modelled.
- Dashboard.Summarize requires a non-empty chart. With an empty one JavaScript would give -Infinity, Infinity and NaN; Dashboard.RunPreserves shows the chart is never empty.
- Floating point: voltages are exact reals. Rounding, NaN and infinities are not modelled, except where a division by zero is explicit (an Option).
- Header, Navbar, Footer, DigitalClock, DatePicker and VoltageChart are presentation only and are not part of this model.
