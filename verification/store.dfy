/**
 * The two SQLite tables of the backend (backend/server.js), as values:
 * `voltage_readings` and `welding_sessions`, each with the counter SQLite's
 * AUTOINCREMENT keeps for its `id` column, and `session_id` UNIQUE.
 * Timestamps are integers (seconds); the order they compare in is the order
 * the SQL comparisons and `ORDER BY` use.
 */
module Store {
  import opened Wrappers

  /** One row of `voltage_readings`. */
  datatype Reading = Reading(
    id: nat,
    deviceId: string,
    voltage: real,
    minVoltage: Option<real>,
    maxVoltage: Option<real>,
    avgVoltage: Option<real>,
    timestamp: int,
    createdAt: int)

  /**
   * One row of `welding_sessions`; `duration` is a column nothing ever writes,
   * and `createdAt` is the `DEFAULT CURRENT_TIMESTAMP` of the insert.
   */
  datatype Session = Session(
    rowId: nat,
    sessionId: string,
    deviceId: string,
    startTime: int,
    endTime: Option<int>,
    minVoltage: Option<real>,
    maxVoltage: Option<real>,
    avgVoltage: Option<real>,
    duration: Option<int>,
    operator: string,
    createdAt: int)

  /** The database: both tables in insertion (rowid) order, and the AUTOINCREMENT counters. */
  datatype Db = Db(
    readings: seq<Reading>,
    lastReadingId: nat,
    sessions: seq<Session>,
    lastSessionRowId: nat)

  const EmptyDb := Db([], 0, [], 0)

  function ReadingTime(r: Reading): int { r.timestamp }

  function SessionStart(s: Session): int { s.startTime }

  ghost predicate IdsIncreasing(rows: seq<Reading>) {
    forall i, j :: 0 <= i < j < |rows| ==> rows[i].id < rows[j].id
  }

  /** The table constraints and the AUTOINCREMENT discipline. */
  ghost predicate Valid(db: Db) {
    && IdsIncreasing(db.readings)
    && (forall i :: 0 <= i < |db.readings| ==> 1 <= db.readings[i].id <= db.lastReadingId)
    && (forall i, j :: 0 <= i < j < |db.sessions| ==> db.sessions[i].rowId < db.sessions[j].rowId)
    && (forall i :: 0 <= i < |db.sessions| ==> 1 <= db.sessions[i].rowId <= db.lastSessionRowId)
    && (forall i, j :: 0 <= i < j < |db.sessions| ==> db.sessions[i].sessionId != db.sessions[j].sessionId)
  }

  lemma EmptyDbValid()
    ensures Valid(EmptyDb)
  {
  }

  predicate HasSession(db: Db, sessionId: string) {
    exists i :: 0 <= i < |db.sessions| && db.sessions[i].sessionId == sessionId
  }

  /** The row with the given `session_id`, if any (there is at most one). */
  function FindSession(db: Db, sessionId: string): (r: Option<Session>)
    ensures r.Some? <==> HasSession(db, sessionId)
    ensures r.Some? ==> r.value in db.sessions && r.value.sessionId == sessionId
  {
    FindSessionIn(db.sessions, sessionId)
  }

  function FindSessionIn(sessions: seq<Session>, sessionId: string): (r: Option<Session>)
    ensures r.Some? <==> exists i :: 0 <= i < |sessions| && sessions[i].sessionId == sessionId
    ensures r.Some? ==> r.value in sessions && r.value.sessionId == sessionId
    decreases |sessions|
  {
    if |sessions| == 0 then None
    else if sessions[0].sessionId == sessionId then Some(sessions[0])
    else
      var r := FindSessionIn(sessions[1..], sessionId);
      assert forall i :: 0 <= i < |sessions| - 1 ==> sessions[1..][i] == sessions[i + 1];
      r
  }

  /** With unique session ids, the row found is the one at any index holding that id. */
  lemma FindSessionUnique(db: Db, i: int)
    requires Valid(db) && 0 <= i < |db.sessions|
    ensures FindSession(db, db.sessions[i].sessionId) == Some(db.sessions[i])
  {
    var r := FindSession(db, db.sessions[i].sessionId);
    var k :| 0 <= k < |db.sessions| && db.sessions[k] == r.value;
    assert k == i;
  }

  /** INSERT INTO voltage_readings: the new row gets the next AUTOINCREMENT id. */
  function InsertReading(db: Db, deviceId: string, voltage: real, minVoltage: Option<real>,
                         maxVoltage: Option<real>, avgVoltage: Option<real>,
                         timestamp: int, createdAt: int): (r: Db)
    ensures Valid(db) ==> Valid(r)
    ensures |r.readings| == |db.readings| + 1 && r.readings[..|db.readings|] == db.readings
    ensures var row := r.readings[|db.readings|];
            row.id == r.lastReadingId == db.lastReadingId + 1 &&
            row == Reading(row.id, deviceId, voltage, minVoltage, maxVoltage, avgVoltage, timestamp, createdAt)
    ensures Valid(db) ==> forall i :: 0 <= i < |db.readings| ==> db.readings[i].id < r.lastReadingId
    ensures r.sessions == db.sessions && r.lastSessionRowId == db.lastSessionRowId
  {
    var id := db.lastReadingId + 1;
    var row := Reading(id, deviceId, voltage, minVoltage, maxVoltage, avgVoltage, timestamp, createdAt);
    db.(readings := db.readings + [row], lastReadingId := id)
  }

  /**
   * INSERT INTO welding_sessions: fails (None) exactly when the UNIQUE
   * constraint on `session_id` would be violated; a failed insert leaves the
   * table and its counter as they were.
   */
  function InsertSession(db: Db, sessionId: string, deviceId: string, startTime: int, operator: string,
                         createdAt: int): (r: Option<Db>)
    ensures r.None? <==> HasSession(db, sessionId)
    ensures Valid(db) && r.Some? ==> Valid(r.value)
    ensures r.Some? ==>
              && r.value.readings == db.readings
              && r.value.lastReadingId == db.lastReadingId
              && r.value.lastSessionRowId == db.lastSessionRowId + 1
              && r.value.sessions == db.sessions + [Session(r.value.lastSessionRowId, sessionId, deviceId,
                                                              startTime, None, None, None, None, None, operator,
                                                              createdAt)]
  {
    if HasSession(db, sessionId) then None
    else
      var id := db.lastSessionRowId + 1;
      var row := Session(id, sessionId, deviceId, startTime, None, None, None, None, None, operator, createdAt);
      Some(db.(sessions := db.sessions + [row], lastSessionRowId := id))
  }

  /** The changes an UPDATE of a session row applies. */
  datatype SessionClose = SessionClose(endTime: int, minVoltage: Option<real>, maxVoltage: Option<real>, avgVoltage: Option<real>)

  function ApplyClose(s: Session, c: SessionClose): Session {
    s.(endTime := Some(c.endTime), minVoltage := c.minVoltage, maxVoltage := c.maxVoltage, avgVoltage := c.avgVoltage)
  }

  /** UPDATE welding_sessions SET end_time, min, max, avg WHERE session_id = ?. */
  function UpdateSession(db: Db, sessionId: string, c: SessionClose): (r: Db)
    ensures |r.sessions| == |db.sessions|
    ensures forall i :: 0 <= i < |db.sessions| ==>
              r.sessions[i] == (if db.sessions[i].sessionId == sessionId then ApplyClose(db.sessions[i], c)
                                else db.sessions[i])
    ensures r.readings == db.readings && r.lastReadingId == db.lastReadingId
    ensures r.lastSessionRowId == db.lastSessionRowId
    ensures Valid(db) ==> Valid(r)
    ensures !HasSession(db, sessionId) ==> r == db
  {
    db.(sessions := UpdateRows(db.sessions, sessionId, c))
  }

  function UpdateRows(sessions: seq<Session>, sessionId: string, c: SessionClose): (r: seq<Session>)
    ensures |r| == |sessions|
    ensures forall i :: 0 <= i < |sessions| ==>
              r[i] == (if sessions[i].sessionId == sessionId then ApplyClose(sessions[i], c) else sessions[i])
    decreases |sessions|
  {
    if |sessions| == 0 then []
    else
      var head := if sessions[0].sessionId == sessionId then ApplyClose(sessions[0], c) else sessions[0];
      [head] + UpdateRows(sessions[1..], sessionId, c)
  }
}
