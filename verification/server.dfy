/**
 * The route handlers of backend/server.js, each a pure function from the
 * database (and, for ingestion, the WebSocket client set) and the request to
 * the reply and the new database.
 *
 * Request values are modelled at the JSON level: a numeric body field is
 * absent (`undefined`), `null` or a number; a string field or query parameter
 * is absent/null (None) or a string. JavaScript truthiness is spelled out:
 * the empty string and the number 0 are falsy. The clock (`new Date()`) is a
 * parameter, as is the outcome of a storage operation that can fail for
 * reasons outside the model (`storageOk`).
 */
module Server {
  import opened Wrappers
  import opened Store
  import Query
  import Aggregate
  import Broadcast

  /** A JSON body field that should hold a number. */
  datatype JsNum = Undefined | Null | Num(x: real)

  predicate TruthyNum(j: JsNum) {
    j.Num? && j.x != 0.0
  }

  /** `v || null`: a falsy value is stored as NULL. */
  function OrNull(j: JsNum): (r: Option<real>)
    ensures r.Some? <==> TruthyNum(j)
    ensures r.Some? ==> r.value == j.x
  {
    if TruthyNum(j) then Some(j.x) else None
  }

  /** `v || null` on a value read back from SQL. */
  function NullIfFalsy(o: Option<real>): (r: Option<real>)
    ensures r.Some? <==> o.Some? && o.value != 0.0
    ensures r.Some? ==> r == o
  {
    if o.Some? && o.value != 0.0 then o else None
  }

  predicate TruthyStr(s: Option<string>) {
    s.Some? && |s.value| > 0
  }

  /** Every reply the handlers give: 200 with a body, 400 with a message, or 500. */
  datatype Reply<T> = Ok(body: T) | BadRequest(error: string) | DatabaseError

  // ---------------------------------------------------------------- ingest

  /** The body of POST /api/voltage. */
  datatype VoltageRequest = VoltageRequest(
    deviceId: Option<string>,
    voltage: JsNum,
    minVoltage: JsNum,
    maxVoltage: JsNum,
    avgVoltage: JsNum,
    timestamp: Option<int>)

  /** The `voltage_update` message pushed to WebSocket clients; it carries no id. */
  datatype VoltageUpdate = VoltageUpdate(
    deviceId: string,
    voltage: real,
    minVoltage: JsNum,
    maxVoltage: JsNum,
    avgVoltage: JsNum,
    timestamp: int)

  const MissingReadingFields := "Missing required fields: deviceId and voltage"

  /** The reply (the new row's id on success), the new database and what was pushed. */
  datatype IngestOutcome = IngestOutcome(
    reply: Reply<nat>,
    db: Db,
    sent: seq<Broadcast.Delivery<VoltageUpdate>>)

  /**
   * POST /api/voltage. Rejects with 400 when `deviceId` is falsy or `voltage`
   * is undefined; otherwise inserts, with the optional fields stored as NULL
   * when falsy and the timestamp defaulting to the insert time. A `null`
   * voltage passes validation but violates the column's NOT NULL constraint.
   * Only a successful insert is broadcast; the broadcast message re-reads the
   * clock for its default timestamp and carries the raw optional fields.
   */
  function Ingest(db: Db, clients: seq<Broadcast.Client>, req: VoltageRequest,
                  insertTime: int, broadcastTime: int, storageOk: bool): (o: IngestOutcome)
    ensures o.reply.BadRequest? <==> !TruthyStr(req.deviceId) || req.voltage.Undefined?
    ensures o.reply.BadRequest? ==> o.reply.error == MissingReadingFields
    ensures o.reply.Ok? <==> TruthyStr(req.deviceId) && req.voltage.Num? && storageOk
    ensures !o.reply.Ok? ==> o.db == db && o.sent == []
    ensures o.reply.Ok? ==>
              && o.db.readings == db.readings + [Reading(o.reply.body, req.deviceId.value, req.voltage.x,
                                                         OrNull(req.minVoltage), OrNull(req.maxVoltage),
                                                         OrNull(req.avgVoltage),
                                                         req.timestamp.GetOr(insertTime), insertTime)]
              && o.reply.body == db.lastReadingId + 1
              && o.db.lastReadingId == o.reply.body
              && o.db.sessions == db.sessions && o.db.lastSessionRowId == db.lastSessionRowId
    ensures o.reply.Ok? ==>
              o.sent == Broadcast.Fanout(clients, VoltageUpdate(req.deviceId.value, req.voltage.x,
                                                                req.minVoltage, req.maxVoltage, req.avgVoltage,
                                                                req.timestamp.GetOr(broadcastTime)))
    ensures Valid(db) ==> Valid(o.db)
  {
    if !TruthyStr(req.deviceId) || req.voltage.Undefined? then
      IngestOutcome(BadRequest(MissingReadingFields), db, [])
    else if req.voltage.Null? || !storageOk then
      IngestOutcome(DatabaseError, db, [])
    else
      var db' := InsertReading(db, req.deviceId.value, req.voltage.x, OrNull(req.minVoltage),
                               OrNull(req.maxVoltage), OrNull(req.avgVoltage),
                               req.timestamp.GetOr(insertTime), insertTime);
      assert db'.readings == db.readings + [db'.readings[|db.readings|]];
      var event := VoltageUpdate(req.deviceId.value, req.voltage.x, req.minVoltage, req.maxVoltage,
                                 req.avgVoltage, req.timestamp.GetOr(broadcastTime));
      IngestOutcome(Ok(db'.lastReadingId), db', Broadcast.Fanout(clients, event))
  }

  /** Successive successful inserts are given strictly increasing ids. */
  lemma IngestIdsIncrease(db: Db, clients: seq<Broadcast.Client>, a: VoltageRequest, b: VoltageRequest,
                          t1: int, t2: int, t3: int, t4: int, ok1: bool, ok2: bool)
    requires Valid(db)
    ensures var o1 := Ingest(db, clients, a, t1, t2, ok1);
            var o2 := Ingest(o1.db, clients, b, t3, t4, ok2);
            o1.reply.Ok? && o2.reply.Ok? ==> o1.reply.body < o2.reply.body
    ensures var o1 := Ingest(db, clients, a, t1, t2, ok1);
            o1.reply.Ok? ==> forall i :: 0 <= i < |db.readings| ==> db.readings[i].id < o1.reply.body
  {
  }

  // ---------------------------------------------------------------- queries

  /** Whether a row passes `WHERE device_id = ?` (no condition unless the device is truthy). */
  predicate DeviceMatches(deviceId: Option<string>, r: Reading) {
    !TruthyStr(deviceId) || r.deviceId == deviceId.value
  }

  /** The device's rows, in table order. */
  function ForDevice(rows: seq<Reading>, deviceId: Option<string>): seq<Reading> {
    Query.Where(rows, r => DeviceMatches(deviceId, r))
  }

  /** Whether a row passes `AND timestamp >= cutoff` (no condition without a cutoff). */
  predicate NotBefore(cutoff: Option<int>, r: Reading) {
    cutoff.None? || r.timestamp >= cutoff.value
  }

  /** The rows whose timestamp is at least the cutoff, in table order. */
  function Since(rows: seq<Reading>, cutoff: Option<int>): seq<Reading> {
    Query.Where(rows, r => NotBefore(cutoff, r))
  }

  /** Filtering the table keeps its ids strictly increasing. */
  lemma FilterKeepsIds(rows: seq<Reading>, keep: Reading -> bool)
    requires IdsIncreasing(rows)
    ensures IdsIncreasing(Query.Where(rows, keep))
  {
    Query.WhereKeepsOrder(rows, keep, (a: Reading, b: Reading) => a.id < b.id);
  }

  /** The device's rows, newest first. */
  function Newest(db: Db, deviceId: Option<string>): (r: seq<Reading>)
    ensures Query.SortedDesc(r, ReadingTime)
    ensures multiset(r) == multiset(ForDevice(db.readings, deviceId))
  {
    Query.SortDesc(ForDevice(db.readings, deviceId), ReadingTime)
  }

  const DefaultLatestLimit := 10

  /**
   * GET /api/voltage/latest: `limit` is `req.query.limit || 10` handed to
   * SQLite's LIMIT (None stands for an absent or empty parameter; a negative
   * limit means no limit). The result is the device's newest readings, newest first.
   */
  function Latest(db: Db, deviceId: Option<string>, limit: Option<int>, storageOk: bool): (r: Reply<seq<Reading>>)
    ensures r.Ok? <==> storageOk
    ensures r.Ok? ==>
              var rows := r.body;
              var n := limit.GetOr(DefaultLatestLimit);
              && Query.SortedDesc(rows, ReadingTime)
              && multiset(rows) <= multiset(ForDevice(db.readings, deviceId))
              && |rows| == (if n < 0 || n > |ForDevice(db.readings, deviceId)| then |ForDevice(db.readings, deviceId)| else n)
              && (forall x :: x in ForDevice(db.readings, deviceId) && x !in rows ==>
                    forall k :: 0 <= k < |rows| ==> rows[k].timestamp >= x.timestamp)
  {
    if !storageOk then DatabaseError
    else
      var all := Newest(db, deviceId);
      var rows := Query.Window(all, limit.GetOr(DefaultLatestLimit), 0);
      NewestPrefixFacts(all, rows, ForDevice(db.readings, deviceId));
      Ok(rows)
  }

  /** A prefix of a descending permutation holds the newest rows. */
  lemma NewestPrefixFacts(all: seq<Reading>, rows: seq<Reading>, source: seq<Reading>)
    requires Query.SortedDesc(all, ReadingTime) && multiset(all) == multiset(source)
    requires |rows| <= |all| && rows == all[..|rows|]
    ensures Query.SortedDesc(rows, ReadingTime)
    ensures multiset(rows) <= multiset(source)
    ensures forall x :: x in source && x !in rows ==>
              forall k :: 0 <= k < |rows| ==> rows[k].timestamp >= x.timestamp
  {
    Query.TopPrefix(all, rows, source, ReadingTime);
  }

  /** `parseInt(v) || d`: a missing (NaN) or zero parameter falls back to the default. */
  function ParamOr(p: Option<int>, default: int): (r: int)
    ensures r != 0 || default == 0
    ensures p.None? || p.value == 0 ==> r == default
    ensures p.Some? && p.value != 0 ==> r == p.value
  {
    if p.None? || p.value == 0 then default else p.value
  }

  const DefaultHistoryLimit := 50

  datatype Pagination = Pagination(page: int, limit: int, total: nat, totalPages: int)

  datatype HistoryPage = HistoryPage(data: seq<Reading>, pagination: Pagination)

  /**
   * GET /api/voltage/history: page `parseInt(page) || 1`, limit
   * `parseInt(limit) || 50`, offset `(page - 1) * limit`, the device's rows
   * newest first through LIMIT/OFFSET, and the page count `Math.ceil(total / limit)`.
   */
  function History(db: Db, deviceId: Option<string>, page: Option<int>, limit: Option<int>, storageOk: bool): (r: Reply<HistoryPage>)
    ensures r.Ok? <==> storageOk
    ensures r.Ok? ==>
              var p := r.body.pagination;
              && p.page == ParamOr(page, 1) && p.limit == ParamOr(limit, DefaultHistoryLimit)
              && p.total == |ForDevice(db.readings, deviceId)|
              && r.body.data == Query.Window(Newest(db, deviceId), p.limit, Query.PageOffset(p.page, p.limit))
              && (p.limit > 0 ==> p.totalPages * p.limit >= p.total && p.totalPages >= 0)
              && (p.limit > 0 && p.total > 0 ==> (p.totalPages - 1) * p.limit < p.total)
              && (p.limit > 0 && p.total == 0 ==> p.totalPages == 0)
              && (p.limit < 0 ==> p.totalPages <= 0 && p.totalPages * p.limit <= p.total < (p.totalPages - 1) * p.limit)
  {
    if !storageOk then DatabaseError
    else
      var pg := ParamOr(page, 1);
      var lim := ParamOr(limit, DefaultHistoryLimit);
      var total := |ForDevice(db.readings, deviceId)|;
      assert lim > 0 ==> Query.TotalPages(total, lim) * lim >= total && Query.TotalPages(total, lim) >= 0
                         && (total > 0 ==> (Query.TotalPages(total, lim) - 1) * lim < total)
                         && (total == 0 ==> Query.TotalPages(total, lim) == 0) by {
        if lim > 0 {
          Query.TotalPagesIsCeiling(total, lim);
        }
      }
      assert lim < 0 ==> Query.TotalPages(total, lim) <= 0
                         && Query.TotalPages(total, lim) * lim <= total < (Query.TotalPages(total, lim) - 1) * lim by {
        if lim < 0 {
          Query.TotalPagesNegativeLimit(total, lim);
        }
      }
      var data := Query.Window(Newest(db, deviceId), lim, Query.PageOffset(pg, lim));
      Ok(HistoryPage(data, Pagination(pg, lim, total, Query.TotalPages(total, lim))))
  }

  /** Pages 1..n of the device's history, requested one by one and laid end to end. */
  function HistoryPages(db: Db, deviceId: Option<string>, limit: int, n: nat): seq<Reading> {
    Query.Concat((p: int) => History(db, deviceId, Some(p), Some(limit), true).body.data, n)
  }

  /**
   * Requesting pages 1..totalPages with a positive limit returns every row
   * of the device exactly once (the rows newest first, laid end to end).
   */
  lemma HistoryPagesCover(db: Db, deviceId: Option<string>, limit: int)
    requires limit > 0
    ensures var tp := History(db, deviceId, Some(1), Some(limit), true).body.pagination.totalPages;
            tp >= 0 && HistoryPages(db, deviceId, limit, tp) == Newest(db, deviceId)
            && multiset(HistoryPages(db, deviceId, limit, tp)) == multiset(ForDevice(db.readings, deviceId))
  {
    var rows := Newest(db, deviceId);
    var tp := Query.TotalPages(|rows|, limit);
    Query.TotalPagesIsCeiling(|rows|, limit);
    HistoryPagesArePages(db, deviceId, limit, tp);
    Query.PagesCover(rows, limit);
  }

  lemma HistoryPagesArePages(db: Db, deviceId: Option<string>, limit: int, n: nat)
    requires limit > 0
    ensures HistoryPages(db, deviceId, limit, n) == Query.Pages(Newest(db, deviceId), limit, n)
  {
    var page := (p: int) => History(db, deviceId, Some(p), Some(limit), true).body.data;
    forall p | 1 <= p <= n
      ensures page(p) == Query.Window(Newest(db, deviceId), limit, Query.PageOffset(p, limit))
    {
      HistoryPageIsWindow(db, deviceId, limit, p);
    }
    Query.ConcatAgree(page, (p: int) => Query.Window(Newest(db, deviceId), limit, Query.PageOffset(p, limit)), n);
  }

  /** Page p (p >= 1) of the history is the p-th LIMIT/OFFSET window of the device's rows. */
  lemma HistoryPageIsWindow(db: Db, deviceId: Option<string>, limit: int, p: int)
    requires limit > 0 && p >= 1
    ensures History(db, deviceId, Some(p), Some(limit), true).body.data
            == Query.Window(Newest(db, deviceId), limit, Query.PageOffset(p, limit))
  {
    assert ParamOr(Some(p), 1) == p;
    assert ParamOr(Some(limit), DefaultHistoryLimit) == limit;
  }

  /** Two different history pages (page numbers >= 1) of a valid database share no reading. */
  lemma HistoryPagesDisjoint(db: Db, deviceId: Option<string>, limit: int, p: int, q: int)
    requires Valid(db) && limit > 0 && 1 <= p < q
    ensures forall x :: x in History(db, deviceId, Some(p), Some(limit), true).body.data ==>
                          x !in History(db, deviceId, Some(q), Some(limit), true).body.data
  {
    var rows := Newest(db, deviceId);
    NewestDistinct(db, deviceId);
    Query.PagesDisjoint(rows, limit, p, q);
  }

  /** Rows of a valid database are pairwise different (their ids are). */
  lemma NewestDistinct(db: Db, deviceId: Option<string>)
    requires Valid(db)
    ensures Query.Distinct(Newest(db, deviceId))
  {
    var src := ForDevice(db.readings, deviceId);
    FilterKeepsIds(db.readings, r => DeviceMatches(deviceId, r));
    var rows := Newest(db, deviceId);
    forall i, j | 0 <= i < j < |rows|
      ensures rows[i] != rows[j]
    {
      if rows[i] == rows[j] {
        RepeatCountsTwice(rows, i, j);
        OccursOnce(src, rows[i]);
        assert false;
      }
    }
  }

  lemma RepeatCountsTwice<T>(rows: seq<T>, i: int, j: int)
    requires 0 <= i < j < |rows| && rows[i] == rows[j]
    ensures multiset(rows)[rows[i]] >= 2
  {
    assert rows == rows[..i] + [rows[i]] + rows[i + 1..j] + [rows[j]] + rows[j + 1..];
  }

  /** In rows with strictly increasing ids no row occurs twice. */
  lemma {:induction false} OccursOnce(rows: seq<Reading>, x: Reading)
    requires IdsIncreasing(rows)
    ensures multiset(rows)[x] <= 1
    decreases |rows|
  {
    if |rows| > 0 {
      assert rows == [rows[0]] + rows[1..];
      OccursOnce(rows[1..], x);
      if rows[0] == x {
        assert x !in rows[1..] by {
          forall k | 0 <= k < |rows[1..]|
            ensures rows[1..][k] != x
          {
            assert rows[1..][k] == rows[k + 1];
          }
        }
      }
    }
  }

  // ---------------------------------------------------------------- stats

  /** The SQL `datetime('now', ...)` offsets of the recognised ranges, in seconds. */
  function RangeSeconds(range: string): (r: Option<int>)
    ensures r.Some? <==> range in {"1h", "24h", "7d", "30d"}
    ensures range == "1h" ==> r == Some(3600)
    ensures range == "24h" ==> r == Some(86400)
    ensures range == "7d" ==> r == Some(7 * 86400)
    ensures range == "30d" ==> r == Some(30 * 86400)
  {
    if range == "1h" then Some(3600)
    else if range == "24h" then Some(86400)
    else if range == "7d" then Some(7 * 86400)
    else if range == "30d" then Some(30 * 86400)
    else None
  }

  /** `req.query.range || '24h'`. */
  function EffectiveRange(range: Option<string>): (r: string)
    ensures r != ""
    ensures TruthyStr(range) ==> r == range.value
    ensures !TruthyStr(range) ==> RangeSeconds(r) == Some(86400)
  {
    if TruthyStr(range) then range.value else "24h"
  }

  /** The cutoff of the time condition, or None when the range adds no condition. */
  function Cutoff(range: Option<string>, now: int): (r: Option<int>)
    ensures r.None? <==> TruthyStr(range) && range.value !in {"1h", "24h", "7d", "30d"}
    ensures r.Some? ==> r.value <= now - 3600
    ensures !TruthyStr(range) ==> r == Some(now - 86400)
  {
    match RangeSeconds(EffectiveRange(range))
    case Some(secs) => Some(now - secs)
    case None => None
  }

  function Voltages(rows: seq<Reading>): (vs: seq<real>)
    ensures |vs| == |rows| && forall i :: 0 <= i < |rows| ==> vs[i] == rows[i].voltage
  {
    seq(|rows|, i requires 0 <= i < |rows| => rows[i].voltage)
  }

  function Timestamps(rows: seq<Reading>): (ts: seq<int>)
    ensures |ts| == |rows| && forall i :: 0 <= i < |rows| ==> ts[i] == rows[i].timestamp
  {
    seq(|rows|, i requires 0 <= i < |rows| => rows[i].timestamp)
  }

  /** The single row the stats query returns. */
  datatype StatsRow = StatsRow(
    totalReadings: nat,
    minVoltage: Option<real>,
    maxVoltage: Option<real>,
    avgVoltage: Option<real>,
    firstReading: Option<int>,
    lastReading: Option<int>)

  /** COUNT, MIN, MAX, AVG of voltage and MIN, MAX of timestamp; NULL aggregates over no rows. */
  function Summarize(rows: seq<Reading>): (s: StatsRow)
    ensures s.totalReadings == |rows|
    ensures |rows| == 0 <==> s.minVoltage.None?
    ensures |rows| == 0 ==> s == StatsRow(0, None, None, None, None, None)
    ensures |rows| > 0 ==>
              && s.minVoltage.Some? && s.maxVoltage.Some? && s.avgVoltage.Some?
              && s.firstReading.Some? && s.lastReading.Some?
              && (forall i :: 0 <= i < |rows| ==> s.minVoltage.value <= rows[i].voltage <= s.maxVoltage.value)
              && (exists i :: 0 <= i < |rows| && rows[i].voltage == s.minVoltage.value)
              && (exists i :: 0 <= i < |rows| && rows[i].voltage == s.maxVoltage.value)
              && s.minVoltage.value <= s.avgVoltage.value <= s.maxVoltage.value
              && s.avgVoltage.value == Aggregate.Sum(Voltages(rows)) / |rows| as real
              && (forall i :: 0 <= i < |rows| ==> s.firstReading.value <= rows[i].timestamp <= s.lastReading.value)
              && (exists i :: 0 <= i < |rows| && rows[i].timestamp == s.firstReading.value)
              && (exists i :: 0 <= i < |rows| && rows[i].timestamp == s.lastReading.value)
  {
    if |rows| == 0 then StatsRow(0, None, None, None, None, None)
    else
      var vs := Voltages(rows);
      var ts := Timestamps(rows);
      Aggregate.MeanBetween(vs);
      StatsRow(|rows|, Some(Aggregate.Min(vs)), Some(Aggregate.Max(vs)), Some(Aggregate.Mean(vs)),
               Some(Aggregate.Earliest(ts)), Some(Aggregate.Latest(ts)))
  }

  /** The readings the stats query aggregates over. */
  function StatsRows(db: Db, deviceId: Option<string>, range: Option<string>, now: int): seq<Reading> {
    Since(ForDevice(db.readings, deviceId), Cutoff(range, now))
  }

  /** GET /api/voltage/stats. */
  function Stats(db: Db, deviceId: Option<string>, range: Option<string>, now: int, storageOk: bool): (r: Reply<StatsRow>)
    ensures r.Ok? <==> storageOk
    ensures r.Ok? ==> r.body == Summarize(StatsRows(db, deviceId, range, now))
  {
    if !storageOk then DatabaseError else Ok(Summarize(StatsRows(db, deviceId, range, now)))
  }

  /**
   * A reading is counted by the stats query iff it belongs to the device (when
   * one is named) and, for a recognised range (default 24h), is no older than
   * the range before `now`.
   */
  lemma StatsWindowMembership(db: Db, deviceId: Option<string>, range: Option<string>, now: int, x: Reading)
    requires x in db.readings
    ensures x in StatsRows(db, deviceId, range, now) <==>
              && (!TruthyStr(deviceId) || x.deviceId == deviceId.value)
              && (RangeSeconds(EffectiveRange(range)).None? ||
                  x.timestamp >= now - RangeSeconds(EffectiveRange(range)).value)
  {
    var dev := ForDevice(db.readings, deviceId);
    var cutoff := Cutoff(range, now);
    var k :| 0 <= k < |db.readings| && db.readings[k] == x;
    if DeviceMatches(deviceId, x) {
      assert x in dev;
      var m :| 0 <= m < |dev| && dev[m] == x;
      if NotBefore(cutoff, x) {
        assert x in StatsRows(db, deviceId, range, now);
      }
    }
  }

  // ---------------------------------------------------------------- sessions

  /** The body of POST /api/welding/start. */
  datatype StartRequest = StartRequest(sessionId: Option<string>, deviceId: Option<string>, operator: Option<string>)

  datatype StartAck = StartAck(id: nat, sessionId: string)

  const MissingStartFields := "Missing required fields: sessionId and deviceId"
  const UnknownOperator := "Unknown"

  /**
   * POST /api/welding/start: 400 unless `sessionId` and `deviceId` are
   * truthy; otherwise an open session starting now with `operator || 'Unknown'`.
   * A reused `sessionId` violates the UNIQUE constraint and is reported as a
   * plain database error.
   */
  function StartSession(db: Db, req: StartRequest, now: int, storageOk: bool): (r: (Reply<StartAck>, Db))
    ensures r.0.BadRequest? <==> !TruthyStr(req.sessionId) || !TruthyStr(req.deviceId)
    ensures r.0.BadRequest? ==> r.0.error == MissingStartFields
    ensures r.0.Ok? <==> TruthyStr(req.sessionId) && TruthyStr(req.deviceId) && storageOk
                         && !HasSession(db, req.sessionId.value)
    ensures !r.0.Ok? ==> r.1 == db
    ensures r.0.Ok? ==>
              && r.0.body == StartAck(db.lastSessionRowId + 1, req.sessionId.value)
              && r.1.readings == db.readings && r.1.lastReadingId == db.lastReadingId
              && r.1.lastSessionRowId == db.lastSessionRowId + 1
              && r.1.sessions == db.sessions + [Session(db.lastSessionRowId + 1, req.sessionId.value, req.deviceId.value,
                                                         now, None, None, None, None, None,
                                                         if TruthyStr(req.operator) then req.operator.value else UnknownOperator,
                                                         now)]
    ensures Valid(db) ==> Valid(r.1)
  {
    if !TruthyStr(req.sessionId) || !TruthyStr(req.deviceId) then (BadRequest(MissingStartFields), db)
    else if !storageOk then (DatabaseError, db)
    else
      var operator := if TruthyStr(req.operator) then req.operator.value else UnknownOperator;
      match InsertSession(db, req.sessionId.value, req.deviceId.value, now, operator, now)
      case None => (DatabaseError, db)
      case Some(db') => (Ok(StartAck(db'.lastSessionRowId, req.sessionId.value)), db')
  }

  /** Starting a session under an id already in the table fails with 500 and changes nothing. */
  lemma StartDuplicateRejected(db: Db, req: StartRequest, now: int, storageOk: bool)
    requires TruthyStr(req.sessionId) && TruthyStr(req.deviceId)
    requires HasSession(db, req.sessionId.value)
    ensures StartSession(db, req, now, storageOk).0 == DatabaseError
    ensures StartSession(db, req, now, storageOk).1 == db
  {
  }

  /** The readings the session-end query joins to a session row. */
  function SessionRows(db: Db, sessionId: string): (r: seq<Reading>)
    ensures FindSession(db, sessionId).None? ==> r == []
    ensures forall k :: 0 <= k < |r| ==> r[k] in db.readings
    ensures FindSession(db, sessionId).Some? ==>
              && (forall k :: 0 <= k < |r| ==> InSessionWindow(FindSession(db, sessionId).value, r[k]))
              && (forall k :: 0 <= k < |db.readings| && InSessionWindow(FindSession(db, sessionId).value, db.readings[k]) ==>
                    db.readings[k] in r)
  {
    match FindSession(db, sessionId)
    case None => []
    case Some(s) => Query.Where(db.readings, r => InSessionWindow(s, r))
  }

  /** The JOIN condition: same device, and not older than the session's start. */
  predicate InSessionWindow(s: Session, r: Reading) {
    r.deviceId == s.deviceId && r.timestamp >= s.startTime
  }

  /** MIN, MAX, AVG of voltage as the session-end query returns them. */
  datatype SessionStats = SessionStats(minVoltage: Option<real>, maxVoltage: Option<real>, avgVoltage: Option<real>)

  datatype EndAck = EndAck(sessionId: string, stats: SessionStats)

  const MissingEndField := "Missing required field: sessionId"

  function ToSessionStats(s: StatsRow): SessionStats {
    SessionStats(s.minVoltage, s.maxVoltage, s.avgVoltage)
  }

  /**
   * POST /api/welding/end: 400 unless `sessionId` is truthy. Otherwise the
   * stats over the session device's readings with timestamp >= start_time are
   * computed and written back with end_time = now, falsy values as NULL.
   * Nothing checks that the session exists or is still open: an unknown id
   * gets all-NULL stats and a success reply, and an ended session is
   * recomputed and overwritten.
   */
  function EndSession(db: Db, sessionId: Option<string>, now: int, storageOk: bool): (r: (Reply<EndAck>, Db))
    ensures r.0.BadRequest? <==> !TruthyStr(sessionId)
    ensures r.0.BadRequest? ==> r.0.error == MissingEndField
    ensures r.0.Ok? <==> TruthyStr(sessionId) && storageOk
    ensures !r.0.Ok? ==> r.1 == db
    ensures r.0.Ok? ==>
              var stats := Summarize(SessionRows(db, sessionId.value));
              && r.0.body == EndAck(sessionId.value, ToSessionStats(stats))
              && r.1 == UpdateSession(db, sessionId.value,
                                      SessionClose(now, NullIfFalsy(stats.minVoltage), NullIfFalsy(stats.maxVoltage),
                                                   NullIfFalsy(stats.avgVoltage)))
    ensures Valid(db) ==> Valid(r.1)
  {
    if !TruthyStr(sessionId) then (BadRequest(MissingEndField), db)
    else if !storageOk then (DatabaseError, db)
    else
      var stats := Summarize(SessionRows(db, sessionId.value));
      var close := SessionClose(now, NullIfFalsy(stats.minVoltage), NullIfFalsy(stats.maxVoltage),
                                NullIfFalsy(stats.avgVoltage));
      (Ok(EndAck(sessionId.value, ToSessionStats(stats))), UpdateSession(db, sessionId.value, close))
  }

  /** Ending a session id that was never started succeeds, with NULL stats, and changes nothing. */
  lemma EndUnknownSessionSucceeds(db: Db, sessionId: string, now: int)
    requires |sessionId| > 0 && !HasSession(db, sessionId)
    ensures EndSession(db, Some(sessionId), now, true).0 == Ok(EndAck(sessionId, SessionStats(None, None, None)))
    ensures EndSession(db, Some(sessionId), now, true).1 == db
  {
  }

  /**
   * Ending an existing session closes exactly that row: end_time becomes now,
   * the stats are those of its window, and all other rows and the readings
   * are unchanged.
   */
  lemma EndClosesSession(db: Db, i: int, now: int)
    requires Valid(db) && 0 <= i < |db.sessions| && |db.sessions[i].sessionId| > 0
    ensures var s := db.sessions[i];
            var (reply, db') := EndSession(db, Some(s.sessionId), now, true);
            var stats := Summarize(Query.Where(db.readings, r => InSessionWindow(s, r)));
            && reply == Ok(EndAck(s.sessionId, ToSessionStats(stats)))
            && db'.readings == db.readings
            && |db'.sessions| == |db.sessions|
            && (forall j :: 0 <= j < |db.sessions| && j != i ==> db'.sessions[j] == db.sessions[j])
            && db'.sessions[i] == s.(endTime := Some(now),
                                     minVoltage := NullIfFalsy(stats.minVoltage),
                                     maxVoltage := NullIfFalsy(stats.maxVoltage),
                                     avgVoltage := NullIfFalsy(stats.avgVoltage))
  {
    FindSessionUnique(db, i);
    var s := db.sessions[i];
    forall j | 0 <= j < |db.sessions| && j != i
      ensures db.sessions[j].sessionId != s.sessionId
    {
    }
  }

  /**
   * The readings a session end aggregates are the session device's readings
   * from its start time on.
   */
  lemma EndStatsWindow(db: Db, i: int)
    requires Valid(db) && 0 <= i < |db.sessions|
    ensures var s := db.sessions[i];
            var rows := SessionRows(db, s.sessionId);
            && (forall k :: 0 <= k < |rows| ==>
                  rows[k] in db.readings && rows[k].deviceId == s.deviceId && rows[k].timestamp >= s.startTime)
            && (forall k :: (0 <= k < |db.readings| && db.readings[k].deviceId == s.deviceId
                             && db.readings[k].timestamp >= s.startTime) ==> db.readings[k] in rows)
  {
    FindSessionUnique(db, i);
  }

  /**
   * The stats a session end stores: all NULL over an empty window, and
   * min <= avg <= max over a non-empty one.
   */
  lemma EndStatsBounds(db: Db, sessionId: string, now: int)
    requires |sessionId| > 0
    ensures var rows := SessionRows(db, sessionId);
            var (reply, db') := EndSession(db, Some(sessionId), now, true);
            var st := reply.body.stats;
            && reply.Ok?
            && (|rows| == 0 ==> st == SessionStats(None, None, None))
            && (|rows| > 0 ==> st.minVoltage.Some? && st.avgVoltage.Some? && st.maxVoltage.Some?
                               && st.minVoltage.value <= st.avgVoltage.value <= st.maxVoltage.value)
  {
  }

  /**
   * Ending a session twice: both calls succeed, and the second recomputes and
   * overwrites end_time and the stats of the first.
   */
  lemma EndTwiceOverwrites(db: Db, i: int, t1: int, t2: int)
    requires Valid(db) && 0 <= i < |db.sessions| && |db.sessions[i].sessionId| > 0
    ensures var sid := db.sessions[i].sessionId;
            var (r1, db1) := EndSession(db, Some(sid), t1, true);
            var (r2, db2) := EndSession(db1, Some(sid), t2, true);
            r1.Ok? && r2.Ok? && db2.sessions[i].endTime == Some(t2)
            && r2.body.stats == r1.body.stats
  {
    var sid := db.sessions[i].sessionId;
    var db1 := EndSession(db, Some(sid), t1, true).1;
    EndKeepsSessionRows(db, i, t1);
    EndClosesSession(db, i, t1);
    assert db1.sessions[i].sessionId == sid;
    EndClosesSession(db1, i, t2);
  }

  /** Closing a session leaves the readings its stats are computed from unchanged. */
  lemma EndKeepsSessionRows(db: Db, i: int, now: int)
    requires Valid(db) && 0 <= i < |db.sessions| && |db.sessions[i].sessionId| > 0
    ensures var sid := db.sessions[i].sessionId;
            SessionRows(EndSession(db, Some(sid), now, true).1, sid) == SessionRows(db, sid)
  {
    var s := db.sessions[i];
    var db1 := EndSession(db, Some(s.sessionId), now, true).1;
    EndClosesSession(db, i, now);
    SessionRowsAgree(db, db1, i);
  }

  /** Two valid tables with the same readings and the same session window at row i give that session the same rows. */
  lemma SessionRowsAgree(db: Db, db1: Db, i: int)
    requires Valid(db) && Valid(db1) && 0 <= i < |db.sessions| && 0 <= i < |db1.sessions|
    requires db1.readings == db.readings
    requires var s, s1 := db.sessions[i], db1.sessions[i];
             s1.sessionId == s.sessionId && s1.deviceId == s.deviceId && s1.startTime == s.startTime
    ensures SessionRows(db1, db.sessions[i].sessionId) == SessionRows(db, db.sessions[i].sessionId)
  {
    var s, s1 := db.sessions[i], db1.sessions[i];
    FindSessionUnique(db, i);
    FindSessionUnique(db1, i);
    Query.WhereAgree(db.readings, r => InSessionWindow(s, r), r => InSessionWindow(s1, r));
  }

  const DefaultSessionLimit := 20

  /** GET /api/welding/sessions: sessions by start time, newest first, through LIMIT/OFFSET. */
  function ListSessions(db: Db, page: Option<int>, limit: Option<int>, storageOk: bool): (r: Reply<seq<Session>>)
    ensures r.Ok? <==> storageOk
    ensures r.Ok? ==>
              var lim := ParamOr(limit, DefaultSessionLimit);
              && Query.SortedDesc(r.body, SessionStart)
              && multiset(r.body) <= multiset(db.sessions)
              && (lim > 0 && ParamOr(page, 1) >= 1 ==> |r.body| <= lim)
              && r.body == Query.Window(Query.SortDesc(db.sessions, SessionStart), lim,
                                        Query.PageOffset(ParamOr(page, 1), lim))
  {
    if !storageOk then DatabaseError
    else
      var all := Query.SortDesc(db.sessions, SessionStart);
      var lim := ParamOr(limit, DefaultSessionLimit);
      var rows := Query.Window(all, lim, Query.PageOffset(ParamOr(page, 1), lim));
      WindowFacts(all, lim, Query.PageOffset(ParamOr(page, 1), lim));
      Ok(rows)
  }

  /**
   * The first page (page absent, 0 or 1) with a positive limit holds
   * min(limit, number of sessions) sessions, and no session left out started
   * later than one returned.
   */
  lemma ListSessionsFirstPage(db: Db, page: Option<int>, limit: Option<int>)
    requires ParamOr(page, 1) == 1 && ParamOr(limit, DefaultSessionLimit) > 0
    ensures var lim := ParamOr(limit, DefaultSessionLimit);
            var r := ListSessions(db, page, limit, true).body;
            && |r| == (if lim < |db.sessions| then lim else |db.sessions|)
            && forall x :: x in db.sessions && x !in r ==>
                 forall k :: 0 <= k < |r| ==> r[k].startTime >= x.startTime
  {
    var lim := ParamOr(limit, DefaultSessionLimit);
    var all := Query.SortDesc(db.sessions, SessionStart);
    var r := ListSessions(db, page, limit, true).body;
    assert Query.PageOffset(ParamOr(page, 1), lim) == 0;
    Query.FirstWindow(all, lim);
    Query.TopPrefix(all, r, db.sessions, SessionStart);
  }

  /** A LIMIT/OFFSET window of sessions in descending start order is itself descending and drawn from them. */
  lemma WindowFacts(all: seq<Session>, limit: int, offset: int)
    requires Query.SortedDesc(all, SessionStart)
    ensures var w := Query.Window(all, limit, offset);
            Query.SortedDesc(w, SessionStart) && multiset(w) <= multiset(all)
  {
    Query.WindowSorted(all, limit, offset, SessionStart);
  }
}
