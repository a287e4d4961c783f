/**
 * The welding-record history panel (src/components/DataHistory.tsx): the
 * records built from stored readings and from the live voltage, the payload
 * a live record is saved with, the day filter, the row selection and the CSV
 * export. Date handling (`parseISO`, `isSameDay`, `format`) and number
 * printing (`toString` on a float) are library behaviour and enter as
 * parameters.
 */
module DataHistory {
  import opened Wrappers
  import Text
  import Query
  import Store
  import Broadcast
  import Server

  /** One row of the history table. */
  datatype WeldingRecord = WeldingRecord(
    id: string,
    timestamp: int,
    minVoltage: real,
    maxVoltage: real,
    avgVoltage: real,
    duration: string,
    operator: string)

  const RecordDuration := "00:03"
  const RecordOperator := "Admin"

  /** The device id live records are saved under. */
  const PanelDevice := "esp32-01"

  /** `v || 0` for a nullable numeric column. */
  function OrZero(o: Option<real>): (r: real)
    ensures o.Some? && o.value != 0.0 ==> r == o.value
    ensures o.None? || o.value == 0.0 ==> r == 0.0
  {
    if o.Some? && o.value != 0.0 then o.value else 0.0
  }

  /**
   * A stored reading as a record: id "DB_<id>", missing min and max shown as
   * 0, a missing average replaced by the reading's own voltage (and that by 0
   * when it is 0 as well).
   */
  function FromRow(row: Store.Reading): (r: WeldingRecord)
    ensures r.timestamp == row.timestamp
    ensures r.minVoltage == (if row.minVoltage.Some? then row.minVoltage.value else 0.0)
    ensures r.maxVoltage == (if row.maxVoltage.Some? then row.maxVoltage.value else 0.0)
    ensures r.avgVoltage == (if row.avgVoltage.Some? && row.avgVoltage.value != 0.0 then row.avgVoltage.value
                             else row.voltage)
    ensures r.duration == RecordDuration && r.operator == RecordOperator
  {
    var avg := if row.avgVoltage.Some? && row.avgVoltage.value != 0.0 then row.avgVoltage.value
               else if row.voltage != 0.0 then row.voltage else 0.0;
    WeldingRecord("DB_" + Text.NatToString(row.id), row.timestamp, OrZero(row.minVoltage), OrZero(row.maxVoltage),
                  avg, RecordDuration, RecordOperator)
  }

  /** The stored rows as records, in the order they were fetched. */
  function FromRows(rows: seq<Store.Reading>): (rs: seq<WeldingRecord>)
    ensures |rs| == |rows|
    ensures forall k :: 0 <= k < |rows| ==> rs[k] == FromRow(rows[k])
  {
    seq(|rows|, k requires 0 <= k < |rows| => FromRow(rows[k]))
  }

  /**
   * A fetched page of stored rows, whose ids are distinct, becomes records
   * with distinct ids, so the table's row keys never collide.
   */
  lemma FromRowsIdsDistinct(rows: seq<Store.Reading>)
    requires forall i, j :: 0 <= i < j < |rows| ==> rows[i].id != rows[j].id
    ensures forall i, j :: 0 <= i < j < |FromRows(rows)| ==> FromRows(rows)[i].id != FromRows(rows)[j].id
  {
    forall i, j | 0 <= i < j < |rows|
      ensures FromRows(rows)[i].id != FromRows(rows)[j].id
    {
      FromRowIdsDistinct(rows[i], rows[j]);
    }
  }

  /** Different reading ids give different record ids: "DB_<id>" reads back as the id. */
  lemma FromRowIdsDistinct(a: Store.Reading, b: Store.Reading)
    ensures FromRow(a).id == FromRow(b).id <==> a.id == b.id
  {
    var sa, sb := Text.NatToString(a.id), Text.NatToString(b.id);
    if FromRow(a).id == FromRow(b).id {
      assert ("DB_" + sa)[3..] == sa && ("DB_" + sb)[3..] == sb;
      Text.NatToStringInjective(a.id, b.id);
    }
  }

  /**
   * The record made every tick from the live voltage v, with the clock's
   * milliseconds in its id: min is v - 2 but never below 0, max is v + 2,
   * avg is v.
   */
  function Synthetic(v: real, nowMillis: nat, timestamp: int): (r: WeldingRecord)
    ensures r.avgVoltage == v
    ensures r.maxVoltage == v + 2.0
    ensures r.minVoltage >= 0.0 && r.minVoltage >= v - 2.0
    ensures r.minVoltage == v - 2.0 || r.minVoltage == 0.0
    ensures r.timestamp == timestamp
    ensures r.duration == RecordDuration && r.operator == RecordOperator
  {
    WeldingRecord("WLD_" + Text.NatToString(nowMillis), timestamp, if v - 2.0 > 0.0 then v - 2.0 else 0.0,
                  v + 2.0, v, RecordDuration, RecordOperator)
  }

  /** For a non-negative voltage the synthetic bounds bracket it: min <= avg < max; below zero min exceeds avg. */
  lemma SyntheticBounds(v: real, nowMillis: nat, timestamp: int)
    ensures var r := Synthetic(v, nowMillis, timestamp);
            (v >= 0.0 ==> r.minVoltage <= r.avgVoltage < r.maxVoltage)
            && (v < 0.0 ==> r.minVoltage > r.avgVoltage)
  {
  }

  /** The POST /api/voltage body a record is saved with: the panel's device, voltage = its average. */
  function SavePayload(rec: WeldingRecord): (req: Server.VoltageRequest)
    ensures req.deviceId == Some(PanelDevice)
    ensures req.voltage == Server.Num(rec.avgVoltage)
    ensures req.timestamp == Some(rec.timestamp)
  {
    Server.VoltageRequest(Some(PanelDevice), Server.Num(rec.avgVoltage), Server.Num(rec.minVoltage),
                          Server.Num(rec.maxVoltage), Server.Num(rec.avgVoltage), Some(rec.timestamp))
  }

  /**
   * Saving a record is always accepted, and the stored row reads back as the
   * same record apart from its id, which becomes "DB_" and the new row id.
   */
  lemma SaveLoadRoundTrip(db: Store.Db, clients: seq<Broadcast.Client>, rec: WeldingRecord, t1: int, t2: int)
    requires rec.duration == RecordDuration && rec.operator == RecordOperator
    ensures var o := Server.Ingest(db, clients, SavePayload(rec), t1, t2, true);
            && o.reply.Ok?
            && FromRow(o.db.readings[|o.db.readings| - 1])
               == rec.(id := "DB_" + Text.NatToString(o.reply.body))
  {
  }

  /** `records.filter(r => isSameDay(parseISO(r.timestamp), selectedDate))`, with the day test a parameter. */
  function OnDay(records: seq<WeldingRecord>, sameDay: int -> bool): (r: seq<WeldingRecord>)
    ensures forall k :: 0 <= k < |r| ==> sameDay(r[k].timestamp) && r[k] in records
    ensures forall k :: 0 <= k < |records| && sameDay(records[k].timestamp) ==> records[k] in r
  {
    Query.Where(records, (rec: WeldingRecord) => sameDay(rec.timestamp))
  }

  /** The day filter keeps the records' order. */
  lemma OnDayKeepsOrder(records: seq<WeldingRecord>, sameDay: int -> bool, before: (WeldingRecord, WeldingRecord) -> bool)
    requires Query.Chained(records, before)
    ensures Query.Chained(OnDay(records, sameDay), before)
  {
    Query.WhereKeepsOrder(records, (rec: WeldingRecord) => sameDay(rec.timestamp), before);
  }

  /** Dropping a selected id keeps the remaining ids in their order. */
  lemma ToggleKeepsOrder(selected: seq<string>, id: string, before: (string, string) -> bool)
    requires id in selected && Query.Chained(selected, before)
    ensures Query.Chained(Toggle(selected, id), before)
  {
    Query.WhereKeepsOrder(selected, x => x != id, before);
  }

  /** `handleSelectRecord`: drop the id if it is selected, otherwise append it. */
  function Toggle(selected: seq<string>, id: string): (r: seq<string>)
    ensures id in selected ==> id !in r && |r| < |selected|
    ensures id !in selected ==> r == selected + [id]
    ensures forall k :: 0 <= k < |r| ==> r[k] == id || r[k] in selected
    ensures forall k :: 0 <= k < |selected| && selected[k] != id ==> selected[k] in r
  {
    if id in selected then
      var r := Query.Where(selected, x => x != id);
      assert |r| < |selected| by {
        var k :| 0 <= k < |selected| && selected[k] == id;
        WhereDropsOne(selected, id, k);
      }
      r
    else selected + [id]
  }

  /** Removing an element that occurs shortens the sequence. */
  lemma {:induction false} WhereDropsOne(s: seq<string>, id: string, k: int)
    requires 0 <= k < |s| && s[k] == id
    ensures |Query.Where(s, x => x != id)| < |s|
    decreases |s|
  {
    if k > 0 {
      assert s[1..][k - 1] == id;
      WhereDropsOne(s[1..], id, k - 1);
    }
  }

  /** Toggling an id twice restores the same set of selected ids. */
  lemma ToggleTwice(selected: seq<string>, id: string, x: string)
    ensures x in Toggle(Toggle(selected, id), id) <==> x in selected
  {
    var once := Toggle(selected, id);
    var twice := Toggle(once, id);
    if id in selected {
      assert twice == once + [id];
      if x in selected && x != id {
        var k :| 0 <= k < |selected| && selected[k] == x;
      }
      if x in twice && x != id {
        var k :| 0 <= k < |once| && once[k] == x;
      }
    } else {
      assert once == selected + [id];
      assert id in once by {
        assert once[|selected|] == id;
      }
      if x in selected {
        var k :| 0 <= k < |selected| && selected[k] == x;
        assert once[k] == x;
      }
      if x in twice {
        var k :| 0 <= k < |twice| && twice[k] == x;
        var j :| 0 <= j < |once| && once[j] == x;
        assert j < |selected|;
      }
    }
  }

  /** The ids of the records, in order. */
  function Ids(records: seq<WeldingRecord>): (ids: seq<string>)
    ensures |ids| == |records|
    ensures forall k :: 0 <= k < |records| ==> ids[k] == records[k].id
  {
    seq(|records|, k requires 0 <= k < |records| => records[k].id)
  }

  /**
   * `handleSelectAll`: clears the selection when it has as many entries as
   * there are shown records, and otherwise selects every shown record. Only
   * the lengths are compared.
   */
  function SelectAll(selected: seq<string>, shown: seq<WeldingRecord>): (r: seq<string>)
    ensures |selected| == |shown| ==> r == []
    ensures |selected| != |shown| ==> r == Ids(shown)
  {
    if |selected| == |shown| then [] else Ids(shown)
  }

  /** Pressing select-all on a partial selection and again clears it. */
  lemma SelectAllTwice(selected: seq<string>, shown: seq<WeldingRecord>)
    requires |selected| != |shown|
    ensures SelectAll(SelectAll(selected, shown), shown) == []
  {
  }

  /**
   * Only lengths are compared: a selection as long as the shown list is
   * cleared even when some shown record is not in it.
   */
  lemma SelectAllComparesLengthOnly(selected: seq<string>, shown: seq<WeldingRecord>, k: int)
    requires |selected| == |shown| && 0 <= k < |shown| && shown[k].id !in selected
    ensures SelectAll(selected, shown) == [] && shown[k].id !in SelectAll(selected, shown)
  {
  }

  /** The CSV header. */
  const CsvHeader := ["ID", "Timestamp", "Min Voltage (V)", "Max Voltage (V)", "Avg Voltage (V)", "Duration", "Operator"]

  /** One CSV row; the timestamp and number printers are parameters. */
  function CsvFields(rec: WeldingRecord, formatTime: int -> string, showNumber: real -> string): (fs: seq<string>)
    ensures |fs| == |CsvHeader|
    ensures fs[0] == rec.id && fs[5] == rec.duration && fs[6] == rec.operator
  {
    [rec.id, formatTime(rec.timestamp), showNumber(rec.minVoltage), showNumber(rec.maxVoltage),
     showNumber(rec.avgVoltage), rec.duration, rec.operator]
  }

  /** The shown records whose id is selected, in shown order. */
  function Exported(shown: seq<WeldingRecord>, selected: seq<string>): (r: seq<WeldingRecord>)
    ensures forall k :: 0 <= k < |r| ==> r[k] in shown && r[k].id in selected
    ensures forall k :: 0 <= k < |shown| && shown[k].id in selected ==> shown[k] in r
  {
    Query.Where(shown, (rec: WeldingRecord) => rec.id in selected)
  }

  /** The export keeps the shown records' order. */
  lemma ExportedKeepsOrder(shown: seq<WeldingRecord>, selected: seq<string>,
                           before: (WeldingRecord, WeldingRecord) -> bool)
    requires Query.Chained(shown, before)
    ensures Query.Chained(Exported(shown, selected), before)
  {
    Query.WhereKeepsOrder(shown, (rec: WeldingRecord) => rec.id in selected, before);
  }

  function CsvRows(records: seq<WeldingRecord>, formatTime: int -> string, showNumber: real -> string): (rows: seq<seq<string>>)
    ensures |rows| == |records|
    ensures forall k :: 0 <= k < |records| ==> rows[k] == CsvFields(records[k], formatTime, showNumber)
  {
    seq(|records|, k requires 0 <= k < |records| => CsvFields(records[k], formatTime, showNumber))
  }

  /** Each row joined with ',', the rows joined with newlines. */
  function CsvText(rows: seq<seq<string>>): string {
    Text.Join(seq(|rows|, k requires 0 <= k < |rows| => Text.Join(rows[k], ',')), '\n')
  }

  /** `handleDownload`'s file content: the header, then one row per exported record. */
  function Csv(shown: seq<WeldingRecord>, selected: seq<string>, formatTime: int -> string,
               showNumber: real -> string): (r: string)
    ensures Text.Split(r, '\n')[0] == Text.Join(CsvHeader, ',')
    ensures Exported(shown, selected) == [] ==> r == Text.Join(CsvHeader, ',')
  {
    var rows := [CsvHeader] + CsvRows(Exported(shown, selected), formatTime, showNumber);
    FirstLineIsHeader(rows);
    CsvText(rows)
  }

  /** Whatever the records hold, the text up to the first newline is the header. */
  lemma FirstLineIsHeader(rows: seq<seq<string>>)
    requires |rows| >= 1 && rows[0] == CsvHeader
    ensures Text.Split(CsvText(rows), '\n')[0] == Text.Join(CsvHeader, ',')
    ensures |rows| == 1 ==> CsvText(rows) == Text.Join(CsvHeader, ',')
  {
    var lines := seq(|rows|, k requires 0 <= k < |rows| => Text.Join(rows[k], ','));
    assert lines[0] == Text.Join(CsvHeader, ',');
    HeaderClean();
    Text.JoinAvoids(CsvHeader, ',', '\n');
    if |lines| == 1 {
      Text.SplitNoSeparator(lines[0], '\n');
    } else {
      Text.SplitAfterPart(lines[0], '\n', Text.Join(lines[1..], '\n'));
    }
  }

  /** No field holds a separator. */
  predicate CleanFields(fs: seq<string>) {
    forall i :: 0 <= i < |fs| ==> ',' !in fs[i] && '\n' !in fs[i]
  }

  lemma HeaderClean()
    ensures CleanFields(CsvHeader)
  {
    forall i | 0 <= i < |CsvHeader|
      ensures ',' !in CsvHeader[i] && '\n' !in CsvHeader[i]
    {
      assert i == 0 || i == 1 || i == 2 || i == 3 || i == 4 || i == 5 || i == 6;
    }
  }

  /** With separator-free fields, the text splits back into exactly its rows and fields. */
  lemma {:induction false} CsvTextRoundTrip(rows: seq<seq<string>>)
    requires |rows| >= 1
    requires forall k :: 0 <= k < |rows| ==> |rows[k]| >= 1 && CleanFields(rows[k])
    ensures var lines := Text.Split(CsvText(rows), '\n');
            |lines| == |rows| && forall k :: 0 <= k < |rows| ==> Text.Split(lines[k], ',') == rows[k]
  {
    var lines := seq(|rows|, k requires 0 <= k < |rows| => Text.Join(rows[k], ','));
    forall k | 0 <= k < |lines|
      ensures '\n' !in lines[k]
    {
      Text.JoinAvoids(rows[k], ',', '\n');
    }
    Text.SplitJoin(lines, '\n');
    forall k | 0 <= k < |rows|
      ensures Text.Split(lines[k], ',') == rows[k]
    {
      Text.SplitJoin(rows[k], ',');
    }
  }

  /**
   * The export has one line more than there are exported records; the first
   * line is the header and line k + 1 holds the fields of the k-th exported
   * record, provided no field contains a comma or a newline.
   */
  lemma CsvRoundTrip(shown: seq<WeldingRecord>, selected: seq<string>, formatTime: int -> string,
                     showNumber: real -> string)
    requires var ex := Exported(shown, selected);
             forall k :: 0 <= k < |ex| ==> CleanFields(CsvFields(ex[k], formatTime, showNumber))
    ensures var ex := Exported(shown, selected);
            var lines := Text.Split(Csv(shown, selected, formatTime, showNumber), '\n');
            && |lines| == 1 + |ex|
            && Text.Split(lines[0], ',') == CsvHeader
            && forall k :: 0 <= k < |ex| ==> Text.Split(lines[k + 1], ',') == CsvFields(ex[k], formatTime, showNumber)
  {
    var ex := Exported(shown, selected);
    var rows := [CsvHeader] + CsvRows(ex, formatTime, showNumber);
    CsvRowsClean(ex, formatTime, showNumber);
    CsvTextRoundTrip(rows);
    assert Csv(shown, selected, formatTime, showNumber) == CsvText(rows);
  }

  /** The header and every row of clean records are non-empty and separator-free. */
  lemma CsvRowsClean(ex: seq<WeldingRecord>, formatTime: int -> string, showNumber: real -> string)
    requires forall k :: 0 <= k < |ex| ==> CleanFields(CsvFields(ex[k], formatTime, showNumber))
    ensures var rows := [CsvHeader] + CsvRows(ex, formatTime, showNumber);
            && |rows| == 1 + |ex| && rows[0] == CsvHeader
            && (forall k :: 0 <= k < |ex| ==> rows[k + 1] == CsvFields(ex[k], formatTime, showNumber))
            && (forall k :: 0 <= k < |rows| ==> |rows[k]| >= 1 && CleanFields(rows[k]))
  {
    var body := CsvRows(ex, formatTime, showNumber);
    var rows := [CsvHeader] + body;
    HeaderClean();
    forall k | 0 <= k < |ex|
      ensures rows[k + 1] == CsvFields(ex[k], formatTime, showNumber)
    {
      assert rows[k + 1] == body[k];
    }
  }
}
