/**
 * The state logic of the dashboard page (src/pages/Dashboard.tsx): the
 * gauge's current voltage, the on/off switch, the WebSocket connection
 * status and the rolling chart buffer, driven by the events the page's
 * handlers react to. Rendering, the socket itself and `fetch` are not
 * modelled; the local clock time of an event is a parameter.
 */
module Dashboard {
  import opened Wrappers
  import Text
  import Aggregate
  import Broadcast
  import Store
  import Server

  /** The three values `connectionStatus` takes. */
  datatype ConnectionStatus = Connected | Disconnected | Error {
    function Name(): string {
      match this
      case Connected => "connected"
      case Disconnected => "disconnected"
      case Error => "error"
    }
  }

  /** A local wall-clock time, as `getHours()` and `getMinutes()` return it. */
  datatype ClockTime = ClockTime(hours: nat, minutes: nat)

  predicate ValidClock(t: ClockTime) {
    t.hours < 24 && t.minutes < 60
  }

  /** `${hours}:${minutes.toString().padStart(2, '0')}`. */
  function TimeLabel(t: ClockTime): (r: string)
    ensures ValidClock(t) ==> 4 <= |r| <= 5 && r[|r| - 3] == ':'
  {
    Text.NatToString(t.hours) + ":" + Text.Pad2(t.minutes)
  }

  lemma DigitsAvoid(s: string, c: char)
    requires Text.IsDigits(s) && !Text.IsDigit(c)
    ensures c !in s
  {
  }

  /**
   * A label splits at ':' into the hour, without padding, and the minute as
   * exactly two digits; both read back as the clock time they came from.
   */
  lemma TimeLabelRoundTrip(t: ClockTime)
    requires ValidClock(t)
    ensures var parts := Text.Split(TimeLabel(t), ':');
            && |parts| == 2
            && Text.IsDigits(parts[0]) && Text.IsDigits(parts[1])
            && |parts[1]| == 2
            && Text.DigitsValue(parts[0]) == t.hours
            && Text.DigitsValue(parts[1]) == t.minutes
  {
    var h, m := Text.NatToString(t.hours), Text.Pad2(t.minutes);
    Text.Pad2Exact(t.minutes);
    Text.NatToStringRoundTrip(t.hours);
    DigitsAvoid(h, ':');
    DigitsAvoid(m, ':');
    assert TimeLabel(t) == Text.Join([h, m], ':') by {
      assert Text.Join([m], ':') == m;
      assert [h, m][1..] == [m];
    }
    Text.SplitJoin([h, m], ':');
  }

  /** One point of the chart. */
  datatype ChartPoint = ChartPoint(time: string, voltage: real)

  /** The chart's initial and reset content is this one point. */
  const ZeroPoint := ChartPoint("00:00", 0.0)

  /** The chart keeps at most this many points. */
  const ChartCapacity := 10

  /** `s.slice(-n)` for n > 0: the last n elements, or all of them if there are fewer. */
  function Last<T>(s: seq<T>, n: nat): (r: seq<T>)
    ensures |r| == (if |s| < n then |s| else n)
    ensures forall k :: 0 <= k < |r| ==> r[k] == s[|s| - |r| + k]
  {
    if |s| <= n then s else s[|s| - n..]
  }

  /** `[...prev.slice(-9), point]`. */
  function AppendPoint(prev: seq<ChartPoint>, p: ChartPoint): (r: seq<ChartPoint>)
    ensures |r| == (if |prev| < ChartCapacity then |prev| + 1 else ChartCapacity)
    ensures r[|r| - 1] == p
    ensures forall k :: 0 <= k < |r| - 1 ==> r[k] == prev[|prev| - (|r| - 1) + k]
  {
    Last(prev, ChartCapacity - 1) + [p]
  }

  /** Appending one point keeps the last ten points of the buffer followed by it. */
  lemma AppendIsWindow(prev: seq<ChartPoint>, p: ChartPoint)
    ensures AppendPoint(prev, p) == Last(prev + [p], ChartCapacity)
  {
    var r, w := AppendPoint(prev, p), Last(prev + [p], ChartCapacity);
    assert |r| == |w|;
    forall k | 0 <= k < |r|
      ensures r[k] == w[k]
    {
      if k < |r| - 1 {
        assert r[k] == prev[|prev| - (|r| - 1) + k];
      }
    }
  }

  /** The last n of a long enough suffix of s are the last n of s. */
  lemma LastOfSuffix<T>(u: seq<T>, v: seq<T>, n: nat)
    requires |u| <= |v| && u == v[|v| - |u|..]
    requires |u| >= n || |u| == |v|
    ensures Last(u, n) == Last(v, n)
  {
    var m := if |u| < n then |u| else n;
    assert Last(u, n) == u[|u| - m..];
    assert Last(v, n) == v[|v| - m..];
    assert u[|u| - m..] == v[|v| - m..];
  }

  /** Trimming before appending more does not change the last n. */
  lemma LastThenAppend<T>(s: seq<T>, t: seq<T>, n: nat)
    ensures Last(Last(s, n) + t, n) == Last(s + t, n)
  {
    var m := if |s| < n then |s| else n;
    assert Last(s, n) == s[|s| - m..];
    assert s[|s| - m..] + t == (s + t)[|s| - m..];
    LastOfSuffix(Last(s, n) + t, s + t, n);
  }

  /** The buffer after a run of `voltage_update` points, one append per point in arrival order. */
  function AppendAll(chart: seq<ChartPoint>, ps: seq<ChartPoint>): seq<ChartPoint>
    decreases |ps|
  {
    if |ps| == 0 then chart else AppendPoint(AppendAll(chart, ps[..|ps| - 1]), ps[|ps| - 1])
  }

  /**
   * After at least one update the buffer is exactly the last ten points of
   * everything it has held, in arrival order: nothing is lost from the window
   * and nothing older survives.
   */
  lemma {:induction false} AppendAllIsWindow(chart: seq<ChartPoint>, ps: seq<ChartPoint>)
    requires |ps| > 0
    ensures AppendAll(chart, ps) == Last(chart + ps, ChartCapacity)
    decreases |ps|
  {
    var pre, p := ps[..|ps| - 1], ps[|ps| - 1];
    assert ps == pre + [p];
    if |pre| == 0 {
      AppendFirst(chart, p);
    } else {
      AppendAllIsWindow(chart, pre);
      AppendNext(chart, pre, p);
    }
  }

  lemma AppendFirst(chart: seq<ChartPoint>, p: ChartPoint)
    ensures AppendAll(chart, [p]) == Last(chart + [p], ChartCapacity)
  {
    assert [p][..0] == [];
    assert AppendAll(chart, [p]) == AppendPoint(chart, p);
    AppendIsWindow(chart, p);
  }

  lemma AppendNext(chart: seq<ChartPoint>, pre: seq<ChartPoint>, p: ChartPoint)
    requires AppendAll(chart, pre) == Last(chart + pre, ChartCapacity)
    ensures AppendAll(chart, pre + [p]) == Last(chart + (pre + [p]), ChartCapacity)
  {
    var x := AppendAll(chart, pre);
    AppendAllLast(chart, pre, p);
    AppendIsWindow(x, p);
    LastThenAppend(chart + pre, [p], ChartCapacity);
    assert chart + (pre + [p]) == (chart + pre) + [p];
  }

  lemma AppendAllLast(chart: seq<ChartPoint>, pre: seq<ChartPoint>, p: ChartPoint)
    ensures AppendAll(chart, pre + [p]) == AppendPoint(AppendAll(chart, pre), p)
  {
    assert (pre + [p])[..|pre|] == pre;
  }

  /** A message as the `onmessage` handler sees it: unparseable text, or an object with `type` and `voltage`. */
  datatype Message = Unparseable | Parsed(kind: string, voltage: real)

  const UpdateKind := "voltage_update"

  /** The message a client receives for a server-side `voltage_update` broadcast. */
  function Receive(u: Server.VoltageUpdate): (m: Message)
    ensures m.Parsed? && m.kind == UpdateKind && m.voltage == u.voltage
  {
    Parsed(UpdateKind, u.voltage)
  }

  /** A fetched reading: its voltage and the local clock time of its timestamp. */
  datatype Fetched = Fetched(voltage: real, at: ClockTime)

  /** `data.reverse().map(...)`: the newest-first rows as oldest-first chart points. */
  function ChartFromLatest(rows: seq<Fetched>): (r: seq<ChartPoint>)
    ensures |r| == |rows|
    ensures forall k :: 0 <= k < |rows| ==>
              r[k] == ChartPoint(TimeLabel(rows[|rows| - 1 - k].at), rows[|rows| - 1 - k].voltage)
    decreases |rows|
  {
    if |rows| == 0 then []
    else ChartFromLatest(rows[1..]) + [ChartPoint(TimeLabel(rows[0].at), rows[0].voltage)]
  }

  /** The page's state. */
  datatype State = State(currentVoltage: real, isSystemOn: bool, status: ConnectionStatus, chart: seq<ChartPoint>)

  const Initial := State(0.0, true, Disconnected, [ZeroPoint])

  /** What the page reacts to. A failed or non-OK fetch is `LatestFetched(None)`. */
  datatype Event =
    | SocketOpened
    | MessageReceived(msg: Message, at: ClockTime)
    | SocketClosed
    | SocketFailed
    | SystemToggled(isOn: bool)
    | LatestFetched(rows: Option<seq<Fetched>>)

  /**
   * One handler run. Only a parsed `voltage_update` message moves the gauge
   * and the chart (and marks the connection up); an unparseable message or a
   * socket error marks it failed; a close or switching the system off marks
   * it down, and switching off also resets the gauge and the chart. A
   * non-empty fetch shows the newest reading and charts the rows oldest first.
   */
  function Step(s: State, e: Event): (r: State)
    ensures e.SocketOpened? ==> r.status == Connected
    ensures e.SocketClosed? || e == SystemToggled(false) ==> r.status == Disconnected
    ensures e.SocketFailed? || (e.MessageReceived? && e.msg.Unparseable?) ==> r.status == Error
    ensures e.MessageReceived? && e.msg.Parsed? ==>
              if e.msg.kind == UpdateKind then
                && r.status == Connected && r.currentVoltage == e.msg.voltage
                && r.chart == AppendPoint(s.chart, ChartPoint(TimeLabel(e.at), e.msg.voltage))
              else r == s
    ensures e.LatestFetched? && e.rows.Some? && |e.rows.value| > 0 ==>
              r.currentVoltage == e.rows.value[0].voltage && r.chart == ChartFromLatest(e.rows.value)
    ensures r.chart != s.chart ==>
              (e.MessageReceived? && e.msg.Parsed? && e.msg.kind == UpdateKind) || e == SystemToggled(false)
              || e.LatestFetched?
    ensures r.currentVoltage != s.currentVoltage ==>
              (e.MessageReceived? && e.msg.Parsed? && e.msg.kind == UpdateKind) || e == SystemToggled(false)
              || e.LatestFetched?
    ensures e == SystemToggled(true) ==> r == s.(isSystemOn := true)
    ensures e == SystemToggled(false) ==> r.currentVoltage == 0.0 && r.chart == [ZeroPoint]
    ensures e.SystemToggled? ==> r.isSystemOn == e.isOn
    ensures !e.SystemToggled? ==> r.isSystemOn == s.isSystemOn
    ensures e.LatestFetched? ==> r.status == s.status
    ensures e.LatestFetched? && (e.rows.None? || |e.rows.value| == 0) ==> r == s
  {
    match e
    case SocketOpened => s.(status := Connected)
    case MessageReceived(Unparseable, _) => s.(status := Error)
    case MessageReceived(Parsed(kind, v), at) =>
      if kind == UpdateKind then
        s.(currentVoltage := v, chart := AppendPoint(s.chart, ChartPoint(TimeLabel(at), v)), status := Connected)
      else s
    case SocketClosed => s.(status := Disconnected)
    case SocketFailed => s.(status := Error)
    case SystemToggled(on) =>
      if on then s.(isSystemOn := true)
      else State(0.0, false, Disconnected, [ZeroPoint])
    case LatestFetched(None) => s
    case LatestFetched(Some(rows)) =>
      if |rows| == 0 then s
      else s.(currentVoltage := rows[0].voltage, chart := ChartFromLatest(rows))
  }

  /** The gauge shows the chart's newest point, and the chart is never empty. */
  predicate Consistent(s: State) {
    |s.chart| >= 1 && s.currentVoltage == s.chart[|s.chart| - 1].voltage
  }

  /** The chart holds at most ten points. */
  predicate Bounded(s: State) {
    |s.chart| <= ChartCapacity
  }

  /** A fetch that returns at most ten rows, as `?limit=10` guarantees. */
  predicate FitsChart(e: Event) {
    e.LatestFetched? && e.rows.Some? ==> |e.rows.value| <= ChartCapacity
  }

  lemma InitialConsistent()
    ensures Consistent(Initial) && Bounded(Initial)
  {
  }

  /** Every handler keeps the gauge and the chart consistent, and a fitting fetch keeps the chart bounded. */
  lemma StepPreserves(s: State, e: Event)
    requires Consistent(s)
    ensures Consistent(Step(s, e))
    ensures Bounded(s) && FitsChart(e) ==> Bounded(Step(s, e))
  {
    match e
    case LatestFetched(Some(rows)) =>
      if |rows| > 0 {
        var c := ChartFromLatest(rows);
        assert c[|c| - 1] == ChartPoint(TimeLabel(rows[0].at), rows[0].voltage);
      }
    case MessageReceived(Parsed(kind, v), at) =>
      if kind == UpdateKind {
        assert Step(s, e).chart == AppendPoint(s.chart, ChartPoint(TimeLabel(at), v));
      }
    case _ =>
  }

  /** A run of events from the initial state. */
  function Run(s: State, es: seq<Event>): State
    decreases |es|
  {
    if |es| == 0 then s else Run(Step(s, es[0]), es[1..])
  }

  /** Along any run, the chart is never empty and the gauge shows its newest point; with fitting fetches it never exceeds ten points. */
  lemma {:induction false} RunPreserves(s: State, es: seq<Event>)
    requires Consistent(s)
    ensures Consistent(Run(s, es))
    ensures Bounded(s) && (forall i :: 0 <= i < |es| ==> FitsChart(es[i])) ==> Bounded(Run(s, es))
    decreases |es|
  {
    if |es| > 0 {
      StepPreserves(s, es[0]);
      assert forall i :: 1 <= i < |es| ==> es[1..][i - 1] == es[i];
      RunPreserves(Step(s, es[0]), es[1..]);
    }
  }

  /** The dashboard's request `?limit=10` returns rows that fit the chart. */
  lemma LatestFitsChart(db: Store.Db)
    ensures var r := Server.Latest(db, None, Some(ChartCapacity), true);
            r.Ok? && |r.body| <= ChartCapacity
  {
  }

  /**
   * A successful ingest reaches every OPEN dashboard, and receiving it moves
   * that dashboard's gauge and newest chart point to the ingested voltage.
   */
  lemma IngestReachesDashboard(db: Store.Db, clients: seq<Broadcast.Client>, req: Server.VoltageRequest,
                               t1: int, t2: int, i: int, s: State, at: ClockTime)
    requires 0 <= i < |clients| && clients[i].state == Broadcast.Open
    requires Server.Ingest(db, clients, req, t1, t2, true).reply.Ok?
    ensures var o := Server.Ingest(db, clients, req, t1, t2, true);
            exists u :: Broadcast.Delivery(clients[i].handle, u) in o.sent &&
                        var s' := Step(s, MessageReceived(Receive(u), at));
                        && s'.currentVoltage == req.voltage.x
                        && s'.chart[|s'.chart| - 1].voltage == req.voltage.x
                        && s'.status == Connected
  {
    var u := Server.VoltageUpdate(req.deviceId.value, req.voltage.x, req.minVoltage, req.maxVoltage,
                                  req.avgVoltage, req.timestamp.GetOr(t2));
    Broadcast.FanoutReachesOpen(clients, u, i);
  }

  /** Max, min and mean over the chart, as the page derives them. */
  datatype Summary = Summary(maxVoltage: real, minVoltage: real, avgVoltage: real)

  function ChartVoltages(chart: seq<ChartPoint>): (vs: seq<real>)
    ensures |vs| == |chart|
    ensures forall k :: 0 <= k < |chart| ==> vs[k] == chart[k].voltage
    decreases |chart|
  {
    if |chart| == 0 then [] else [chart[0].voltage] + ChartVoltages(chart[1..])
  }

  /**
   * `Math.max`, `Math.min` and the reduce-sum average of the buffer; the
   * buffer is never empty (see `Consistent`), so all three are numbers.
   */
  function Summarize(chart: seq<ChartPoint>): (r: Summary)
    requires |chart| > 0
    ensures forall k :: 0 <= k < |chart| ==> r.minVoltage <= chart[k].voltage <= r.maxVoltage
    ensures exists k :: 0 <= k < |chart| && chart[k].voltage == r.minVoltage
    ensures exists k :: 0 <= k < |chart| && chart[k].voltage == r.maxVoltage
    ensures r.minVoltage <= r.avgVoltage <= r.maxVoltage
    ensures r.avgVoltage == Aggregate.Sum(ChartVoltages(chart)) / |chart| as real
  {
    var vs := ChartVoltages(chart);
    Aggregate.MeanBetween(vs);
    var i :| 0 <= i < |vs| && vs[i] == Aggregate.Min(vs);
    var j :| 0 <= j < |vs| && vs[j] == Aggregate.Max(vs);
    assert chart[i].voltage == Aggregate.Min(vs) && chart[j].voltage == Aggregate.Max(vs);
    Summary(Aggregate.Max(vs), Aggregate.Min(vs), Aggregate.Mean(vs))
  }
}
