/**
 * The arithmetic of the two gauges: the voltage gauge's clamp, fill fraction
 * and colour band (src/components/VoltageGauge.tsx) and the current gauge's
 * capped value and percentage (src/components/ui/CurrentGauge.tsx). A
 * division whose result JavaScript would make NaN or infinite is None.
 * Drawing is not modelled.
 */
module VoltageGauge {
  import opened Wrappers

  const DefaultMin := 0.0
  const DefaultMax := 250.0

  /** `Math.min(Math.max(v, lo), hi)`. */
  function Clamp(v: real, lo: real, hi: real): (r: real)
    ensures r <= hi
    ensures lo <= hi ==> lo <= r
    ensures lo <= v <= hi ==> r == v
    ensures lo <= hi && v <= lo ==> r == lo
    ensures v >= hi ==> r == hi
  {
    var up := if v > lo then v else lo;
    if up < hi then up else hi
  }

  /** `(clamped - lo) / (hi - lo)`; None where the division is 0/0 (lo == hi). */
  function Fraction(v: real, lo: real, hi: real): (p: Option<real>)
    ensures p.None? <==> lo == hi
    ensures lo < hi ==> p.Some? && 0.0 <= p.value <= 1.0
    ensures lo < hi && v <= lo ==> p == Some(0.0)
    ensures lo < hi && v >= hi ==> p == Some(1.0)
    ensures lo > hi ==> p == Some(1.0)
  {
    if lo == hi then None
    else
      var c := Clamp(v, lo, hi);
      assert lo < hi ==> 0.0 <= (c - lo) / (hi - lo) <= 1.0 && (c == lo ==> (c - lo) / (hi - lo) == 0.0)
                         && (c == hi ==> (c - lo) / (hi - lo) == 1.0) by {
        if lo < hi {
          UnitRatio(c - lo, hi - lo);
        }
      }
      assert lo > hi ==> (c - lo) / (hi - lo) == 1.0 by {
        if lo > hi {
          assert c == hi;
        }
      }
      Some((c - lo) / (hi - lo))
  }

  lemma UnitRatio(a: real, d: real)
    requires d > 0.0 && 0.0 <= a <= d
    ensures 0.0 <= a / d <= 1.0
    ensures a == 0.0 ==> a / d == 0.0
    ensures a == d ==> a / d == 1.0
  {
    assert a / d * d == a;
  }

  /** The arc colour: emerald, blue, amber, red by increasing severity. */
  datatype Band = Emerald | Blue | Amber | Red {
    function Severity(): nat {
      match this
      case Emerald => 0
      case Blue => 1
      case Amber => 2
      case Red => 3
    }
  }

  /** The if/else-if chain on the fraction; NaN passes no comparison and gives emerald. */
  function BandOf(p: Option<real>): (b: Band)
    ensures b == Red <==> p.Some? && p.value > 0.8
    ensures b == Amber <==> p.Some? && 0.6 < p.value <= 0.8
    ensures b == Blue <==> p.Some? && 0.4 < p.value <= 0.6
    ensures b == Emerald <==> p.None? || p.value <= 0.4
  {
    if p.None? then Emerald
    else if p.value > 0.8 then Red
    else if p.value > 0.6 then Amber
    else if p.value > 0.4 then Blue
    else Emerald
  }

  /** A higher fraction never gives a less severe colour. */
  lemma BandMonotone(p: real, q: real)
    requires p <= q
    ensures BandOf(Some(p)).Severity() <= BandOf(Some(q)).Severity()
  {
  }

  /** Raising the voltage never lowers the fill fraction. */
  lemma FractionMonotone(v: real, w: real, lo: real, hi: real)
    requires v <= w && lo < hi
    ensures Fraction(v, lo, hi).value <= Fraction(w, lo, hi).value
  {
    var a, b := Clamp(v, lo, hi) - lo, Clamp(w, lo, hi) - lo;
    assert a <= b;
    DivideMonotone(a, b, hi - lo);
  }

  lemma DivideMonotone(a: real, b: real, d: real)
    requires a <= b && d > 0.0
    ensures a / d <= b / d
  {
    assert b / d - a / d == (b - a) / d;
  }

  /** The gauge's fraction with its props: `minVoltage` and `maxVoltage` default to 0 and 250. */
  function GaugeFraction(voltage: real, minVoltage: Option<real>, maxVoltage: Option<real>): Option<real> {
    Fraction(voltage, minVoltage.GetOr(DefaultMin), maxVoltage.GetOr(DefaultMax))
  }

  /** On the default 0..250 scale the bands switch at 100, 150 and 200 volts. */
  lemma DefaultScaleBands(v: real)
    ensures var b := BandOf(GaugeFraction(v, None, None));
            && (b == Red <==> v > 200.0)
            && (b == Amber <==> 150.0 < v <= 200.0)
            && (b == Blue <==> 100.0 < v <= 150.0)
            && (b == Emerald <==> v <= 100.0)
  {
    var c := Clamp(v, 0.0, 250.0);
    assert GaugeFraction(v, None, None) == Some(c / 250.0);
    assert c > 200.0 <==> v > 200.0;
  }
}

module CurrentGauge {
  import opened Wrappers

  const DefaultMaxCurrent := 30.0

  /** `Math.min(current, maxCurrent)`: capped above, not below. */
  function Value(current: real, maxCurrent: real): (r: real)
    ensures r <= maxCurrent && r <= current
    ensures r == current || r == maxCurrent
  {
    if current < maxCurrent then current else maxCurrent
  }

  /** `(value / maxCurrent) * 100`; None where JavaScript divides by zero. */
  function Percentage(current: real, maxCurrent: real): (p: Option<real>)
    ensures p.None? <==> maxCurrent == 0.0
    ensures maxCurrent > 0.0 ==> p.Some? && p.value <= 100.0
    ensures maxCurrent > 0.0 && current >= maxCurrent ==> p == Some(100.0)
    ensures maxCurrent > 0.0 && current < 0.0 ==> p.Some? && p.value < 0.0
  {
    if maxCurrent == 0.0 then None
    else
      var v := Value(current, maxCurrent);
      assert maxCurrent > 0.0 ==> v / maxCurrent * 100.0 <= 100.0 by {
        if maxCurrent > 0.0 {
          Scale(v, maxCurrent);
        }
      }
      assert maxCurrent > 0.0 && current < 0.0 ==> v / maxCurrent * 100.0 < 0.0 by {
        if maxCurrent > 0.0 {
          Scale(v, maxCurrent);
        }
      }
      assert maxCurrent > 0.0 && current >= maxCurrent ==> v / maxCurrent * 100.0 == 100.0 by {
        if maxCurrent > 0.0 && current >= maxCurrent {
          Scale(v, maxCurrent);
        }
      }
      Some(v / maxCurrent * 100.0)
  }

  lemma Scale(v: real, m: real)
    requires m > 0.0 && v <= m
    ensures v / m * 100.0 <= 100.0
    ensures v == m ==> v / m * 100.0 == 100.0
    ensures v < 0.0 ==> v / m * 100.0 < 0.0
  {
    assert v / m <= 1.0;
  }

  /** For a positive maximum the percentage never decreases as the current grows. */
  lemma PercentageMonotone(a: real, b: real, maxCurrent: real)
    requires a <= b && maxCurrent > 0.0
    ensures Percentage(a, maxCurrent).value <= Percentage(b, maxCurrent).value
  {
    var va, vb := Value(a, maxCurrent), Value(b, maxCurrent);
    assert va <= vb;
    assert vb / maxCurrent - va / maxCurrent == (vb - va) / maxCurrent;
  }

  /** With the default maximum of 30, the percentage is the current over 30, capped at 100. */
  lemma DefaultScale(current: real)
    ensures var p := Percentage(current, DefaultMaxCurrent);
            p.Some? && (current <= 30.0 ==> p.value == current / 30.0 * 100.0)
            && (current >= 30.0 ==> p.value == 100.0)
  {
  }
}
