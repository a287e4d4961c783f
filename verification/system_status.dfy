/**
 * The status badge (src/components/SystemStatus.tsx): its colour, text and
 * icon as functions of the on/off switch and the connection status string.
 * Each `switch` has a default branch, so every string is handled.
 */
module SystemStatus {
  import Dashboard

  datatype Icon = Wifi | WifiOff | AlertTriangle

  const Off := "System OFF"

  /** `getStatusColor`. */
  function Color(isSystemOn: bool, status: string): (r: string)
    ensures r == "bg-gray-500" <==> !isSystemOn || (status != "connected" && status != "disconnected" && status != "error")
    ensures r == "bg-red-500" <==> isSystemOn && status == "error"
  {
    if !isSystemOn then "bg-gray-500"
    else if status == "connected" then "bg-green-500"
    else if status == "disconnected" then "bg-yellow-500"
    else if status == "error" then "bg-red-500"
    else "bg-gray-500"
  }

  /** `getStatusText`. */
  function Text(isSystemOn: bool, status: string): (r: string)
    ensures r == Off <==> !isSystemOn
    ensures r == "Unknown" <==> isSystemOn && status != "connected" && status != "disconnected" && status != "error"
  {
    if !isSystemOn then Off
    else if status == "connected" then "Terhubung"
    else if status == "disconnected" then "Terputus"
    else if status == "error" then "Error"
    else "Unknown"
  }

  /** `getStatusIcon`. */
  function IconOf(isSystemOn: bool, status: string): (r: Icon)
    ensures r == Wifi <==> isSystemOn && status == "connected"
    ensures r == AlertTriangle <==> isSystemOn && status == "error"
  {
    if !isSystemOn then WifiOff
    else if status == "connected" then Wifi
    else if status == "disconnected" then WifiOff
    else if status == "error" then AlertTriangle
    else WifiOff
  }

  /** The three mappings, row by row; a switched-off system looks the same whatever the connection. */
  lemma StatusTable(status: string)
    ensures Color(false, status) == "bg-gray-500" && Text(false, status) == Off && IconOf(false, status) == WifiOff
    ensures Color(true, "connected") == "bg-green-500" && Text(true, "connected") == "Terhubung"
            && IconOf(true, "connected") == Wifi
    ensures Color(true, "disconnected") == "bg-yellow-500" && Text(true, "disconnected") == "Terputus"
            && IconOf(true, "disconnected") == WifiOff
    ensures Color(true, "error") == "bg-red-500" && Text(true, "error") == "Error"
            && IconOf(true, "error") == AlertTriangle
    ensures status != "connected" && status != "disconnected" && status != "error" ==>
              Color(true, status) == "bg-gray-500" && Text(true, status) == "Unknown" && IconOf(true, status) == WifiOff
  {
  }

  /**
   * The dashboard only ever passes one of its three status names, so the
   * default branches are never taken, and the text tells the four visible
   * situations apart: off, or on with one particular connection status.
   */
  lemma DashboardStatusesDistinct(on1: bool, s1: Dashboard.ConnectionStatus, on2: bool, s2: Dashboard.ConnectionStatus)
    ensures Text(on1, s1.Name()) != "Unknown"
    ensures Text(on1, s1.Name()) == Text(on2, s2.Name()) <==> (!on1 && !on2) || (on1 && on2 && s1 == s2)
  {
    assert Dashboard.ConnectionStatus.Connected.Name() != Dashboard.ConnectionStatus.Disconnected.Name();
    assert Dashboard.ConnectionStatus.Connected.Name() != Dashboard.ConnectionStatus.Error.Name();
    assert Dashboard.ConnectionStatus.Disconnected.Name() != Dashboard.ConnectionStatus.Error.Name();
  }
}
