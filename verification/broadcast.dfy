/**
 * `broadcastData` in backend/server.js: the WebSocket server's client set,
 * each client tagged with its `readyState`, and the fan-out that sends an
 * event to every client whose state is OPEN and skips the others.
 * Sending itself (serialisation, the socket write) is not modelled: a
 * delivery records which client the event was handed to.
 */
module Broadcast {

  datatype ReadyState = Connecting | Open | Closing | Closed

  /** A connected WebSocket, identified by a handle. */
  datatype Client = Client(handle: nat, state: ReadyState)

  datatype Delivery<E> = Delivery(handle: nat, event: E)

  /** The number of OPEN clients. */
  function OpenCount(clients: seq<Client>): nat
    decreases |clients|
  {
    if |clients| == 0 then 0
    else (if clients[0].state == Open then 1 else 0) + OpenCount(clients[1..])
  }

  /** The handles of a client set are pairwise different (it is a JavaScript `Set`). */
  ghost predicate DistinctHandles(clients: seq<Client>) {
    forall i, j :: 0 <= i < j < |clients| ==> clients[i].handle != clients[j].handle
  }

  /** `wss.clients.forEach(c => if c.readyState === OPEN then c.send(e))`, in iteration order. */
  function Fanout<E>(clients: seq<Client>, event: E): (out: seq<Delivery<E>>)
    ensures |out| == OpenCount(clients)
    ensures forall k :: 0 <= k < |out| ==> out[k].event == event
    decreases |clients|
  {
    if |clients| == 0 then []
    else
      var head := if clients[0].state == Open then [Delivery(clients[0].handle, event)] else [];
      head + Fanout(clients[1..], event)
  }

  /** Every delivery goes to an OPEN client of the set. */
  lemma {:induction false} FanoutOnlyOpen<E>(clients: seq<Client>, event: E, d: Delivery<E>)
    requires d in Fanout(clients, event)
    ensures d.event == event
    ensures exists i :: 0 <= i < |clients| && clients[i].handle == d.handle && clients[i].state == Open
    decreases |clients|
  {
    var head := if clients[0].state == Open then [Delivery(clients[0].handle, event)] else [];
    if d in head {
      assert clients[0].handle == d.handle;
    } else {
      assert d in Fanout(clients[1..], event);
      FanoutOnlyOpen(clients[1..], event, d);
      var i :| 0 <= i < |clients[1..]| && clients[1..][i].handle == d.handle && clients[1..][i].state == Open;
      assert clients[i + 1] == clients[1..][i];
    }
  }

  /** Every OPEN client of the set is sent the event. */
  lemma {:induction false} FanoutReachesOpen<E>(clients: seq<Client>, event: E, i: int)
    requires 0 <= i < |clients| && clients[i].state == Open
    ensures Delivery(clients[i].handle, event) in Fanout(clients, event)
    decreases |clients|
  {
    if i > 0 {
      assert clients[1..][i - 1] == clients[i];
      FanoutReachesOpen(clients[1..], event, i - 1);
    }
  }

  /** With distinct handles, a client is sent the event iff it is OPEN. */
  lemma FanoutExactlyOpen<E>(clients: seq<Client>, event: E, i: int)
    requires DistinctHandles(clients) && 0 <= i < |clients|
    ensures Delivery(clients[i].handle, event) in Fanout(clients, event) <==> clients[i].state == Open
  {
    var d := Delivery(clients[i].handle, event);
    if d in Fanout(clients, event) {
      FanoutOnlyOpen(clients, event, d);
      var j :| 0 <= j < |clients| && clients[j].handle == d.handle && clients[j].state == Open;
      assert j == i;
    }
    if clients[i].state == Open {
      FanoutReachesOpen(clients, event, i);
    }
  }

  /** A client set with no OPEN client receives nothing. */
  lemma {:induction false} FanoutNoneOpen<E>(clients: seq<Client>, event: E)
    requires forall i :: 0 <= i < |clients| ==> clients[i].state != Open
    ensures Fanout(clients, event) == []
    decreases |clients|
  {
    if |clients| > 0 {
      FanoutNoneOpen(clients[1..], event);
    }
  }
}
