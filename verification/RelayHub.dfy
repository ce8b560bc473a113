/**
 The relay hub (crates/kmsync-server/src/main.rs): which connection receives the
 frames for a device while connections come and go. Sending is two steps, finding
 the receiver under the lock and then handing it the frame, with anything in between.
 */
module Relay {
  import opened Bytes
  import opened ServerData
  import opened Wrappers

  datatype RouteError = TargetOffline | TargetReceiverClosed

  /**
   `queues` holds all that was ever handed to the channel of a connection; `closed` has the
   connections whose receiving end is gone.
   */
  datatype Hub = Hub(peers: map<Uuid, Uuid>, queues: map<Uuid, seq<Bytes>>, closed: set<Uuid>)

  const NO_PEERS := Hub(map[], map[], {})

  function Queue(hub: Hub, connection: Uuid): seq<Bytes> {
    if connection in hub.queues then hub.queues[connection] else []
  }

  function Registered(hub: Hub, device: Uuid, connection: Uuid): Hub {
    hub.(peers := hub.peers[device := connection], queues := hub.queues[connection := []])
  }

  function Unregistered(hub: Hub, device: Uuid, connection: Uuid): Hub {
    if Find(hub.peers, device) == Some(connection) then hub.(peers := hub.peers - {device}) else hub
  }

  function Pushed(hub: Hub, connection: Uuid, frame: Bytes): Hub {
    if connection in hub.closed then hub
    else hub.(queues := hub.queues[connection := Queue(hub, connection) + [frame]])
  }

  class RelayHub {
    var peers: map<Uuid, Uuid>
    var queues: map<Uuid, seq<Bytes>>
    var closed: set<Uuid>

    ghost function View(): Hub
      reads this
    {
      Hub(peers, queues, closed)
    }

    constructor ()
      ensures View() == NO_PEERS
    {
      peers, queues, closed := map[], map[], {};
    }

    method Register(device: Uuid, connection: Uuid)
      modifies this`peers, this`queues
      ensures View() == Registered(old(View()), device, connection)
    {
      queues := queues[connection := []];
      peers := peers[device := connection];
    }

    method UnregisterIfCurrent(device: Uuid, connection: Uuid)
      modifies this`peers
      ensures View() == Unregistered(old(View()), device, connection)
    {
      if device in peers && peers[device] == connection {
        peers := peers - {device};
      }
    }

    method DropReceiver(connection: Uuid)
      modifies this`closed
      ensures View() == old(View()).(closed := old(closed) + {connection})
    {
      closed := closed + {connection};
    }

    /** The first half of `send_frame`. */
    method FindReceiver(target: Uuid) returns (r: Result<Uuid, RouteError>)
      ensures r == if target in peers then Success(peers[target]) else Failure(TargetOffline)
    {
      if target in peers {
        return Success(peers[target]);
      }
      return Failure(TargetOffline);
    }

    /** The second half of `send_frame`. */
    method Push(connection: Uuid, frame: Bytes) returns (r: Result<(), RouteError>)
      modifies this`queues
      ensures View() == Pushed(old(View()), connection, frame)
      ensures r == if connection in closed then Failure(TargetReceiverClosed) else Success(())
    {
      if connection in closed {
        return Failure(TargetReceiverClosed);
      }
      var queue := if connection in queues then queues[connection] else [];
      queues := queues[connection := queue + [frame]];
      r := Success(());
    }

    method RxOnline(device: Uuid) returns (online: bool)
      ensures online == (device in peers)
    {
      online := device in peers;
    }
  }

  // ---- Interleavings ----

  /** `send` tells the sends in flight apart. */
  datatype Step =
    | Register(device: Uuid, connection: Uuid)
    | Unregister(device: Uuid, connection: Uuid)
    | Close(connection: Uuid)
    | Look(send: nat, target: Uuid)
    | Push(send: nat, frame: Bytes)

  /** `pending` holds the receivers found by sends that have not handed over their frame. */
  datatype Net = Net(hub: Hub, pending: map<nat, Uuid>)

  function Do(net: Net, step: Step): Net {
    match step
    case Register(device, connection) => net.(hub := Registered(net.hub, device, connection))
    case Unregister(device, connection) => net.(hub := Unregistered(net.hub, device, connection))
    case Close(connection) => net.(hub := net.hub.(closed := net.hub.closed + {connection}))
    case Look(send, target) =>
      if target in net.hub.peers then net.(pending := net.pending[send := net.hub.peers[target]])
      else net.(pending := net.pending - {send})
    case Push(send, frame) =>
      if send !in net.pending then net
      else Net(Pushed(net.hub, net.pending[send], frame), net.pending - {send})
  }

  function Run(trace: seq<Step>): Net {
    if trace == [] then Net(NO_PEERS, map[]) else Do(Run(trace[..|trace| - 1]), trace[|trace| - 1])
  }

  // ---- What the trace alone says ----

  /** At `i` the device registered this connection; it has since neither registered again nor unregistered it. */
  predicate RegisteredAt(trace: seq<Step>, i: nat, device: Uuid, connection: Uuid) {
    && i < |trace| && trace[i] == Register(device, connection)
    && forall j :: i < j < |trace| ==>
         !(trace[j].Register? && trace[j].device == device) && trace[j] != Unregister(device, connection)
  }

  ghost predicate IsCurrent(trace: seq<Step>, device: Uuid, connection: Uuid) {
    exists i: nat :: RegisteredAt(trace, i, device, connection)
  }

  predicate WasClosed(trace: seq<Step>, connection: Uuid) {
    Close(connection) in trace
  }

  /** At `i` the send found this connection, and it has since neither looked again nor pushed. */
  ghost predicate FoundAt(trace: seq<Step>, i: nat, send: nat, connection: Uuid) {
    && i < |trace| && trace[i].Look? && trace[i].send == send
    && IsCurrent(trace[..i], trace[i].target, connection)
    && forall j :: i < j < |trace| ==> !((trace[j].Look? || trace[j].Push?) && trace[j].send == send)
  }

  ghost predicate HasFound(trace: seq<Step>, send: nat, connection: Uuid) {
    exists i: nat :: FoundAt(trace, i, send, connection)
  }

  /** The frames pushed by sends that had found this connection while its receiver was there, in order. */
  ghost function Delivered(trace: seq<Step>, connection: Uuid): seq<Bytes> {
    if trace == [] then []
    else
      var before, last := trace[..|trace| - 1], trace[|trace| - 1];
      Delivered(before, connection)
      + if last.Push? && HasFound(before, last.send, connection) && !WasClosed(before, connection)
        then [last.frame] else []
  }

  /** Each connection registers at most once. */
  predicate HasDistinctConnections(trace: seq<Step>) {
    forall i, j :: 0 <= i < j < |trace| && trace[j].Register? ==>
      !(trace[i].Register? && trace[i].connection == trace[j].connection)
  }

  // ---- One step further ----

  lemma CurrentAfter(trace: seq<Step>, step: Step, device: Uuid, connection: Uuid)
    ensures IsCurrent(trace + [step], device, connection)
       <==> || step == Register(device, connection)
            || (&& IsCurrent(trace, device, connection) && step != Unregister(device, connection)
                && !(step.Register? && step.device == device))
  {
    var all := trace + [step];
    assert all[|trace|] == step && forall j :: 0 <= j < |trace| ==> all[j] == trace[j];
    if step == Register(device, connection) {
      assert RegisteredAt(all, |trace|, device, connection);
    } else if i: nat :| RegisteredAt(trace, i, device, connection) {
      if step != Unregister(device, connection) && !(step.Register? && step.device == device) {
        assert RegisteredAt(all, i, device, connection);
      }
    }
    if i: nat :| RegisteredAt(all, i, device, connection) {
      if i < |trace| {
        assert forall j :: i < j < |trace| ==>
            !(all[j].Register? && all[j].device == device) && all[j] != Unregister(device, connection);
        assert RegisteredAt(trace, i, device, connection);
      }
    }
  }

  lemma FoundAfter(trace: seq<Step>, step: Step, send: nat, connection: Uuid)
    ensures HasFound(trace + [step], send, connection)
       <==> || (step.Look? && step.send == send && IsCurrent(trace, step.target, connection))
            || (HasFound(trace, send, connection) && !((step.Look? || step.Push?) && step.send == send))
  {
    var all := trace + [step];
    hide IsCurrent;
    assert all[..|trace|] == trace;
    assert all[|trace|] == step && forall j :: 0 <= j < |trace| ==> all[j] == trace[j];
    forall i: nat | i < |trace| ensures all[..i] == trace[..i] {
    }
    if step.Look? && step.send == send && IsCurrent(trace, step.target, connection) {
      assert FoundAt(all, |trace|, send, connection);
    } else if i: nat :| FoundAt(trace, i, send, connection) {
      if !((step.Look? || step.Push?) && step.send == send) {
        assert FoundAt(all, i, send, connection);
      }
    }
    if i: nat :| FoundAt(all, i, send, connection) {
      if i < |trace| {
        assert forall j :: i < j < |trace| ==> !((all[j].Look? || all[j].Push?) && all[j].send == send);
        assert FoundAt(trace, i, send, connection);
      }
    }
  }

  // ---- The hub against the trace ----

  lemma RunAfter(trace: seq<Step>, step: Step)
    ensures Run(trace + [step]) == Do(Run(trace), step)
  {
    assert (trace + [step])[..|trace|] == trace;
  }

  /** In every interleaving a device is routed to its latest registered connection, unless that one has unregistered. */
  lemma {:induction false} RoutesToCurrent(trace: seq<Step>, device: Uuid, connection: Uuid)
    ensures Find(Run(trace).hub.peers, device) == Some(connection) <==> IsCurrent(trace, device, connection)
    decreases |trace|
  {
    hide IsCurrent;
    if trace == [] {
      assert !IsCurrent([], device, connection) by { NothingIsCurrent(device, connection); }
    } else {
      var before, step := trace[..|trace| - 1], trace[|trace| - 1];
      assert trace == before + [step];
      RoutesToCurrent(before, device, connection);
      CurrentAfter(before, step, device, connection);
      RunAfter(before, step);
      hide Run;
    }
  }

  lemma NothingIsCurrent(device: Uuid, connection: Uuid)
    ensures !IsCurrent([], device, connection)
  {
  }

  lemma RxOnlineExactly(trace: seq<Step>, device: Uuid)
    ensures device in Run(trace).hub.peers <==> exists c :: IsCurrent(trace, device, c)
  {
    hide IsCurrent, Run;
    forall c ensures Find(Run(trace).hub.peers, device) == Some(c) <==> IsCurrent(trace, device, c) {
      RoutesToCurrent(trace, device, c);
    }
    if device in Run(trace).hub.peers {
      assert IsCurrent(trace, device, Run(trace).hub.peers[device]);
    }
  }

  /** A connection that is not the current one, as it was replaced or only sends, closes without effect. */
  lemma LateCloseIsHarmless(trace: seq<Step>, device: Uuid, connection: Uuid, other: Uuid)
    requires IsCurrent(trace, device, connection) && other != connection
    ensures IsCurrent(trace + [Unregister(device, other)], device, connection)
    ensures Run(trace + [Unregister(device, other)]).hub == Run(trace).hub
  {
    hide IsCurrent, Run;
    CurrentAfter(trace, Unregister(device, other), device, connection);
    RoutesToCurrent(trace, device, connection);
    RunAfter(trace, Unregister(device, other));
  }

  lemma {:induction false} PendingHasFound(trace: seq<Step>, send: nat, connection: Uuid)
    ensures Find(Run(trace).pending, send) == Some(connection) <==> HasFound(trace, send, connection)
    decreases |trace|
  {
    if trace != [] {
      hide HasFound, IsCurrent;
      var before, step := trace[..|trace| - 1], trace[|trace| - 1];
      assert trace == before + [step];
      PendingHasFound(before, send, connection);
      FoundAfter(before, step, send, connection);
      if step.Look? {
        RoutesToCurrent(before, step.target, connection);
      }
      RunAfter(before, step);
      hide Run;
    }
  }

  lemma {:induction false} ClosedIsClosed(trace: seq<Step>, connection: Uuid)
    ensures connection in Run(trace).hub.closed <==> WasClosed(trace, connection)
    decreases |trace|
  {
    if trace != [] {
      var before, step := trace[..|trace| - 1], trace[|trace| - 1];
      assert trace == before + [step];
      ClosedIsClosed(before, connection);
      RunAfter(before, step);
      hide Run;
    }
  }

  predicate HasRegistered(trace: seq<Step>, connection: Uuid) {
    exists step <- trace :: step.Register? && step.connection == connection
  }

  lemma CurrentHasRegistered(trace: seq<Step>, device: Uuid, connection: Uuid)
    requires IsCurrent(trace, device, connection)
    ensures HasRegistered(trace, connection)
  {
  }

  lemma FoundHasRegistered(trace: seq<Step>, send: nat, connection: Uuid)
    requires HasFound(trace, send, connection)
    ensures HasRegistered(trace, connection)
  {
    var i: nat :| FoundAt(trace, i, send, connection);
    CurrentHasRegistered(trace[..i], trace[i].target, connection);
  }

  lemma {:induction false} NothingBeforeRegistration(trace: seq<Step>, connection: Uuid)
    requires !HasRegistered(trace, connection)
    ensures Delivered(trace, connection) == []
    decreases |trace|
  {
    hide HasFound;
    if trace != [] {
      var before, step := trace[..|trace| - 1], trace[|trace| - 1];
      assert trace == before + [step];
      NothingBeforeRegistration(before, connection);
      if step.Push? && HasFound(before, step.send, connection) {
        FoundHasRegistered(before, step.send, connection);
      }
    }
  }

  /**
   Every queue holds exactly the frames that its connection was current for when they were looked up,
   each once and in the order of their hand-over.
   */
  lemma {:induction false} QueuesHoldTheDelivered(trace: seq<Step>, connection: Uuid)
    requires HasDistinctConnections(trace)
    ensures Queue(Run(trace).hub, connection) == Delivered(trace, connection)
    decreases |trace|
  {
    hide HasFound, WasClosed;
    if trace != [] {
      var before, step := trace[..|trace| - 1], trace[|trace| - 1];
      assert trace == before + [step];
      QueuesHoldTheDelivered(before, connection);
      RunAfter(before, step);
      if step.Push? {
        PendingHasFound(before, step.send, connection);
        ClosedIsClosed(before, connection);
      } else if step.Register? && step.connection == connection {
        NothingBeforeRegistration(before, connection);
      }
      hide Run;
    }
  }

  /** A frame that is handed over reaches the one queue found for it, and its send is over. */
  lemma PushReachesOneQueue(trace: seq<Step>, send: nat, frame: Bytes, connection: Uuid, other: Uuid)
    requires HasFound(trace, send, connection) && other != connection
    ensures var before, after := Run(trace), Run(trace + [Push(send, frame)]);
            && Queue(after.hub, connection)
            == Queue(before.hub, connection) + (if WasClosed(trace, connection) then [] else [frame])
            && Queue(after.hub, other) == Queue(before.hub, other)
            && after.hub.peers == before.hub.peers
            && send !in after.pending
  {
    hide HasFound, WasClosed, Run;
    PendingHasFound(trace, send, connection);
    ClosedIsClosed(trace, connection);
    RunAfter(trace, Push(send, frame));
  }
}
