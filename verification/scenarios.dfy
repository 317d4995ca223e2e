/**
 * Runs of the reactor and the handle, driven the way the event loop and the
 * application loop drive them, with what each run is guaranteed to observe.
 * Each scenario builds a fresh `ServerHandle` and plays the events itself.
 */
module Scenarios {

  import opened Wrappers
  import opened Message
  import opened Server

  /** A fresh handle whose reactor has made its first connect attempt and
      succeeded: connected, with no command waiting, nothing queued and
      nothing sent. */
  method ConnectedHandle() returns (handle: ServerHandle)
    ensures fresh(handle) && fresh(handle.reactor) && fresh(handle.txMessage) && fresh(handle.rxMessage)
    ensures handle.Valid() && handle.txMessage.queue == [] && handle.reactor.state.Connected?
    ensures handle.reactor.udpMessages == [] && handle.reactor.udpSent == [] && !handle.reactor.writeInterest
  {
    handle := new ServerHandle();
    handle.reactor.Timeout(true);
  }

  /** Two `send_udp` calls on a connected handle, each command then
      delivered to the reactor: the stack holds both encodings, the first
      sent at the bottom, and write interest is on. */
  method TwoCommandsDelivered(a: DsMessage, b: DsMessage) returns (handle: ServerHandle)
    ensures fresh(handle.reactor) && fresh(handle.rxMessage) && handle.Valid()
    ensures handle.reactor.state.Connected? && handle.reactor.udpSent == []
    ensures handle.reactor.udpMessages == [Encoding(a), Encoding(b)] && handle.reactor.writeInterest
  {
    handle := ConnectedHandle();
    handle.SendUdp(a);
    handle.SendUdp(b);
    assert handle.txMessage.queue == [(Udp, a), (Udp, b)];
    handle.Deliver();
    assert handle.txMessage.queue == [(Udp, b)];
    handle.Deliver();
  }

  /** Two `send_udp` calls, each delivered, followed by two writable events:
      the datagrams go out newest first (the stack is drained
      last-in-first-out), both to the robot's telemetry address, and write
      interest is dropped at the end. */
  method LifoDrain(a: DsMessage, b: DsMessage) returns (sent: seq<Datagram>, interest: bool)
    ensures sent == [Datagram(Encoding(b), RobotTelemetry), Datagram(Encoding(a), RobotTelemetry)]
    ensures !interest
  {
    var handle := TwoCommandsDelivered(a, b);
    var server := handle.reactor;
    server.Ready(UDP, false, true, WouldBlock, true);
    server.Ready(UDP, false, true, WouldBlock, true);
    sent, interest := server.udpSent, server.writeInterest;
  }

  /** A sample for the left hand, sent and drained once: one 82-byte datagram
      with tag 0, the sample's fields and the hand byte 0. */
  method LeftSampleOnTheWire(sample: ControllerData) returns (sent: seq<Datagram>)
    ensures |sent| == 1 && sent[0].to == RobotTelemetry
    ensures |sent[0].payload| == 82 && sent[0].payload[0] == 0 && sent[0].payload[81] == 0
    ensures forall k :: 0 <= k < FieldCount ==>
      FromBE8(sent[0].payload[1 + 8 * k .. 9 + 8 * k]) == Fields(sample)[k]
  {
    var handle := new ServerHandle();
    var server := handle.reactor;
    server.Timeout(true);
    server.Notify(Udp, Sixense(sample, Left));
    server.Ready(UDP, false, true, WouldBlock, true);
    sent := server.udpSent;
    EncodingLayout(Sixense(sample, Left));
    forall k | 0 <= k < FieldCount
      ensures FromBE8(sent[0].payload[1 + 8 * k .. 9 + 8 * k]) == Fields(sample)[k]
    {
      FieldSlice(Sixense(sample, Left), k);
    }
  }

  /** Two inbound gyro readings (the second with a trailing byte, on an event
      that is also writable): `recv` returns them in arrival order, then
      nothing. */
  method InboundFifo(w1: F64, w2: F64) returns (r1: Option<RobotMessage>, r2: Option<RobotMessage>, r3: Option<RobotMessage>)
    ensures r1 == Some(Gyro(w1)) && r2 == Some(Gyro(w2)) && r3 == None
  {
    var handle := new ServerHandle();
    var server := handle.reactor;
    var first, second := [0] + BE8(w1) + [], [0] + BE8(w2) + [7];
    ForwardedGyro(w1, [], RobotTelemetry);
    ForwardedGyro(w2, [7], RobotTelemetry);
    server.Ready(UDP, true, false, Received(first, RobotTelemetry), false);
    server.Ready(UDP, true, true, Received(second, RobotTelemetry), false);
    r1 := handle.Recv();
    r2 := handle.Recv();
    r3 := handle.Recv();
  }

  /** A datagram with an unknown tag is dropped, and a gyro reading that
      follows it is still received. */
  method UnknownTagDropped(w: F64) returns (r1: Option<RobotMessage>, r2: Option<RobotMessage>)
    ensures r1 == Some(Gyro(w)) && r2 == None
  {
    var handle := new ServerHandle();
    var server := handle.reactor;
    var bad, good := [5], [0] + BE8(w) + [];
    ForwardedUnknownTag(bad, RobotTelemetry);
    ForwardedGyro(w, [], RobotTelemetry);
    server.Ready(UDP, true, false, Received(bad, RobotTelemetry), false);
    server.Ready(UDP, true, false, Received(good, RobotTelemetry), false);
    r1 := handle.Recv();
    r2 := handle.Recv();
  }

  /** Timeouts while every connect fails: the state stays disconnected, each
      firing makes exactly one connect attempt, nothing is published and the
      handle keeps reporting disconnected. */
  method NeverConnecting(firings: nat) returns (state: ServerState, attempts: nat, connected: bool)
    ensures state == Disconnected && attempts == firings && !connected
  {
    var handle := new ServerHandle();
    var server := handle.reactor;
    var i := 0;
    while i < firings
      invariant 0 <= i <= firings
      invariant handle.Valid() && server == handle.reactor
      invariant fresh(server) && fresh(handle.rxConnected)
      invariant server.state == Disconnected && server.connectAttempts == i
      invariant server.pendingTimeouts == 1
      invariant handle.rxConnected.queue == [] && !handle.connected
    {
      server.Timeout(false);
      handle.Tick();
      i := i + 1;
    }
    state, attempts, connected := server.state, server.connectAttempts, handle.connected;
  }

  /** Timeouts with `failures` failed connects, one that succeeds and `later`
      more: exactly one more attempt than failures, the connected state is
      never left again, exactly one `true` is published, and the handle's
      flag becomes true on the next tick. */
  method RetryUntilConnected(failures: nat, later: nat)
    returns (attempts: nat, state: ServerState, published: seq<bool>, connected: bool)
    ensures attempts == failures + 1
    ensures state == Connected(TcpStream(RobotControl), RobotTelemetry)
    ensures published == [true] && connected
  {
    var handle := new ServerHandle();
    var server := handle.reactor;
    var i := 0;
    while i < failures
      invariant 0 <= i <= failures
      invariant handle.Valid() && server == handle.reactor
      invariant fresh(server) && fresh(handle.rxConnected)
      invariant server.state == Disconnected && server.connectAttempts == i
      invariant server.pendingTimeouts == 1 && handle.rxConnected.queue == []
    {
      server.Timeout(false);
      i := i + 1;
    }
    server.Timeout(true);
    var j := 0;
    while j < later
      invariant 0 <= j <= later
      invariant handle.Valid() && server == handle.reactor
      invariant fresh(server) && fresh(handle.rxConnected)
      invariant server.state == Connected(TcpStream(RobotControl), RobotTelemetry)
      invariant server.connectAttempts == failures + 1
      invariant server.pendingTimeouts == 1 && handle.rxConnected.queue == [true]
    {
      server.Timeout(true);
      j := j + 1;
    }
    attempts, state, published := server.connectAttempts, server.state, handle.rxConnected.queue;
    handle.Tick();
    connected := handle.connected;
  }
}
