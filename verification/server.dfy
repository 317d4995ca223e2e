/**
 * The network session layer of src/server.rs: the reactor's event handlers
 * (`Server`) and the application-side handle (`ServerHandle`).
 *
 * Sockets, the mio event loop and the reactor thread are abstracted away:
 * an event is a call of a handler with its token and readiness flags, the
 * outcome of a connect, a receive or a send is a parameter, a send is
 * recorded in the log `udpSent`, and the write interest registered for the
 * UDP socket is the boolean `writeInterest`. Each `std::sync::mpsc` channel
 * is a `Queue` object shared by its two ends.
 */
module Server {

  import opened Wrappers
  import opened Message

  /** The two tokens the reactor registers; any other token is a panic in the
      source, so it has no representation here. */
  datatype Token = TCP | UDP

  /** The transport a command from the application asks for. */
  datatype Channel = Tcp | Udp

  datatype SocketAddr = SocketAddr(ip: seq<nat>, port: nat)

  /** The robot's control (TCP) address, "10.36.36.21:1234". */
  const RobotControl: SocketAddr := SocketAddr([10, 36, 36, 21], 1234)
  /** The robot's telemetry (UDP) address, "10.36.36.21:1235". */
  const RobotTelemetry: SocketAddr := SocketAddr([10, 36, 36, 21], 1235)
  /** Size of the receive buffer of the readable handler. */
  const RecvBufferSize: nat := 64

  /** A connected TCP stream, known by its peer. */
  datatype TcpStream = TcpStream(peer: SocketAddr)

  datatype ServerState = Disconnected | Connected(tcp: TcpStream, hostUdp: SocketAddr)

  /** What `UdpSocket::recv_from` reports on a readable event: an I/O error,
      no datagram after all, or a datagram (of any length) from a sender. */
  datatype RecvResult = RecvError | WouldBlock | Received(payload: seq<Byte>, from: SocketAddr)

  /** A datagram handed to the UDP socket: its bytes and its destination. */
  datatype Datagram = Datagram(payload: seq<Byte>, to: SocketAddr)

  /** The bytes that land in the 64-byte receive buffer: a longer datagram is
      cut to the buffer's size. */
  function Truncated(payload: seq<Byte>): (r: seq<Byte>)
    ensures |r| == if |payload| <= RecvBufferSize then |payload| else RecvBufferSize
    ensures r == payload[..|r|]
  {
    if |payload| <= RecvBufferSize then payload else payload[..RecvBufferSize]
  }

  /** The messages a readable UDP event forwards to the application: the
      decoded datagram when it decodes, nothing otherwise. */
  function Forwarded(recv: RecvResult): (r: seq<RobotMessage>)
    ensures |r| <= 1
    ensures r != [] <==> recv.Received? && Decode(Truncated(recv.payload)).Some?
    ensures r != [] ==> r == [Decode(Truncated(recv.payload)).value]
  {
    match recv
    case Received(payload, _) =>
      (match Decode(Truncated(payload))
       case Some(msg) => [msg]
       case None => [])
    case _ => []
  }

  /** A received gyro datagram forwards exactly its reading, whatever trails
      it: one longer than the buffer is cut to 64 bytes, which still hold the
      tag and the word. */
  lemma ForwardedGyro(w: F64, rest: seq<Byte>, from: SocketAddr)
    ensures Forwarded(Received([0] + BE8(w) + rest, from)) == [Gyro(w)]
  {
    var p := [0] + BE8(w) + rest;
    var t := Truncated(p);
    assert |t| >= 9;
    assert t[..9] == p[..9];
    assert t[1..9] == BE8(w);
    FromBE8OfBE8(w);
  }

  /** A received datagram with an unknown tag forwards nothing. */
  lemma ForwardedUnknownTag(payload: seq<Byte>, from: SocketAddr)
    requires |payload| > 0 && payload[0] != 0
    ensures Forwarded(Received(payload, from)) == []
  {
    DecodeUnknownTag(Truncated(payload));
  }

  /** One `std::sync::mpsc` channel: the messages sent and not yet received, oldest first. */
  class Queue<T> {
    var queue: seq<T>

    constructor ()
      ensures queue == []
    {
      queue := [];
    }

    /** `Sender::send`: the receiver is never dropped, so the send always succeeds. */
    method Send(x: T)
      modifies this
      ensures queue == old(queue) + [x]
    {
      queue := queue + [x];
    }

    /** `Receiver::try_recv`: the oldest message, or `None` when there is none. */
    method TryRecv() returns (r: Option<T>)
      modifies this
      ensures old(queue) == [] ==> r == None && queue == []
      ensures old(queue) != [] ==> r == Some(old(queue)[0]) && queue == old(queue)[1..]
    {
      if queue == [] {
        r := None;
      } else {
        r := Some(queue[0]);
        queue := queue[1..];
      }
    }
  }

  /** The reactor: connection state, the stack of encoded datagrams waiting to
      be sent, and the event handlers that change them. */
  class Server {
    var state: ServerState
    /** `udp_messages`: encoded datagrams, the most recently pushed last. */
    var udpMessages: seq<seq<Byte>>
    /** Whether the UDP socket is registered for writable as well as readable. */
    var writeInterest: bool
    /** Whether the TCP stream is registered for readable events. */
    var tcpRegistered: bool
    /** Timeouts scheduled on the event loop and not yet fired. */
    var pendingTimeouts: nat
    /** Every datagram the UDP socket accepted for sending, in order. */
    var udpSent: seq<Datagram>
    /** Number of `TcpStream::connect` calls made. */
    var connectAttempts: nat
    /** Sending ends of the channels to the application. */
    const txMessage: Queue<RobotMessage>
    const txConnected: Queue<bool>

    /** The reactor's invariant: write interest is registered exactly while
        datagrams wait to be sent, every waiting datagram has the shape of
        an encoded message (82 bytes, tag 0, a hand byte of 0 or 1), and a connected state is the one the connect
        handler creates. */
    ghost predicate Valid()
      reads this
    {
      && (writeInterest <==> udpMessages != [])
      && (forall i :: 0 <= i < |udpMessages| ==>
            |udpMessages[i]| == EncodedLength && udpMessages[i][0] == 0 && udpMessages[i][81] <= 1)
      && (state.Connected? <==> tcpRegistered)
      && (state.Connected? ==> state == Connected(TcpStream(RobotControl), RobotTelemetry))
    }

    /** `Server::new`: disconnected, nothing queued, UDP registered for readable only. */
    constructor (txMessage: Queue<RobotMessage>, txConnected: Queue<bool>)
      ensures Valid()
      ensures state == Disconnected && udpMessages == [] && !writeInterest
      ensures !tcpRegistered && pendingTimeouts == 0 && udpSent == [] && connectAttempts == 0
      ensures this.txMessage == txMessage && this.txConnected == txConnected
    {
      state := Disconnected;
      udpMessages := [];
      writeInterest := false;
      tcpRegistered := false;
      pendingTimeouts := 0;
      udpSent := [];
      connectAttempts := 0;
      this.txMessage := txMessage;
      this.txConnected := txConnected;
    }

    /** `event_loop.timeout_ms((), 100)`: schedules one more timeout. */
    method ScheduleTimeout()
      requires Valid()
      modifies this
      ensures Valid()
      ensures pendingTimeouts == old(pendingTimeouts) + 1
      ensures state == old(state) && udpMessages == old(udpMessages)
      ensures writeInterest == old(writeInterest) && tcpRegistered == old(tcpRegistered)
      ensures udpSent == old(udpSent) && connectAttempts == old(connectAttempts)
    {
      pendingTimeouts := pendingTimeouts + 1;
    }

    /** `Handler::ready`. A TCP event does nothing. A readable UDP event
        receives one datagram and forwards what it decodes to; only when the
        event is not readable does a writable one pop the most recently
        pushed datagram and send it to the robot, dropping write interest once
        the stack is empty; while disconnected it does nothing. mio reports
        writable readiness only while write interest is registered. */
    method Ready(token: Token, readable: bool, writable: bool, recv: RecvResult, sendOk: bool)
      requires Valid()
      requires token == UDP && !readable && writable ==> writeInterest
      modifies this, txMessage
      ensures Valid()
      ensures state == old(state) && tcpRegistered == old(tcpRegistered)
      ensures pendingTimeouts == old(pendingTimeouts) && connectAttempts == old(connectAttempts)
      ensures token == UDP && readable ==> txMessage.queue == old(txMessage.queue) + Forwarded(recv)
      ensures !(token == UDP && readable) ==> txMessage.queue == old(txMessage.queue)
      ensures !(token == UDP && !readable && writable && old(state).Connected?) ==>
        udpMessages == old(udpMessages)
        && writeInterest == old(writeInterest) && udpSent == old(udpSent)
      ensures token == UDP && !readable && writable && old(state).Connected? ==>
        && old(udpMessages) != []
        && udpMessages == old(udpMessages)[..|old(udpMessages)| - 1]
        && udpSent == old(udpSent) +
             (if sendOk then [Datagram(old(udpMessages)[|old(udpMessages)| - 1], old(state).hostUdp)] else [])
        && (writeInterest <==> udpMessages != [])
    {
      match token
      case TCP =>
      case UDP =>
        if readable {
          ReceiveDatagram(recv);
        } else if writable {
          SendNewest(sendOk);
        }
    }

    /** The readable branch of `ready` for the UDP socket: what one
        `recv_from` into the 64-byte buffer yields is decoded and, when it
        decodes, sent to the application. */
    method ReceiveDatagram(recv: RecvResult)
      modifies txMessage
      ensures txMessage.queue == old(txMessage.queue) + Forwarded(recv)
    {
      match recv
      case Received(payload, _) =>
        var buffer := Truncated(payload);
        var msg := Decode(buffer);
        if msg.Some? {
          txMessage.Send(msg.value);
        }
      case _ =>
    }

    /** The writable branch of `ready` for the UDP socket: while connected,
        pops the most recently pushed datagram, hands it to the socket for the
        robot's telemetry address (it is gone whether or not the send
        succeeds), and drops write interest when the stack is now empty. */
    method SendNewest(sendOk: bool)
      requires Valid()
      requires writeInterest
      modifies this
      ensures Valid()
      ensures state == old(state) && tcpRegistered == old(tcpRegistered)
      ensures pendingTimeouts == old(pendingTimeouts) && connectAttempts == old(connectAttempts)
      ensures old(state).Disconnected? ==>
        udpMessages == old(udpMessages)
        && writeInterest == old(writeInterest) && udpSent == old(udpSent)
      ensures old(state).Connected? ==>
        && udpMessages == old(udpMessages)[..|old(udpMessages)| - 1]
        && udpSent == old(udpSent) +
             (if sendOk then [Datagram(old(udpMessages)[|old(udpMessages)| - 1], old(state).hostUdp)] else [])
        && (writeInterest <==> udpMessages != [])
    {
      match state
      case Disconnected =>
      case Connected(_, hostUdp) =>
        var datagram := udpMessages[|udpMessages| - 1];
        udpMessages := udpMessages[..|udpMessages| - 1];
        if sendOk {
          udpSent := udpSent + [Datagram(datagram, hostUdp)];
        }
        if |udpMessages| == 0 {
          writeInterest := false;
        }
    }

    /** `Handler::notify`. A UDP command pushes the message's encoding on top
        of the stack and registers write interest; a TCP command does nothing. */
    method Notify(channel: Channel, msg: DsMessage)
      requires Valid()
      modifies this
      ensures Valid()
      ensures state == old(state) && tcpRegistered == old(tcpRegistered)
      ensures pendingTimeouts == old(pendingTimeouts) && connectAttempts == old(connectAttempts)
      ensures udpSent == old(udpSent)
      ensures channel == Tcp ==>
        udpMessages == old(udpMessages) && writeInterest == old(writeInterest)
      ensures channel == Udp ==>
        udpMessages == old(udpMessages) + [Encoding(msg)] && writeInterest
    {
      match channel
      case Tcp =>
      case Udp =>
        var encoded := Encode(msg);
        EncodingFrame(msg);
        Push(encoded);
    }

    /** The UDP branch of `notify` once the message is encoded: registers
        write interest and pushes the datagram on top of the stack. */
    method Push(encoded: seq<Byte>)
      requires Valid()
      requires |encoded| == EncodedLength && encoded[0] == 0 && encoded[EncodedLength - 1] <= 1
      modifies this
      ensures Valid()
      ensures state == old(state) && tcpRegistered == old(tcpRegistered)
      ensures pendingTimeouts == old(pendingTimeouts) && connectAttempts == old(connectAttempts)
      ensures udpSent == old(udpSent)
      ensures udpMessages == old(udpMessages) + [encoded] && writeInterest
    {
      writeInterest := true;
      udpMessages := udpMessages + [encoded];
    }

    /** `Handler::timeout`: fires one scheduled timeout and schedules the next.
        While disconnected it tries to connect to the robot's control address;
        on success it registers the stream, becomes connected to the robot's
        telemetry address and publishes `true`; on failure nothing else
        changes. While connected it does nothing else. */
    method Timeout(connectOk: bool)
      requires Valid()
      requires pendingTimeouts > 0
      modifies this, txConnected
      ensures Valid()
      ensures pendingTimeouts == old(pendingTimeouts)
      ensures udpMessages == old(udpMessages)
      ensures writeInterest == old(writeInterest) && udpSent == old(udpSent)
      ensures old(state).Connected? ==>
        state == old(state) && connectAttempts == old(connectAttempts)
        && txConnected.queue == old(txConnected.queue)
      ensures old(state).Disconnected? ==> connectAttempts == old(connectAttempts) + 1
      ensures old(state).Disconnected? && connectOk ==>
        state == Connected(TcpStream(RobotControl), RobotTelemetry)
        && txConnected.queue == old(txConnected.queue) + [true]
      ensures old(state).Disconnected? && !connectOk ==>
        state == Disconnected && txConnected.queue == old(txConnected.queue)
    {
      pendingTimeouts := pendingTimeouts - 1;
      ScheduleTimeout();
      if state.Disconnected? {
        connectAttempts := connectAttempts + 1;
        if connectOk {
          var tcp := TcpStream(RobotControl);
          tcpRegistered := true;
          state := Connected(tcp, RobotTelemetry);
          txConnected.Send(true);
        }
      }
    }
  }

  /** The application's handle: the receiving ends of the inbound and
      connected-flag channels, the sending end of the command channel, and the
      cached connected flag. `reactor` is the server the event-loop thread runs;
      only that thread calls its handlers. */
  class ServerHandle {
    var connected: bool
    const rxMessage: Queue<RobotMessage>
    const rxConnected: Queue<bool>
    const txMessage: Queue<(Channel, DsMessage)>
    const reactor: Server

    ghost predicate Valid()
      reads this, reactor
    {
      reactor.txMessage == rxMessage && reactor.txConnected == rxConnected && reactor.Valid()
    }

    /** `ServerHandle::new`: fresh channels, a fresh disconnected server with
        its first timeout scheduled, and `connected` false. */
    constructor ()
      ensures Valid()
      ensures fresh(reactor) && fresh(rxMessage) && fresh(rxConnected) && fresh(txMessage)
      ensures !connected && rxMessage.queue == [] && rxConnected.queue == [] && txMessage.queue == []
      ensures reactor.state == Disconnected && reactor.udpMessages == [] && !reactor.writeInterest
      ensures reactor.pendingTimeouts == 1 && reactor.udpSent == [] && reactor.connectAttempts == 0
    {
      var inbound := new Queue<RobotMessage>();
      var flags := new Queue<bool>();
      var server := new Server(inbound, flags);
      rxMessage := inbound;
      rxConnected := flags;
      txMessage := new Queue<(Channel, DsMessage)>();
      reactor := server;
      connected := false;
      new;
      server.ScheduleTimeout();
    }

    /** `ServerHandle::send_udp`: queues a UDP command for the reactor. */
    method SendUdp(message: DsMessage)
      requires Valid()
      modifies txMessage
      ensures Valid()
      ensures txMessage.queue == old(txMessage.queue) + [(Udp, message)]
    {
      txMessage.Send((Udp, message));
    }

    /** The event loop's delivery of a queued command to `Handler::notify`:
        the oldest command, if there is one, is taken off the command channel
        and handled by the reactor; an empty channel changes nothing. */
    method Deliver()
      requires Valid()
      modifies txMessage, reactor
      ensures Valid()
      ensures reactor.state == old(reactor.state) && reactor.udpSent == old(reactor.udpSent)
      ensures reactor.pendingTimeouts == old(reactor.pendingTimeouts)
      ensures reactor.connectAttempts == old(reactor.connectAttempts)
      ensures old(txMessage.queue) == [] ==>
        txMessage.queue == [] && reactor.udpMessages == old(reactor.udpMessages)
        && reactor.writeInterest == old(reactor.writeInterest)
      ensures old(txMessage.queue) != [] ==> txMessage.queue == old(txMessage.queue)[1..]
      ensures old(txMessage.queue) != [] && old(txMessage.queue)[0].0 == Tcp ==>
        reactor.udpMessages == old(reactor.udpMessages) && reactor.writeInterest == old(reactor.writeInterest)
      ensures old(txMessage.queue) != [] && old(txMessage.queue)[0].0 == Udp ==>
        reactor.udpMessages == old(reactor.udpMessages) + [Encoding(old(txMessage.queue)[0].1)]
        && reactor.writeInterest
    {
      var command := txMessage.TryRecv();
      match command
      case None =>
      case Some((channel, msg)) =>
        reactor.Notify(channel, msg);
    }

    /** `ServerHandle::recv`: the oldest decoded message not yet received, if any. */
    method Recv() returns (r: Option<RobotMessage>)
      requires Valid()
      modifies rxMessage
      ensures Valid()
      ensures old(rxMessage.queue) == [] ==> r == None && rxMessage.queue == []
      ensures old(rxMessage.queue) != [] ==>
        r == Some(old(rxMessage.queue)[0]) && rxMessage.queue == old(rxMessage.queue)[1..]
    {
      r := rxMessage.TryRecv();
    }

    /** `ServerHandle::tick`: drains the connected-flag channel and keeps the
        last flag drained, or the old one when there was none. */
    method Tick()
      requires Valid()
      modifies this, rxConnected
      ensures Valid()
      ensures rxConnected.queue == []
      ensures old(rxConnected.queue) == [] ==> connected == old(connected)
      ensures old(rxConnected.queue) != [] ==>
        connected == old(rxConnected.queue)[|old(rxConnected.queue)| - 1]
    {
      ghost var flags := rxConnected.queue;
      ghost var drained: nat := 0;
      while true
        invariant Valid()
        invariant drained <= |flags| && rxConnected.queue == flags[drained..]
        invariant connected == if drained == 0 then old(connected) else flags[drained - 1]
        decreases |rxConnected.queue|
      {
        var r := rxConnected.TryRecv();
        match r
        case None =>
          break;
        case Some(flag) =>
          connected := flag;
          drained := drained + 1;
      }
    }
  }
}
