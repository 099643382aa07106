/**
 PeerConnection: the object that owns the queues of the send pump, the state of the handshake and
 the message parser. Its methods are the blocks that run, one at a time, on the network thread.
 */
module PeerConnection {
  import opened Binary
  import opened BitcoinDecoding
  import opened Message
  import opened MessageParser
  import opened Payloads
  import Pumps = SendPump
  import Handshake

  /** What a parsed message means to the handshake. */
  function EventOf(parsers: Parsers, m: Message): Handshake.Event {
    match m.header.command
    case Version => Handshake.VersionReceived(parsers.parseVersion(m.payload))
    case VersionAck => Handshake.AckReceived
    case _ => Handshake.OtherReceived(parsers.Traps(m.header.command, m.payload))
  }

  function EventsOf(parsers: Parsers, ms: seq<Message>): (es: seq<Handshake.Event>)
    ensures |es| == |ms|
    ensures forall i :: 0 <= i < |ms| ==> es[i] == EventOf(parsers, ms[i])
  {
    seq(|ms|, i requires 0 <= i < |ms| => EventOf(parsers, ms[i]))
  }

  lemma MessageEvent(parsers: Parsers, m: Message)
    ensures Handshake.IsMessage(EventOf(parsers, m))
  {}

  const READ_BUFFER_SIZE := 1024

  /** The blocks of n calls of `sendVersionAck`. */
  function VersionAcks(sha: Hash, network: uint32, n: int): seq<Message> {
    if n <= 0 then [] else seq(n, _ => MakeMessage(sha, network, VersionAck, []))
  }

  lemma AcksConcat(sha: Hash, network: uint32, before: seq<Message>, m: nat, n: nat)
    ensures before + VersionAcks(sha, network, 0) == before
    ensures before + VersionAcks(sha, network, m) + VersionAcks(sha, network, n)
         == before + VersionAcks(sha, network, m + n)
  {
    hide MakeMessage;
  }

  class PeerConnection {
    const messageParser: MessageParser
    const parsers: Parsers

    var status: Handshake.Status
    var messageSendQueue: seq<Message>
    var pendingSendBytes: Bytes
    var connectionTimeoutTimer: bool
    var peerVersion: Option<Bytes>
    var receivedVersionAck: bool

    // What surrounds the object: the thread with its scheduled blocks (for sending, the message
    // that each one will enqueue), the version message to be sent once it starts, the bytes the
    // socket has taken, what the delegate has been told, and why the program stopped, if it did.
    var networkThread: Handshake.ThreadState
    var versionPayload: Bytes
    var scheduledMessages: seq<Message>
    var teardownBlocks: nat
    var sendBlocks: nat
    var receiveBlocks: nat
    var acksSent: nat
    var written: Bytes
    var notifications: seq<Handshake.Notification>
    var halt: Handshake.Halt

    constructor (network: uint32, parsers: Parsers)
      ensures Link() == Handshake.INITIAL && Pump() == Pumps.EMPTY && scheduledMessages == []
      ensures messageParser.sha == parsers.sha && messageParser.network == network && this.parsers == parsers
      ensures messageParser.Fields() == State([], None)
      ensures fresh(messageParser)
    {
      messageParser := new MessageParser(parsers.sha, network);
      this.parsers := parsers;
      status, connectionTimeoutTimer, peerVersion, receivedVersionAck := Handshake.NotConnected, false, None, false;
      messageSendQueue, pendingSendBytes, written, sendBlocks, receiveBlocks := [], [], [], 0, 0;
      networkThread, teardownBlocks, acksSent := Handshake.NotStarted, 0, 0;
      notifications, halt := [], Handshake.No;
      versionPayload, scheduledMessages := [], [];
    }

    /** The fields the handshake is about. */
    function Link(): Handshake.Connection
      reads this
    {
      Handshake.Connection(status, peerVersion, receivedVersionAck, connectionTimeoutTimer,
                           networkThread, teardownBlocks, acksSent, notifications, halt)
    }

    /** The fields the send pump is about. */
    function Pump(): Pumps.Pump
      reads this
    {
      Pumps.Pump(messageSendQueue, pendingSendBytes, written, sendBlocks)
    }

    method ConnectWithVersionMessage(payload: Bytes)
      requires halt == Handshake.No
      modifies this
      ensures Link() == Handshake.Step(old(Link()), Handshake.Connect)
      ensures Pump() == old(Pump()) && scheduledMessages == old(scheduledMessages)
      ensures halt == Handshake.No ==> versionPayload == payload
    {
      if status != Handshake.NotConnected || networkThread != Handshake.NotStarted
         || receivedVersionAck || connectionTimeoutTimer {
        halt := Handshake.ConnectPrecondition;
        return;
      }
      status := Handshake.Connecting;
      connectionTimeoutTimer := true;
      networkThread := Handshake.Starting;
      versionPayload := payload;
    }

    method NetworkThreadDidStart()
      requires halt == Handshake.No && networkThread == Handshake.Starting
      requires |versionPayload| < 0x1_0000_0000
      modifies this
      ensures Link() == Handshake.Step(old(Link()), Handshake.ThreadStarted) && Pump() == old(Pump())
      ensures scheduledMessages == old(scheduledMessages)
                + [MakeMessage(messageParser.sha, messageParser.network, Version, old(versionPayload))]
    {
      networkThread := Handshake.Executing;
      SendMessageWithPayload(Version, versionPayload);
    }

    /** The message is built at once, and a block is scheduled that will enqueue it. */
    method SendMessageWithPayload(command: Command, payload: Bytes)
      requires halt == Handshake.No && |payload| < 0x1_0000_0000
      modifies this
      ensures Link() == Handshake.Step(old(Link()), Handshake.Send)
      ensures Pump() == old(Pump()) && receiveBlocks == old(receiveBlocks)
      ensures scheduledMessages == old(scheduledMessages)
                + if networkThread == Handshake.Executing
                  then [MakeMessage(messageParser.sha, messageParser.network, command, payload)] else []
    {
      var message := MakeMessage(messageParser.sha, messageParser.network, command, payload);
      if networkThread != Handshake.Executing {
        halt := Handshake.NoRunLoop;
        return;
      }
      scheduledMessages := scheduledMessages + [message];
    }

    method Disconnect()
      requires halt == Handshake.No
      modifies this
      ensures Link() == Handshake.Step(old(Link()), Handshake.Disconnect)
      ensures Pump() == old(Pump()) && scheduledMessages == old(scheduledMessages)
    {
      DisconnectWithError();
    }

    method DisconnectWithError()
      modifies this
      ensures Link() == Handshake.DisconnectWithError(old(Link())) && Pump() == old(Pump())
      ensures receiveBlocks == old(receiveBlocks) && scheduledMessages == old(scheduledMessages)
    {
      if status == Handshake.Disconnecting || status == Handshake.NotConnected {
        return;
      }
      status := Handshake.Disconnecting;
      connectionTimeoutTimer := false;
      if networkThread != Handshake.Executing {
        halt := Handshake.NoRunLoop;
        return;
      }
      teardownBlocks := teardownBlocks + 1;
    }

    /** The block scheduled by `disconnectWithError`. */
    method RunTeardownBlock()
      requires halt == Handshake.No && networkThread == Handshake.Executing && teardownBlocks > 0
      modifies this
      ensures Link() == Handshake.Step(old(Link()), Handshake.RunTeardown)
      ensures Pump() == old(Pump()) && scheduledMessages == old(scheduledMessages)
    {
      teardownBlocks := teardownBlocks - 1;
      peerVersion := None;
      receivedVersionAck := false;
      status := Handshake.NotConnected;
      notifications := notifications + [Handshake.DidDisconnect];
      networkThread := Handshake.Cancelled;
    }

    method ConnectionTimerDidTimeout()
      requires halt == Handshake.No && connectionTimeoutTimer
      modifies this
      ensures Link() == Handshake.Step(old(Link()), Handshake.TimerFired)
      ensures Pump() == old(Pump()) && scheduledMessages == old(scheduledMessages)
    {
      connectionTimeoutTimer := false;
      if status == Handshake.Connecting {
        DisconnectWithError();
      }
    }

    method DidConnect()
      modifies this
      ensures Link() == Handshake.DidConnectStep(old(Link())) && Pump() == old(Pump())
      ensures receiveBlocks == old(receiveBlocks) && scheduledMessages == old(scheduledMessages)
    {
      if status != Handshake.Connecting || peerVersion.None? || !receivedVersionAck {
        halt := Handshake.DidConnectPrecondition;
        return;
      }
      connectionTimeoutTimer := false;
      status := Handshake.Connected;
      notifications := notifications + [Handshake.DidConnect(peerVersion.value)];
    }

    /** For every version accepted since there were n, the block of an ack has been scheduled. */
    ghost predicate SchedulesAcks(before: seq<Message>, n: nat)
      reads this
    {
      && acksSent >= n
      && scheduledMessages == before + VersionAcks(messageParser.sha, messageParser.network, acksSent - n)
    }

    method SendVersionAck()
      requires halt == Handshake.No && networkThread == Handshake.Executing
      modifies this
      ensures Link() == old(Link()).(acksSent := old(acksSent) + 1)
      ensures Pump() == old(Pump()) && receiveBlocks == old(receiveBlocks)
      ensures SchedulesAcks(old(scheduledMessages), old(acksSent))
    {
      SendMessageWithPayload(VersionAck, []);
      acksSent := acksSent + 1;
    }

    method DidParseMessage(message: Message)
      requires halt == Handshake.No && networkThread == Handshake.Executing
      modifies this
      ensures Link() == Handshake.Step(old(Link()), EventOf(parsers, message))
      ensures Pump() == old(Pump()) && receiveBlocks == old(receiveBlocks)
      ensures SchedulesAcks(old(scheduledMessages), old(acksSent))
    {
      hide Parsers.Traps, MakeMessage;
      match message.header.command {
        case Version => DidReceiveVersion(message.payload);
        case VersionAck => DidReceiveVersionAck();
        case command =>
          var trapped := parsers.Parse(command, message.payload);
          if trapped {
            halt := Handshake.PayloadParser;
          }
      }
    }

    method DidReceiveVersion(payload: Bytes)
      requires halt == Handshake.No && networkThread == Handshake.Executing
      modifies this
      ensures Link() == Handshake.DidParseVersion(old(Link()), parsers.parseVersion(payload))
      ensures Pump() == old(Pump()) && receiveBlocks == old(receiveBlocks)
      ensures SchedulesAcks(old(scheduledMessages), old(acksSent))
    {
      hide MakeMessage;
      if peerVersion.Some? {
        return;
      }
      if status != Handshake.Connecting {
        halt := Handshake.VersionAssertion;
        return;
      }
      var versionMessage := parsers.parseVersion(payload);
      if versionMessage.Trapped? {
        halt := Handshake.PayloadParser;
        return;
      }
      if versionMessage.GotNil? {
        DisconnectWithError();
        return;
      }
      peerVersion := Some(versionMessage.value);
      SendVersionAck();
      if receivedVersionAck {
        DidConnect();
      }
    }

    method DidReceiveVersionAck()
      requires halt == Handshake.No
      modifies this
      ensures Link() == Handshake.DidParseAck(old(Link()))
      ensures Pump() == old(Pump()) && receiveBlocks == old(receiveBlocks)
      ensures scheduledMessages == old(scheduledMessages) && acksSent == old(acksSent)
    {
      if status != Handshake.Connecting {
        return;
      }
      receivedVersionAck := true;
      if peerVersion.Some? {
        DidConnect();
      }
    }

    /** The first waiting block of `sendMessageWithPayload`. */
    method RunEnqueueBlock(hasSpaceAvailable: bool, writeResult: int)
      requires halt == Handshake.No && networkThread == Handshake.Executing && scheduledMessages != []
      modifies this
      ensures scheduledMessages == old(scheduledMessages)[1..] && Link() == old(Link())
      ensures Pump() == Pumps.Step(old(Pump()),
                                   Pumps.Enqueue(old(scheduledMessages)[0], hasSpaceAvailable, writeResult))
    {
      var message := scheduledMessages[0];
      scheduledMessages := scheduledMessages[1..];
      EnqueueAndSend(message, hasSpaceAvailable, writeResult);
    }

    /** What such a block does with its message. */
    method EnqueueAndSend(message: Message, hasSpaceAvailable: bool, writeResult: int)
      modifies this
      ensures Pump() == Pumps.Step(old(Pump()), Pumps.Enqueue(message, hasSpaceAvailable, writeResult))
      ensures Link() == old(Link()) && scheduledMessages == old(scheduledMessages)
    {
      messageSendQueue := messageSendQueue + [message];
      SendWithStream(hasSpaceAvailable, writeResult);
    }

    method SendWithStream(hasSpaceAvailable: bool, writeResult: int)
      modifies this
      ensures Pump() == Pumps.Send(old(Pump()), hasSpaceAvailable, writeResult)
      ensures Link() == old(Link()) && scheduledMessages == old(scheduledMessages)
    {
      hide MessageBytes;
      if !hasSpaceAvailable {
        return;
      }
      if |messageSendQueue| > 0 && |pendingSendBytes| == 0 {
        var message := messageSendQueue[0];
        messageSendQueue := messageSendQueue[1..];
        var data := MessageData(message);
        pendingSendBytes := pendingSendBytes + data;
        assert pendingSendBytes == data;
      }
      if |pendingSendBytes| > 0 {
        var bytesWritten := if writeResult > |pendingSendBytes| then |pendingSendBytes| else writeResult;
        if bytesWritten > 0 {
          written := written + pendingSendBytes[..bytesWritten];
          pendingSendBytes := pendingSendBytes[bytesWritten..];
        }
        if |messageSendQueue| > 0 || |pendingSendBytes| > 0 {
          sendBlocks := sendBlocks + 1;
        }
      }
    }

    /** The parser reports each message while it parses; nothing a report does reaches back into
        the parser, so the reports are made here one after the other once it is done. */
    method ReceiveWithStream(inputStream: InputStream)
      requires halt == Handshake.No && networkThread == Handshake.Executing
      modifies this, messageParser, inputStream
      ensures var n := if |old(inputStream.rest)| < READ_BUFFER_SIZE then |old(inputStream.rest)| else READ_BUFFER_SIZE;
              var (log, s) := Run(messageParser.sha, messageParser.network,
                                  old(messageParser.Fields()).Append(old(inputStream.rest)[..n]));
              && inputStream.rest == old(inputStream.rest)[n..]
              && (n > 0 ==>
                    && messageParser.Fields() == s
                    && Link() == Handshake.Exec(old(Link()), EventsOf(parsers, Messages(log)))
                    && receiveBlocks == old(receiveBlocks) + if inputStream.rest != [] then 1 else 0)
              && (n == 0 ==> Link() == old(Link()) && messageParser.Fields() == old(messageParser.Fields()))
      ensures Pump() == old(Pump()) && SchedulesAcks(old(scheduledMessages), old(acksSent))
    {
      hide Run, Messages, MakeMessage, Handshake.Exec, EventsOf, Parsers.Traps;
      var available := inputStream.HasBytesAvailable();
      if !available {
        return;
      }
      var readBuffer := inputStream.Read(READ_BUFFER_SIZE);
      if |readBuffer| > 0 {
        var reported := |messageParser.delivered|;
        messageParser.ParseBytes(readBuffer);
        var messages := messageParser.delivered[reported..];
        Report(messages);
        available := inputStream.HasBytesAvailable();
        if available {
          receiveBlocks := receiveBlocks + 1;
        }
      }
    }

    /** A stopped program reports nothing more, and neither does one whose thread is gone. */
    method Report(messages: seq<Message>)
      requires halt == Handshake.No && networkThread == Handshake.Executing
      modifies this
      ensures Link() == Handshake.Exec(old(Link()), EventsOf(parsers, messages))
      ensures Pump() == old(Pump()) && receiveBlocks == old(receiveBlocks)
      ensures SchedulesAcks(old(scheduledMessages), old(acksSent))
    {
      hide Handshake.Step, EventOf, VersionAcks;
      ghost var events := EventsOf(parsers, messages);
      AcksConcat(messageParser.sha, messageParser.network, scheduledMessages, 0, 0);
      for i := 0 to |messages|
        invariant Link() == Handshake.Exec(old(Link()), events[..i])
        invariant Pump() == old(Pump()) && receiveBlocks == old(receiveBlocks)
        invariant SchedulesAcks(old(scheduledMessages), old(acksSent))
      {
        Handshake.ExecSnoc(old(Link()), events[..i], events[i]);
        assert events[..i + 1] == events[..i] + [events[i]];
        if halt == Handshake.No && networkThread == Handshake.Executing {
          ghost var n := acksSent;
          DidParseMessage(messages[i]);
          AcksConcat(messageParser.sha, messageParser.network, old(scheduledMessages), n - old(acksSent), acksSent - n);
        } else {
          MessageEvent(parsers, messages[i]);
          Handshake.Unheard(Link(), events[i]);
        }
      }
      assert events[..|messages|] == events;
    }
  }
}
