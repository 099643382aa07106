/**
 Two PeerConnections facing each other, each with its own thread, timer, queues and user, joined
 by a transport in both directions: what one end knows about the other, and that the version
 handshake cannot get stuck.
 */
module VersionExchange {
  import opened Binary
  import opened BitcoinEncoding
  import opened BitcoinDecoding
  import opened Message
  import opened MessageParser
  import opened Payloads
  import Pumps = SendPump
  import Handshake
  import opened PeerConnection
  import EndToEnd

  /** A payload whose length fits the header. */
  type Payload = s: Bytes | |s| < 0x1_0000_0000 witness []

  /** One end. `outgoing` holds its send pump, what the transport has carried to the peer, and the
      peer's parser; `enqueued` is the log of the messages its enqueuing blocks have handled. */
  datatype End = End(
    connection: Handshake.Connection,
    versionPayload: Payload,
    scheduled: seq<Message>,
    enqueued: seq<Message>,
    outgoing: EndToEnd.Link)

  function NewEnd(versionPayload: Payload): End {
    End(Handshake.INITIAL, versionPayload, [], [], EndToEnd.IDLE)
  }

  /** What both ends have in common. */
  datatype Protocol = Protocol(network: uint32, parsers: Parsers)

  /** What can happen at an end: the user connects, disconnects or asks for a message to be sent;
      the thread starts; the timer fires; the teardown block, an enqueuing block or a sending block
      runs; the socket has space, or bytes to read. */
  datatype Action =
    | Connect
    | ThreadStarts
    | TimerFires
    | Disconnect
    | RunTeardown
    | Send(command: Command, payload: Payload)
    | RunEnqueue(hasSpace: bool, writeResult: int)
    | RunSend(hasSpace: bool, writeResult: int)
    | SpaceAvailable(hasSpace: bool, writeResult: int)
    | BytesAvailable(n: nat)

  /** Blocks run, and streams are served, only on an executing thread. */
  predicate Running(c: Handshake.Connection) {
    c.halt == Handshake.No && c.thread == Handshake.Executing
  }

  /** After a step that ends with a call of `sendMessageWithPayload`. */
  function Schedule(p: Protocol, x: End, e: Handshake.Event, command: Command, payload: Payload): End {
    var c := Handshake.Step(x.connection, e);
    var message := MakeMessage(p.parsers.sha, p.network, command, payload);
    x.(connection := c, scheduled := x.scheduled + if Running(c) then [message] else [])
  }

  function PumpStep(p: Protocol, x: End, e: Pumps.PumpEvent): End {
    x.(outgoing := EndToEnd.LinkStep(p.parsers.sha, p.network, x.outgoing, EndToEnd.Sender(e)))
  }

  function Enqueue(p: Protocol, x: End, hasSpace: bool, writeResult: int): End
    requires x.scheduled != []
  {
    var message := x.scheduled[0];
    PumpStep(p, x.(scheduled := x.scheduled[1..], enqueued := x.enqueued + [message]),
             Pumps.Enqueue(message, hasSpace, writeResult))
  }

  /** The messages that the last step of a link has delivered. */
  function Arrived(before: EndToEnd.Link, after: EndToEnd.Link): seq<Message> {
    if |before.delivered| <= |after.delivered| then after.delivered[|before.delivered|..] else []
  }

  /** The messages are reported one by one; an accepted version is answered with an ack. */
  function Report(p: Protocol, x: End, messages: seq<Message>): End {
    var c := Handshake.Exec(x.connection, EventsOf(p.parsers, messages));
    x.(connection := c,
       scheduled := x.scheduled + VersionAcks(p.parsers.sha, p.network, c.acksSent - x.connection.acksSent))
  }

  function Local(x: End, e: Handshake.Event): End {
    x.(connection := Handshake.Step(x.connection, e))
  }

  /** An action at x, whose peer is y. */
  function Act(p: Protocol, x: End, y: End, a: Action): (End, End) {
    match a
    case Connect => (Local(x, Handshake.Connect), y)
    case ThreadStarts =>
      if x.connection.thread != Handshake.Starting then (x, y)
      else (Schedule(p, x, Handshake.ThreadStarted, Version, x.versionPayload), y)
    case TimerFires => (Local(x, Handshake.TimerFired), y)
    case Disconnect => (Local(x, Handshake.Disconnect), y)
    case RunTeardown => (Local(x, Handshake.RunTeardown), y)
    case Send(command, payload) => (Schedule(p, x, Handshake.Send, command, payload), y)
    case RunEnqueue(space, n) =>
      if Running(x.connection) && x.scheduled != [] then (Enqueue(p, x, space, n), y) else (x, y)
    case RunSend(space, n) =>
      if Running(x.connection) then (PumpStep(p, x, Pumps.RunScheduled(space, n)), y) else (x, y)
    case SpaceAvailable(space, n) =>
      if Running(x.connection) then (PumpStep(p, x, Pumps.SpaceAvailable(space, n)), y) else (x, y)
    case BytesAvailable(n) =>
      if !Running(x.connection) then (x, y)
      else
        var l := EndToEnd.LinkStep(p.parsers.sha, p.network, y.outgoing, EndToEnd.Receive(n));
        (Report(p, x, Arrived(y.outgoing, l)), y.(outgoing := l))
  }

  datatype Event = AtLeft(action: Action) | AtRight(action: Action)

  datatype World = World(left: End, right: End)

  function Step(p: Protocol, w: World, e: Event): World {
    match e
    case AtLeft(a) => var (x, y) := Act(p, w.left, w.right, a); World(x, y)
    case AtRight(a) => var (y, x) := Act(p, w.right, w.left, a); World(x, y)
  }

  function Exec(p: Protocol, w: World, events: seq<Event>): World {
    if events == [] then w else Step(p, Exec(p, w, events[..|events| - 1]), events[|events| - 1])
  }

  lemma {:induction false} ExecConcat(p: Protocol, w: World, a: seq<Event>, b: seq<Event>)
    ensures Exec(p, w, a + b) == Exec(p, Exec(p, w, a), b)
  {
    hide Step;
    if b == [] {
      assert a + b == a;
    } else {
      ExecConcat(p, w, a, b[..|b| - 1]);
      assert (a + b)[..|a + b| - 1] == a + b[..|b| - 1];
    }
  }

  lemma ExecCons(p: Protocol, w: World, e: Event, events: seq<Event>)
    ensures Exec(p, w, [e] + events) == Exec(p, Step(p, w, e), events)
  {
    hide Step;
    ExecConcat(p, w, [e], events);
    assert [e][..0] == [];
  }

  /** The users leave version messages and their acks to the connections. */
  predicate HonestAction(a: Action) {
    a.Send? ==> a.command != Version && a.command != VersionAck
  }

  predicate Honest(events: seq<Event>) {
    forall e :: e in events ==> HonestAction(e.action)
  }

  // ---------------------------------------------------------------------------------------
  // What an end sends.
  // ---------------------------------------------------------------------------------------

  predicate Has(messages: seq<Message>, command: Command) {
    exists i :: 0 <= i < |messages| && messages[i].header.command == command
  }

  lemma HasConcat(a: seq<Message>, b: seq<Message>, command: Command)
    ensures Has(a + b, command) <==> Has(a, command) || Has(b, command)
  {
    if i :| 0 <= i < |a| && a[i].header.command == command {
      assert (a + b)[i].header.command == command;
    }
    if i :| 0 <= i < |b| && b[i].header.command == command {
      assert (a + b)[|a| + i].header.command == command;
    }
  }

  lemma NothingHas(command: Command)
    ensures !Has([], command)
  {}

  lemma HasOne(m: Message, command: Command)
    ensures Has([m], command) <==> m.header.command == command
  {
    assert [m][0] == m;
  }

  lemma HasLast(ms: seq<Message>, command: Command)
    requires ms != []
    ensures Has(ms, command) <==> Has(ms[..|ms| - 1], command) || ms[|ms| - 1].header.command == command
  {
    assert ms == ms[..|ms| - 1] + [ms[|ms| - 1]];
    HasConcat(ms[..|ms| - 1], [ms[|ms| - 1]], command);
    HasOne(ms[|ms| - 1], command);
  }

  /** Everything ever scheduled for sending. */
  function Log(x: End): seq<Message> {
    x.enqueued + x.scheduled
  }

  /** Version messages carry the end's version, acks exist only for an accepted version. */
  ghost predicate MaySend(p: Protocol, x: End, m: Message) {
    && WellFormed(p.parsers.sha, p.network, m)
    && (m.header.command == Version ==> m.payload == x.versionPayload)
    && (m.header.command == VersionAck ==> x.connection.acksSent >= 1)
  }

  predicate Unstarted(c: Handshake.Connection) {
    c.thread == Handshake.NotStarted || c.thread == Handshake.Starting
  }

  ghost predicate Speaks(p: Protocol, x: End) {
    && (forall m :: m in Log(x) ==> MaySend(p, x, m))
    && (x.connection.acksSent >= 1 ==> Has(Log(x), VersionAck))
    && (if Unstarted(x.connection) then Log(x) == [] else Log(x) != [] && Log(x)[0].header.command == Version)
  }

  /** A link carries the messages enqueued, and its receiver has kept up with it. */
  ghost predicate Transported(p: Protocol, l: EndToEnd.Link, enqueued: seq<Message>) {
    && EndToEnd.InStep(p.parsers.sha, p.network, l)
    && Pumps.Stream(l.pump) == EncodeAll(MessageBytes, enqueued)
  }

  // ---------------------------------------------------------------------------------------
  // What an end hears.
  // ---------------------------------------------------------------------------------------

  /** What a connection believes is so, and a connection that has not given up remembers whether it
      has been sent a version and an ack. */
  ghost predicate Heard(
      c: Handshake.Connection, version: Outcome<Bytes>, acked: bool, sentVersion: bool, sentAck: bool)
  {
    && Handshake.Invariant(c)
    && (c.peerVersion.Some? ==> version == Got(c.peerVersion.value))
    && (c.receivedVersionAck ==> acked && sentAck)
    && (c.halt == Handshake.No && (c.status == Handshake.Connecting || c.status == Handshake.Connected) ==>
          (sentVersion ==> c.peerVersion.Some?) && (sentAck ==> c.receivedVersionAck))
    && (Unstarted(c) ==> !sentVersion && !sentAck)
  }

  lemma LocalStepHeard(c: Handshake.Connection, e: Handshake.Event, version: Outcome<Bytes>, acked: bool,
                       sentVersion: bool, sentAck: bool)
    requires Heard(c, version, acked, sentVersion, sentAck) && !Handshake.IsMessage(e)
    ensures Heard(Handshake.Step(c, e), version, acked, sentVersion, sentAck)
    ensures Handshake.Step(c, e).acksSent == c.acksSent
    ensures Unstarted(Handshake.Step(c, e)) ==> Unstarted(c)
    ensures !e.ThreadStarted? ==> Unstarted(c) ==> Unstarted(Handshake.Step(c, e))
  {}

  lemma MessageStepHeard(c: Handshake.Connection, e: Handshake.Event, version: Outcome<Bytes>, acked: bool,
                         sentVersion: bool, sentAck: bool)
    requires Heard(c, version, acked, sentVersion, sentAck) && c.thread == Handshake.Executing && Handshake.IsMessage(e)
    requires (e.VersionReceived? ==> e.parsed == version) && (e.AckReceived? ==> acked)
    ensures var d := Handshake.Step(c, e);
            && Heard(d, version, acked, sentVersion || e.VersionReceived?, sentAck || e.AckReceived?)
            && d.thread == Handshake.Executing
            && d.acksSent >= c.acksSent
  {}

  lemma {:induction false} MessagesHeard(p: Protocol, c: Handshake.Connection, ms: seq<Message>,
                                         payload: Bytes, acked: bool, sentVersion: bool, sentAck: bool)
    requires Heard(c, p.parsers.parseVersion(payload), acked, sentVersion, sentAck) && c.thread == Handshake.Executing
    requires forall m :: m in ms ==>
               (m.header.command == Version ==> m.payload == payload) && (m.header.command == VersionAck ==> acked)
    ensures var d := Handshake.Exec(c, EventsOf(p.parsers, ms));
            && Heard(d, p.parsers.parseVersion(payload), acked, sentVersion || Has(ms, Version), sentAck || Has(ms, VersionAck))
            && d.thread == Handshake.Executing
            && d.acksSent >= c.acksSent
  {
    hide Heard, Has, Handshake.Step;
    var events := EventsOf(p.parsers, ms);
    if ms == [] {
      NothingHas(Version);
      NothingHas(VersionAck);
    } else {
      var front, m := ms[..|ms| - 1], ms[|ms| - 1];
      assert forall x :: x in front ==> x in ms;
      MessagesHeard(p, c, front, payload, acked, sentVersion, sentAck);
      assert events[..|events| - 1] == EventsOf(p.parsers, front);
      assert m in ms;
      MessageStepHeard(Handshake.Exec(c, EventsOf(p.parsers, front)), events[|events| - 1],
                       p.parsers.parseVersion(payload), acked,
                       sentVersion || Has(front, Version), sentAck || Has(front, VersionAck));
      HasLast(ms, Version);
      HasLast(ms, VersionAck);
    }
  }

  /** What y knows of what x has sent. */
  ghost predicate Hears(p: Protocol, x: End, y: End) {
    var ms := x.outgoing.delivered;
    Heard(y.connection, p.parsers.parseVersion(x.versionPayload), x.connection.acksSent >= 1, Has(ms, Version), Has(ms, VersionAck))
  }

  // ---------------------------------------------------------------------------------------
  // The invariant of one direction.
  // ---------------------------------------------------------------------------------------

  ghost predicate Direction(p: Protocol, x: End, y: End) {
    Speaks(p, x) && Transported(p, x.outgoing, x.enqueued) && Hears(p, x, y)
  }

  lemma LocalKeeps(p: Protocol, x: End, y: End, e: Handshake.Event)
    requires Direction(p, x, y) && Direction(p, y, x) && !Handshake.IsMessage(e) && !e.ThreadStarted?
    ensures Direction(p, Local(x, e), y) && Direction(p, y, Local(x, e))
  {
    hide Handshake.Step, Heard, Has, Transported, WellFormed;
    var ms := y.outgoing.delivered;
    LocalStepHeard(x.connection, e, p.parsers.parseVersion(y.versionPayload), y.connection.acksSent >= 1,
                   Has(ms, Version), Has(ms, VersionAck));
    assert forall m :: MaySend(p, x, m) ==> MaySend(p, Local(x, e), m);
  }

  lemma ScheduleKeeps(p: Protocol, x: End, y: End, e: Handshake.Event, command: Command, payload: Payload)
    requires Direction(p, x, y) && Direction(p, y, x)
    requires command != VersionAck && (command == Version ==> payload == x.versionPayload)
    requires e == Handshake.Send || (e == Handshake.ThreadStarted && command == Version)
    ensures var x' := Schedule(p, x, e, command, payload); Direction(p, x', y) && Direction(p, y, x')
  {
    hide Heard, Has, Transported, MakeMessage;
    var x' := Schedule(p, x, e, command, payload);
    var ms := y.outgoing.delivered;
    LocalStepHeard(x.connection, e, p.parsers.parseVersion(y.versionPayload), y.connection.acksSent >= 1,
                   Has(ms, Version), Has(ms, VersionAck));
    var message := MakeMessage(p.parsers.sha, p.network, command, payload);
    MadeMessage(p, command, payload);
    HasOne(message, Version);
    HasConcat(Log(x), [message], Version);
    HasConcat(Log(x), [message], VersionAck);
    assert Running(x'.connection) ==> Log(x') == Log(x) + [message];
    assert !Running(x'.connection) ==> Log(x') == Log(x);
    assert forall m :: MaySend(p, x, m) ==> MaySend(p, x', m);
  }

  lemma MadeMessage(p: Protocol, command: Command, payload: Payload)
    ensures var m := MakeMessage(p.parsers.sha, p.network, command, payload);
            WellFormed(p.parsers.sha, p.network, m) && m.header.command == command && m.payload == payload
  {}

  /** Where messages are on their way does not matter to what has been said and heard. */
  lemma PumpKeeps(p: Protocol, x: End, e: Pumps.PumpEvent, enqueued: seq<Message>)
    requires Transported(p, x.outgoing, x.enqueued) && enqueued == x.enqueued + Pumps.Added(e)
    ensures Transported(p, PumpStep(p, x, e).outgoing, enqueued)
    ensures PumpStep(p, x, e).outgoing.delivered == x.outgoing.delivered
  {
    hide EndToEnd.InStep, Pumps.Step, Pumps.Stream, MessageBytes;
    EndToEnd.LinkStepKeepsInStep(p.parsers.sha, p.network, x.outgoing, EndToEnd.Sender(e));
    Pumps.StepConserves(x.outgoing.pump, e);
    EncodeAllConcat(MessageBytes, x.enqueued, Pumps.Added(e));
  }

  lemma SendingKeeps(p: Protocol, x: End, y: End, e: Pumps.PumpEvent)
    requires Direction(p, x, y) && Direction(p, y, x) && !e.Enqueue?
    ensures Direction(p, PumpStep(p, x, e), y) && Direction(p, y, PumpStep(p, x, e))
  {
    hide EndToEnd.LinkStep, Heard, Has, Transported, WellFormed;
    PumpKeeps(p, x, e, x.enqueued);
    assert forall m :: MaySend(p, x, m) ==> MaySend(p, PumpStep(p, x, e), m);
  }

  lemma EnqueueKeeps(p: Protocol, x: End, y: End, hasSpace: bool, writeResult: int)
    requires Direction(p, x, y) && Direction(p, y, x) && x.scheduled != []
    ensures var x' := Enqueue(p, x, hasSpace, writeResult); Direction(p, x', y) && Direction(p, y, x')
  {
    hide EndToEnd.LinkStep, Heard, Has, Transported, WellFormed;
    var x' := Enqueue(p, x, hasSpace, writeResult);
    var message := x.scheduled[0];
    PumpKeeps(p, x, Pumps.Enqueue(message, hasSpace, writeResult), x.enqueued + [message]);
    assert Log(x') == Log(x);
    assert forall m :: MaySend(p, x, m) ==> MaySend(p, x', m);
  }

  /** A read delivers some messages that the peer has enqueued. */
  lemma ReadKeeps(p: Protocol, y: End, n: nat)
    requires Transported(p, y.outgoing, y.enqueued) && Speaks(p, y)
    ensures var l := EndToEnd.LinkStep(p.parsers.sha, p.network, y.outgoing, EndToEnd.Receive(n));
            && Transported(p, l, y.enqueued)
            && l.delivered == y.outgoing.delivered + Arrived(y.outgoing, l)
            && forall m :: m in Arrived(y.outgoing, l) ==> MaySend(p, y, m)
  {
    hide EndToEnd.InStep, Pumps.Stream, MessageBytes, WellFormed, Run, Messages, Has;
    var l := EndToEnd.LinkStep(p.parsers.sha, p.network, y.outgoing, EndToEnd.Receive(n));
    EndToEnd.LinkStepKeepsInStep(p.parsers.sha, p.network, y.outgoing, EndToEnd.Receive(n));
    assert l.pump == y.outgoing.pump;
    assert forall m :: m in y.enqueued ==> m in Log(y) && MaySend(p, y, m);
    EndToEnd.DeliveredOf(p.parsers.sha, p.network, l, y.enqueued);
    assert y.outgoing.delivered <= l.delivered;
    assert forall m :: m in l.delivered ==> m in y.enqueued;
  }

  lemma AcksSay(p: Protocol, n: int)
    ensures n >= 1 ==> Has(VersionAcks(p.parsers.sha, p.network, n), VersionAck)
    ensures forall m :: m in VersionAcks(p.parsers.sha, p.network, n) ==>
              n >= 1 && WellFormed(p.parsers.sha, p.network, m) && m.header.command == VersionAck && m.payload == []
  {
    MadeMessage(p, VersionAck, []);
    if n >= 1 {
      assert VersionAcks(p.parsers.sha, p.network, n)[0].header.command == VersionAck;
    }
  }

  lemma ReportSpeaks(p: Protocol, x: End, ms: seq<Message>)
    requires Speaks(p, x) && x.connection.thread == Handshake.Executing
    requires var c := Report(p, x, ms).connection;
             c.acksSent >= x.connection.acksSent && c.thread == Handshake.Executing
    ensures Speaks(p, Report(p, x, ms))
  {
    hide Has, WellFormed, VersionAcks, Handshake.Exec;
    var x' := Report(p, x, ms);
    var acks := VersionAcks(p.parsers.sha, p.network, x'.connection.acksSent - x.connection.acksSent);
    AcksSay(p, x'.connection.acksSent - x.connection.acksSent);
    assert Log(x') == Log(x) + acks;
    HasConcat(Log(x), acks, Version);
    HasConcat(Log(x), acks, VersionAck);
    assert forall m :: MaySend(p, x, m) ==> MaySend(p, x', m);
  }

  lemma ReceiveKeeps(p: Protocol, x: End, y: End, n: nat)
    requires Direction(p, x, y) && Direction(p, y, x) && Running(x.connection)
    ensures var (x', y') := Act(p, x, y, BytesAvailable(n)); Direction(p, x', y') && Direction(p, y', x')
  {
    hide Has, WellFormed, VersionAcks, Handshake.Exec, EndToEnd.LinkStep, Transported, Arrived;
    var (x', y') := Act(p, x, y, BytesAvailable(n));
    var ms := Arrived(y.outgoing, y'.outgoing);
    ReadKeeps(p, y, n);
    var before := y.outgoing.delivered;
    MessagesHeard(p, x.connection, ms, y.versionPayload, y.connection.acksSent >= 1,
                  Has(before, Version), Has(before, VersionAck));
    HasConcat(before, ms, Version);
    HasConcat(before, ms, VersionAck);
    ReportSpeaks(p, x, ms);
  }

  lemma ActKeeps(p: Protocol, x: End, y: End, a: Action)
    requires Direction(p, x, y) && Direction(p, y, x) && HonestAction(a)
    ensures var (x', y') := Act(p, x, y, a); Direction(p, x', y') && Direction(p, y', x')
  {
    hide Direction, Report, Local, Enqueue, PumpStep, Schedule, Arrived, EndToEnd.LinkStep;
    match a
    case Connect => LocalKeeps(p, x, y, Handshake.Connect);
    case ThreadStarts => ScheduleKeeps(p, x, y, Handshake.ThreadStarted, Version, x.versionPayload);
    case TimerFires => LocalKeeps(p, x, y, Handshake.TimerFired);
    case Disconnect => LocalKeeps(p, x, y, Handshake.Disconnect);
    case RunTeardown => LocalKeeps(p, x, y, Handshake.RunTeardown);
    case Send(command, payload) => ScheduleKeeps(p, x, y, Handshake.Send, command, payload);
    case RunEnqueue(space, n) =>
      if x.scheduled != [] {
        EnqueueKeeps(p, x, y, space, n);
      }
    case RunSend(space, n) => SendingKeeps(p, x, y, Pumps.RunScheduled(space, n));
    case SpaceAvailable(space, n) => SendingKeeps(p, x, y, Pumps.SpaceAvailable(space, n));
    case BytesAvailable(n) =>
      if Running(x.connection) {
        ReceiveKeeps(p, x, y, n);
      }
  }

  // ---------------------------------------------------------------------------------------
  // The exchange.
  // ---------------------------------------------------------------------------------------

  function Start(left: Payload, right: Payload): World {
    World(NewEnd(left), NewEnd(right))
  }

  lemma StartInvariant(p: Protocol, x: Payload, y: Payload)
    ensures Direction(p, NewEnd(x), NewEnd(y))
  {
    hide EndToEnd.InStep;
    EndToEnd.IdleInStep(p.parsers.sha, p.network);
    NothingHas(Version);
    NothingHas(VersionAck);
  }

  lemma {:induction false} ExecKeeps(p: Protocol, left: Payload, right: Payload, events: seq<Event>)
    requires Honest(events)
    ensures var w := Exec(p, Start(left, right), events);
            && Direction(p, w.left, w.right) && Direction(p, w.right, w.left)
            && w.left.versionPayload == left && w.right.versionPayload == right
  {
    hide Direction, Act;
    if events == [] {
      StartInvariant(p, left, right);
      StartInvariant(p, right, left);
    } else {
      var front, e := events[..|events| - 1], events[|events| - 1];
      assert forall x :: x in front ==> x in events;
      ExecKeeps(p, left, right, front);
      var w := Exec(p, Start(left, right), front);
      assert e in events;
      match e
      case AtLeft(a) => ActKeeps(p, w.left, w.right, a); ActPayload(p, w.left, w.right, a);
      case AtRight(a) => ActKeeps(p, w.right, w.left, a); ActPayload(p, w.right, w.left, a);
    }
  }

  lemma ActPayload(p: Protocol, x: End, y: End, a: Action)
    ensures var (x', y') := Act(p, x, y, a);
            x'.versionPayload == x.versionPayload && y'.versionPayload == y.versionPayload
  {
    hide EndToEnd.LinkStep, Handshake.Step;
  }

  /** x knows y's version, and y has accepted the version of x. */
  ghost predicate Agreed(p: Protocol, x: End, y: End) {
    var ofX, ofY := p.parsers.parseVersion(x.versionPayload), p.parsers.parseVersion(y.versionPayload);
    && ofY.Got?
    && x.connection.peerVersion == Some(ofY.value)
    && x.connection.notifications == [Handshake.DidConnect(ofY.value)]
    && y.connection.acksSent == 1
    && (Handshake.Alive(y.connection) ==> ofX.Got? && y.connection.peerVersion == Some(ofX.value))
  }

  lemma DirectionsAgree(p: Protocol, x: End, y: End)
    requires Direction(p, x, y) && Direction(p, y, x) && x.connection.status == Handshake.Connected
    ensures Agreed(p, x, y)
  {
    hide Has, Speaks, Transported;
  }

  /** Over every run of the two ends, with any interleaving, any pieces, timeouts and disconnects:
      an end that is connected has told its delegate about exactly the version its peer has, and
      the peer has accepted this end's version and still holds it unless it has given up. */
  lemma Agreement(p: Protocol, left: Payload, right: Payload, events: seq<Event>)
    requires Honest(events)
    ensures var w := Exec(p, Start(left, right), events);
            && (w.left.connection.status == Handshake.Connected ==> Agreed(p, w.left, w.right))
            && (w.right.connection.status == Handshake.Connected ==> Agreed(p, w.right, w.left))
  {
    hide Direction, Agreed, Act;
    ExecKeeps(p, left, right, events);
    var w := Exec(p, Start(left, right), events);
    if w.left.connection.status == Handshake.Connected {
      DirectionsAgree(p, w.left, w.right);
    }
    if w.right.connection.status == Handshake.Connected {
      DirectionsAgree(p, w.right, w.left);
    }
  }

  /** Nothing that x has to say is still waiting or on its way. */
  predicate Drained(x: End) {
    && x.scheduled == [] && x.outgoing.pump.queue == [] && x.outgoing.pump.pending == []
    && x.outgoing.received == |x.outgoing.pump.written|
  }

  lemma DrainedIsHeard(p: Protocol, x: End, y: End)
    requires Direction(p, x, y) && Drained(x)
    ensures x.outgoing.delivered == Log(x)
  {
    hide Has, WellFormed, MessageBytes, EndToEnd.InStep, Pumps.Stream, Heard;
    assert Log(x) == x.enqueued;
    assert forall m :: m in x.enqueued ==> MaySend(p, x, m);
    EndToEnd.DeliveredOf(p.parsers.sha, p.network, x.outgoing, x.enqueued);
  }

  predicate BothConnected(w: World) {
    && w.left.connection.status == Handshake.Connected && Running(w.left.connection)
    && w.right.connection.status == Handshake.Connected && Running(w.right.connection)
  }

  lemma VersionIsFirst(ms: seq<Message>)
    requires ms != [] && ms[0].header.command == Version
    ensures Has(ms, Version)
  {}

  lemma DrainedConnects(p: Protocol, x: End, y: End)
    requires Direction(p, x, y) && Running(x.connection) && Handshake.Alive(x.connection) && Drained(x)
    requires Direction(p, y, x) && Running(y.connection) && Handshake.Alive(y.connection) && Drained(y)
    ensures x.connection.status == Handshake.Connected && y.connection.status == Handshake.Connected
  {
    hide Has, Transported, Drained, MaySend;
    DrainedIsHeard(p, x, y);
    DrainedIsHeard(p, y, x);
    VersionIsFirst(Log(x));
    VersionIsFirst(Log(y));
  }

  /** The handshake cannot get stuck: when everything has been sent and read, and both ends run and
      neither has given up, both are connected. */
  lemma NeverStuck(p: Protocol, left: Payload, right: Payload, events: seq<Event>)
    requires Honest(events)
    requires var w := Exec(p, Start(left, right), events);
             && Running(w.left.connection) && Handshake.Alive(w.left.connection) && Drained(w.left)
             && Running(w.right.connection) && Handshake.Alive(w.right.connection) && Drained(w.right)
    ensures BothConnected(Exec(p, Start(left, right), events))
  {
    hide Act, Drained, Direction;
    ExecKeeps(p, left, right, events);
    var w := Exec(p, Start(left, right), events);
    DrainedConnects(p, w.left, w.right);
  }
}
