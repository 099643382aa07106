/**
 Which states of a version exchange can still be completed: exactly those in which nothing that an
 end has yet to read, up to the ack it waits for, stops its payload parsers.
 */
module HandshakeCompletion {
  import opened Binary
  import opened BitcoinEncoding
  import opened BitcoinDecoding
  import opened Message
  import MessageParser
  import opened Payloads
  import Pumps = SendPump
  import Handshake
  import opened PeerConnection
  import EndToEnd
  import opened VersionExchange

  /** The bytes of the payload meet the guard of a parser that is run on them in any state. */
  ghost predicate StopsReader(p: Protocol, m: Message) {
    m.header.command != Version && m.header.command != VersionAck && p.parsers.Stops(m.header.command, m.payload)
  }

  /** Message j stops its reader, and it comes before any ack. */
  ghost predicate Obstacle(p: Protocol, ms: seq<Message>, j: nat)
    requires j < |ms|
  {
    StopsReader(p, ms[j]) && !Has(ms[..j], VersionAck)
  }

  /** Of what x has said and its peer has not read yet, nothing is an obstacle. */
  ghost predicate Clear(p: Protocol, x: End) {
    forall j :: |x.outgoing.delivered| <= j < |Log(x)| ==> !Obstacle(p, Log(x), j)
  }

  /** Both ends run and have not given up. */
  predicate BothAlive(w: World) {
    && Running(w.left.connection) && Handshake.Alive(w.left.connection)
    && Running(w.right.connection) && Handshake.Alive(w.right.connection)
  }

  // ---------------------------------------------------------------------------------------
  // Without obstacles, every useful step leads to another such state.
  // ---------------------------------------------------------------------------------------

  ghost predicate Ready(p: Protocol, x: End, y: End) {
    && Direction(p, x, y) && Direction(p, y, x) && Clear(p, x) && Clear(p, y)
    && Running(x.connection) && Handshake.Alive(x.connection) && p.parsers.parseVersion(x.versionPayload).Got?
    && Running(y.connection) && Handshake.Alive(y.connection) && p.parsers.parseVersion(y.versionPayload).Got?
  }

  function Unread(l: EndToEnd.Link): nat {
    if l.received <= |l.pump.written| then |l.pump.written| - l.received else 0
  }

  /** What is left to do, the most important part first: versions not yet accepted, blocks to run,
      messages to take from the queue, bytes to write, bytes to read. */
  datatype Work = Work(versions: int, blocks: nat, messages: nat, bytes: nat, unread: nat) {
    predicate LessThan(that: Work) {
      if versions != that.versions then versions < that.versions
      else if blocks != that.blocks then blocks < that.blocks
      else if messages != that.messages then messages < that.messages
      else if bytes != that.bytes then bytes < that.bytes
      else unread < that.unread
    }
  }

  function WorkOf(x: End, y: End): Work {
    Work(2 - x.connection.acksSent - y.connection.acksSent,
         |x.scheduled| + |y.scheduled|,
         |x.outgoing.pump.queue| + |y.outgoing.pump.queue|,
         |x.outgoing.pump.pending| + |y.outgoing.pump.pending|,
         Unread(x.outgoing) + Unread(y.outgoing))
  }

  /** What an action leaves alone. */
  lemma ActFrame(p: Protocol, x: End, y: End, a: Action)
    requires Direction(p, x, y) && Direction(p, y, x)
    ensures var (x', y') := Act(p, x, y, a);
            && Log(x) <= Log(x') && x'.outgoing.delivered == x.outgoing.delivered
            && Log(y') == Log(y) && y'.connection == y.connection
  {
    hide Handshake.Step, Handshake.Exec, Pumps.Step, MessageParser.Run, MakeMessage, VersionAcks, Direction, EventsOf;
  }

  /** Before its ack has been read, nothing that has been read is one. */
  lemma NoAckYet(p: Protocol, x: End, y: End)
    requires Direction(p, x, y) && Running(y.connection) && Handshake.Alive(y.connection)
    requires y.connection.status != Handshake.Connected
    ensures x.outgoing.delivered <= Log(x) && !Has(x.outgoing.delivered, VersionAck)
  {
    hide Has, Pumps.Stream, MessageBytes, EndToEnd.InStep, WellFormed;
    var ms := x.outgoing.delivered;
    assert forall m :: m in x.enqueued ==> m in Log(x) && MaySend(p, x, m);
    EndToEnd.DeliveredOf(p.parsers.sha, p.network, x.outgoing, x.enqueued);
    if Has(ms, VersionAck) {
      assert ms != [] by { NothingHas(VersionAck); }
      assert ms[0] == Log(x)[0];
      VersionIsFirst(ms);
    }
  }

  /** One byte completes at most one message. */
  lemma ByteRead(p: Protocol, x: End)
    requires Transported(p, x.outgoing, x.enqueued) && Speaks(p, x) && Unread(x.outgoing) > 0
    ensures var l := EndToEnd.LinkStep(p.parsers.sha, p.network, x.outgoing, EndToEnd.Receive(1));
            && l.pump == x.outgoing.pump && Unread(l) == Unread(x.outgoing) - 1
            && |l.delivered| <= |x.outgoing.delivered| + 1
            && x.outgoing.delivered <= l.delivered <= Log(x)
  {
    hide EndToEnd.InStep, Pumps.Stream, MessageBytes, WellFormed, MessageParser.Run, MessageParser.Messages, Has;
    var sha, l := p.parsers.sha, EndToEnd.LinkStep(p.parsers.sha, p.network, x.outgoing, EndToEnd.Receive(1));
    ReadKeeps(p, x, 1);
    assert forall m :: m in x.enqueued ==> m in Log(x) && MaySend(p, x, m);
    EndToEnd.DeliveredOf(sha, p.network, l, x.enqueued);
    var k := |x.outgoing.delivered| + 1;
    if |l.delivered| > k {
      EndToEnd.DeliveredExactly(sha, p.network, l, x.enqueued, k + 1);
      EndToEnd.DeliveredExactly(sha, p.network, x.outgoing, x.enqueued, k);
      EncodeAllStep(MessageBytes, x.enqueued, k);
      MessageNotEmpty(x.enqueued[k]);
    }
  }

  lemma MessageNotEmpty(m: Message)
    ensures |MessageBytes(m)| > 0
  {
    hide HeaderBytes;
  }

  /** A message that is no obstacle, from a peer whose version can be parsed. */
  lemma HarmlessEvent(p: Protocol, m: Message, payload: Bytes)
    requires !StopsReader(p, m) && (m.header.command == Version ==> m.payload == payload)
    requires p.parsers.parseVersion(payload).Got?
    ensures var e := EventOf(p.parsers, m);
            Handshake.IsMessage(e) && (e.VersionReceived? ==> e.parsed.Got?) && e != Handshake.OtherReceived(true)
  {
    hide Parsers.Traps, Parsers.Stops;
    p.parsers.TrapsExactly(m.header.command, m.payload);
  }

  lemma OneMessage(p: Protocol, c: Handshake.Connection, ms: seq<Message>, payload: Bytes)
    requires Handshake.Invariant(c) && Running(c) && Handshake.Alive(c) && |ms| <= 1
    requires p.parsers.parseVersion(payload).Got?
    requires forall m :: m in ms ==> !StopsReader(p, m) && (m.header.command == Version ==> m.payload == payload)
    ensures var d := Handshake.Exec(c, EventsOf(p.parsers, ms));
            Running(d) && Handshake.Alive(d) && c.acksSent <= d.acksSent <= 1
  {
    hide Handshake.Step, Handshake.Exec, Parsers.Traps, StopsReader, EventOf, Running, Handshake.Alive;
    var events := EventsOf(p.parsers, ms);
    Handshake.ExecSnoc(c, [], Handshake.AckReceived);
    if ms == [] {
      assert events == [];
    } else {
      assert ms[0] in ms;
      HarmlessEvent(p, ms[0], payload);
      assert events == [] + [events[0]];
      Handshake.ExecSnoc(c, [], events[0]);
      MessageKeepsAlive(c, events[0]);
    }
  }

  lemma MessageKeepsAlive(c: Handshake.Connection, e: Handshake.Event)
    requires Handshake.Invariant(c) && Running(c) && Handshake.Alive(c) && Handshake.IsMessage(e)
    requires (e.VersionReceived? ==> e.parsed.Got?) && e != Handshake.OtherReceived(true)
    ensures var d := Handshake.Step(c, e); Running(d) && Handshake.Alive(d) && c.acksSent <= d.acksSent <= 1
  {}

  /** What y reads next, while it still waits for x, is no obstacle. */
  lemma NextIsHarmless(p: Protocol, x: End, y: End, l: EndToEnd.Link)
    requires Direction(p, x, y) && Running(y.connection) && Handshake.Alive(y.connection) && Clear(p, x)
    requires y.connection.status != Handshake.Connected && Unread(x.outgoing) > 0
    requires l == EndToEnd.LinkStep(p.parsers.sha, p.network, x.outgoing, EndToEnd.Receive(1))
    ensures var ms := Arrived(x.outgoing, l);
            && |ms| <= 1
            && (forall m :: m in ms ==>
                  !StopsReader(p, m) && (m.header.command == Version ==> m.payload == x.versionPayload))
    ensures Clear(p, x.(outgoing := l))
  {
    hide Has, WellFormed, EndToEnd.LinkStep, Transported, StopsReader, Heard;
    NoAckYet(p, x, y);
    ByteRead(p, x);
    var ms := Arrived(x.outgoing, l);
    forall m | m in ms
      ensures !StopsReader(p, m) && (m.header.command == Version ==> m.payload == x.versionPayload)
    {
      var j := |x.outgoing.delivered|;
      assert ms[0] == l.delivered[j];
      assert m == Log(x)[j] && Log(x)[..j] == x.outgoing.delivered;
      assert m in Log(x) && MaySend(p, x, m);
      assert !Obstacle(p, Log(x), j);
    }
  }

  /** A read of one byte at x, which still waits for y. */
  lemma ReadKeepsAlive(p: Protocol, x: End, y: End)
    requires Ready(p, x, y) && Unread(y.outgoing) > 0 && x.connection.status != Handshake.Connected
    ensures var (x', y') := Act(p, x, y, BytesAvailable(1));
            && Running(x'.connection) && Handshake.Alive(x'.connection)
            && x.connection.acksSent <= x'.connection.acksSent <= 1
            && Clear(p, y')
  {
    hide Speaks, Has, Handshake.Exec, EndToEnd.LinkStep, Transported, StopsReader, Clear, Unread, Arrived;
    hide EventsOf, VersionAcks, Handshake.Invariant;
    var (x', y') := Act(p, x, y, BytesAvailable(1));
    NextIsHarmless(p, y, x, y'.outgoing);
    OneMessage(p, x.connection, Arrived(y.outgoing, y'.outgoing), y.versionPayload);
  }

  lemma AcksAreClear(p: Protocol, x: End, messages: seq<Message>)
    requires Clear(p, x)
    ensures Clear(p, Report(p, x, messages))
  {
    hide Handshake.Exec, Has, WellFormed, VersionAcks, EventsOf;
    var x' := Report(p, x, messages);
    var n := x'.connection.acksSent - x.connection.acksSent;
    AcksSay(p, n);
    var acks := VersionAcks(p.parsers.sha, p.network, n);
    assert Log(x') == Log(x) + acks;
    forall j | |x'.outgoing.delivered| <= j < |Log(x')|
      ensures !Obstacle(p, Log(x'), j)
    {
      if j < |Log(x)| {
        assert Log(x')[..j] == Log(x)[..j];
        assert !Obstacle(p, Log(x), j);
      } else {
        assert Log(x')[j] == acks[j - |Log(x)|] && Log(x')[j] in acks;
      }
    }
  }

  lemma ReadingProgress(p: Protocol, x: End, y: End)
    requires Ready(p, x, y) && Unread(y.outgoing) > 0 && x.connection.status != Handshake.Connected
    ensures var (x', y') := Act(p, x, y, BytesAvailable(1));
            Ready(p, x', y') && WorkOf(x', y').LessThan(WorkOf(x, y))
  {
    hide Direction, Handshake.Exec, EndToEnd.LinkStep, Arrived, Unread, Clear, VersionAcks, EventsOf;
    var (x', y') := Act(p, x, y, BytesAvailable(1));
    ReceiveKeeps(p, x, y, 1);
    ReadKeepsAlive(p, x, y);
    AcksAreClear(p, x, Arrived(y.outgoing, y'.outgoing));
    DirectionReads(p, y, x);
    NoAcks(p);
  }

  lemma NoAcks(p: Protocol)
    ensures VersionAcks(p.parsers.sha, p.network, 0) == []
  {}

  lemma DirectionReads(p: Protocol, x: End, y: End)
    requires Direction(p, x, y) && Unread(x.outgoing) > 0
    ensures var l := EndToEnd.LinkStep(p.parsers.sha, p.network, x.outgoing, EndToEnd.Receive(1));
            l.pump == x.outgoing.pump && Unread(l) == Unread(x.outgoing) - 1
  {
    hide Speaks, Transported, Hears;
    ByteRead(p, x);
  }

  lemma SendingProgress(p: Protocol, x: End, y: End) returns (a: Action)
    requires Ready(p, x, y)
    requires x.scheduled != [] || x.outgoing.pump.queue != [] || x.outgoing.pump.pending != []
    ensures var (x', y') := Act(p, x, y, a);
            HonestAction(a) && Ready(p, x', y') && WorkOf(x', y').LessThan(WorkOf(x, y))
  {
    hide Direction, MessageBytes, Obstacle;
    a := if x.scheduled != [] then RunEnqueue(false, 0) else SpaceAvailable(true, |x.outgoing.pump.pending|);
    ActKeeps(p, x, y, a);
    assert Log(Act(p, x, y, a).0) == Log(x);
  }

  /** What is said by x and not yet done can be gone on with. */
  lemma DirectionProgress(p: Protocol, x: End, y: End) returns (atX: bool, a: Action)
    requires Ready(p, x, y) && !Drained(x) && y.connection.status != Handshake.Connected
    ensures HonestAction(a)
    ensures atX ==> var (x', y') := Act(p, x, y, a); Ready(p, x', y') && WorkOf(x', y').LessThan(WorkOf(x, y))
    ensures !atX ==> var (y', x') := Act(p, y, x, a); Ready(p, y', x') && WorkOf(y', x').LessThan(WorkOf(y, x))
  {
    hide Direction, Act, Clear;
    atX := x.scheduled != [] || x.outgoing.pump.queue != [] || x.outgoing.pump.pending != [];
    if atX {
      a := SendingProgress(p, x, y);
    } else {
      a := BytesAvailable(1);
      ReceivedWritten(p, x, y);
      ReadingProgress(p, y, x);
    }
  }

  lemma ReceivedWritten(p: Protocol, x: End, y: End)
    requires Direction(p, x, y)
    ensures x.outgoing.received <= |x.outgoing.pump.written|
  {
    hide Speaks, Hears, MessageParser.Run, MessageParser.Messages;
  }

  /** If y has read everything and still waits, so does x, and y has more to say. */
  lemma NotBothDrained(p: Protocol, x: End, y: End)
    requires Ready(p, x, y) && Drained(x) && y.connection.status != Handshake.Connected
    ensures x.connection.status != Handshake.Connected && !Drained(y)
  {
    hide Has, Transported, Drained, MaySend, Clear;
    DrainedIsHeard(p, x, y);
    VersionIsFirst(Log(x));
    if Drained(y) {
      DrainedConnects(p, x, y);
    }
  }

  /** One useful event at either end, unless both are connected. */
  lemma Progress(p: Protocol, w: World) returns (e: Event)
    requires Ready(p, w.left, w.right) && !BothConnected(w)
    ensures var w' := Step(p, w, e);
            && HonestAction(e.action) && Ready(p, w'.left, w'.right)
            && WorkOf(w'.left, w'.right).LessThan(WorkOf(w.left, w.right))
  {
    hide Direction, Act, Clear, Drained;
    if w.right.connection.status != Handshake.Connected && !Drained(w.left) {
      var atLeft, a := DirectionProgress(p, w.left, w.right);
      e := if atLeft then AtLeft(a) else AtRight(a);
    } else {
      if w.right.connection.status != Handshake.Connected {
        NotBothDrained(p, w.left, w.right);
      } else if Drained(w.right) {
        NotBothDrained(p, w.right, w.left);
      }
      var atRight, a := DirectionProgress(p, w.right, w.left);
      e := if atRight then AtRight(a) else AtLeft(a);
    }
  }

  lemma AtMostTwoAcks(p: Protocol, x: End, y: End)
    requires Ready(p, x, y)
    ensures WorkOf(x, y).versions >= 0
  {
    hide Has, Transported, Speaks, Clear;
  }

  lemma {:induction false} Completion(p: Protocol, w: World) returns (more: seq<Event>)
    requires Ready(p, w.left, w.right)
    ensures Honest(more) && BothConnected(Exec(p, w, more))
    decreases WorkOf(w.left, w.right).versions, WorkOf(w.left, w.right).blocks,
              WorkOf(w.left, w.right).messages, WorkOf(w.left, w.right).bytes, WorkOf(w.left, w.right).unread
  {
    hide Ready, Step;
    AtMostTwoAcks(p, w.left, w.right);
    if BothConnected(w) {
      more := [];
    } else {
      var e := Progress(p, w);
      var rest := Completion(p, Step(p, w, e));
      more := [e] + rest;
      ExecCons(p, w, e, rest);
    }
  }

  // ---------------------------------------------------------------------------------------
  // An obstacle never goes away.
  // ---------------------------------------------------------------------------------------

  /** Message j of x is an obstacle, and y has not read it, or it has stopped y. */
  ghost predicate Blocked(p: Protocol, x: End, y: End, j: nat) {
    && j < |Log(x)| && Obstacle(p, Log(x), j)
    && (j < |x.outgoing.delivered| ==> y.connection.halt != Handshake.No)
  }

  lemma BlockedNeverConnected(p: Protocol, x: End, y: End, j: nat)
    requires Direction(p, x, y) && Blocked(p, x, y, j) && Running(y.connection)
    ensures y.connection.status != Handshake.Connected
  {
    hide Has, Pumps.Stream, MessageBytes, EndToEnd.InStep, WellFormed, StopsReader;
    var ms := x.outgoing.delivered;
    assert forall m :: m in x.enqueued ==> m in Log(x) && MaySend(p, x, m);
    EndToEnd.DeliveredOf(p.parsers.sha, p.network, x.outgoing, x.enqueued);
    if Has(ms, VersionAck) {
      assert Log(x)[..j] == ms + Log(x)[|ms|..j];
      HasConcat(ms, Log(x)[|ms|..j], VersionAck);
    }
  }

  lemma SpeakerStaysBlocked(p: Protocol, x: End, y: End, a: Action, j: nat)
    requires Direction(p, x, y) && Direction(p, y, x) && Blocked(p, x, y, j)
    ensures var (x', y') := Act(p, x, y, a); Blocked(p, x', y', j)
  {
    hide Direction, Act, StopsReader, Has;
    ActFrame(p, x, y, a);
    var (x', y') := Act(p, x, y, a);
    assert Log(x')[..j] == Log(x)[..j];
  }

  lemma {:induction false} HaltForever(c: Handshake.Connection, events: seq<Handshake.Event>)
    requires c.halt != Handshake.No
    ensures Handshake.Exec(c, events) == c
  {
    if events != [] {
      HaltForever(c, events[..|events| - 1]);
    }
  }

  /** A connection does not get past a message that stops its reader. */
  lemma {:induction false} ObstacleHalts(p: Protocol, c: Handshake.Connection, ms: seq<Message>, i: nat)
    requires c.thread == Handshake.Executing && i < |ms| && StopsReader(p, ms[i])
    ensures Handshake.Exec(c, EventsOf(p.parsers, ms)).halt != Handshake.No
  {
    hide Handshake.Step, Parsers.Stops, Parsers.Traps;
    var events := EventsOf(p.parsers, ms);
    var front, last := ms[..|ms| - 1], events[|ms| - 1];
    assert events[..|ms| - 1] == EventsOf(p.parsers, front);
    var d := Handshake.Exec(c, EventsOf(p.parsers, front));
    if i < |front| {
      ObstacleHalts(p, c, front, i);
    } else {
      p.parsers.TrapsExactly(ms[i].header.command, ms[i].payload);
      StaysExecuting(p, c, front);
    }
    StoppedByTrap(d, last);
  }

  lemma StoppedByTrap(d: Handshake.Connection, e: Handshake.Event)
    ensures d.halt != Handshake.No ==> Handshake.Step(d, e) == d
    ensures d.thread == Handshake.Executing && e == Handshake.OtherReceived(true) ==>
              Handshake.Step(d, e).halt != Handshake.No
  {}

  lemma {:induction false} StaysExecuting(p: Protocol, c: Handshake.Connection, ms: seq<Message>)
    requires c.thread == Handshake.Executing
    ensures Handshake.Exec(c, EventsOf(p.parsers, ms)).thread == Handshake.Executing
  {
    hide Parsers.Traps, Handshake.Step, EventOf;
    if ms != [] {
      var front := ms[..|ms| - 1];
      StaysExecuting(p, c, front);
      assert EventsOf(p.parsers, ms)[..|ms| - 1] == EventsOf(p.parsers, front);
      HearingKeepsThread(p, Handshake.Exec(c, EventsOf(p.parsers, front)), ms[|ms| - 1]);
    }
  }

  lemma HearingKeepsThread(p: Protocol, c: Handshake.Connection, m: Message)
    ensures Handshake.Step(c, EventOf(p.parsers, m)).thread == c.thread
  {
    hide Parsers.Traps;
  }

  lemma StoppedStays(p: Protocol, x: End, y: End, a: Action)
    requires x.connection.halt != Handshake.No
    ensures Act(p, x, y, a).0.connection == x.connection
    ensures Act(p, x, y, a).1.outgoing == y.outgoing
  {
    hide EndToEnd.LinkStep;
  }

  lemma ReaderStaysBlocked(p: Protocol, x: End, y: End, a: Action, j: nat)
    requires Direction(p, x, y) && Direction(p, y, x) && Blocked(p, x, y, j)
    ensures var (y', x') := Act(p, y, x, a); Blocked(p, x', y', j)
  {
    hide StopsReader, Has, Handshake.Exec, Handshake.Step, EndToEnd.LinkStep, Transported, WellFormed, EventsOf, VersionAcks;
    var (y', x') := Act(p, y, x, a);
    LogKept(p, y, x, a);
    if y.connection.halt != Handshake.No {
      StoppedStays(p, y, x, a);
    } else if a.BytesAvailable? && Running(y.connection) {
      ReadKeeps(p, x, a.n);
      if |x.outgoing.delivered| <= j < |x'.outgoing.delivered| {
        var ms := Arrived(x.outgoing, x'.outgoing);
        ReadIsSaid(p, x, x'.outgoing);
        assert ms[j - |x.outgoing.delivered|] == Log(x)[j];
        ObstacleHalts(p, y.connection, ms, j - |x.outgoing.delivered|);
      }
    }
  }

  lemma LogKept(p: Protocol, y: End, x: End, a: Action)
    requires Direction(p, x, y) && Direction(p, y, x)
    ensures Log(Act(p, y, x, a).1) == Log(x)
  {
    hide Direction, Act;
    ActFrame(p, y, x, a);
  }

  lemma ReadIsSaid(p: Protocol, x: End, l: EndToEnd.Link)
    requires Speaks(p, x) && Transported(p, l, x.enqueued)
    ensures l.delivered <= Log(x)
  {
    hide EndToEnd.InStep, Pumps.Stream, MessageBytes, WellFormed, Has;
    assert forall m :: m in x.enqueued ==> m in Log(x) && MaySend(p, x, m);
    EndToEnd.DeliveredOf(p.parsers.sha, p.network, l, x.enqueued);
  }

  ghost predicate Hopeless(p: Protocol, w: World) {
    || (exists j :: Blocked(p, w.left, w.right, j))
    || (exists j :: Blocked(p, w.right, w.left, j))
  }

  lemma StepStaysHopeless(p: Protocol, w: World, e: Event)
    requires Direction(p, w.left, w.right) && Direction(p, w.right, w.left) && Hopeless(p, w)
    ensures Hopeless(p, Step(p, w, e))
  {
    hide Direction, Act, Blocked;
    if j :| Blocked(p, w.left, w.right, j) {
      match e
      case AtLeft(a) => SpeakerStaysBlocked(p, w.left, w.right, a, j);
      case AtRight(a) => ReaderStaysBlocked(p, w.left, w.right, a, j);
    } else {
      var j :| Blocked(p, w.right, w.left, j);
      match e
      case AtLeft(a) => ReaderStaysBlocked(p, w.right, w.left, a, j);
      case AtRight(a) => SpeakerStaysBlocked(p, w.right, w.left, a, j);
    }
  }

  lemma {:induction false} StaysHopeless(p: Protocol, w: World, more: seq<Event>)
    requires Direction(p, w.left, w.right) && Direction(p, w.right, w.left) && Hopeless(p, w) && Honest(more)
    ensures !BothConnected(Exec(p, w, more))
    ensures var w' := Exec(p, w, more);
            Direction(p, w'.left, w'.right) && Direction(p, w'.right, w'.left) && Hopeless(p, w')
  {
    hide Direction, Act, Blocked, Hopeless;
    if more != [] {
      var front, e := more[..|more| - 1], more[|more| - 1];
      assert forall x :: x in front ==> x in more;
      StaysHopeless(p, w, front);
      assert e in more;
      StepStaysHopeless(p, Exec(p, w, front), e);
      StepKeepsDirections(p, Exec(p, w, front), e);
    }
    HopelessNotConnected(p, Exec(p, w, more));
  }

  lemma HopelessNotConnected(p: Protocol, w: World)
    requires Direction(p, w.left, w.right) && Direction(p, w.right, w.left) && Hopeless(p, w)
    ensures !BothConnected(w)
  {
    hide Direction, Blocked;
    if BothConnected(w) {
      if j :| Blocked(p, w.left, w.right, j) {
        BlockedNeverConnected(p, w.left, w.right, j);
      } else {
        var j :| Blocked(p, w.right, w.left, j);
        BlockedNeverConnected(p, w.right, w.left, j);
      }
    }
  }

  lemma StepKeepsDirections(p: Protocol, w: World, e: Event)
    requires Direction(p, w.left, w.right) && Direction(p, w.right, w.left) && HonestAction(e.action)
    ensures var w' := Step(p, w, e); Direction(p, w'.left, w'.right) && Direction(p, w'.right, w'.left)
  {
    hide Direction, Act;
    match e
    case AtLeft(a) => ActKeeps(p, w.left, w.right, a);
    case AtRight(a) => ActKeeps(p, w.right, w.left, a);
  }

  // ---------------------------------------------------------------------------------------
  // The results.
  // ---------------------------------------------------------------------------------------

  ghost predicate CanComplete(p: Protocol, w: World) {
    exists more :: Honest(more) && BothConnected(Exec(p, w, more))
  }

  /** From a state in which both ends run and neither has given up, the exchange can still be
      completed exactly when each end can parse the version of the other, and nothing that has been
      said, not been read, and comes before any ack stops the parser of its payload. */
  lemma CanCompleteIff(p: Protocol, left: Payload, right: Payload, events: seq<Event>)
    requires Honest(events) && BothAlive(Exec(p, Start(left, right), events))
    ensures var w := Exec(p, Start(left, right), events);
            CanComplete(p, w) <==>
              && p.parsers.parseVersion(left).Got? && p.parsers.parseVersion(right).Got?
              && Clear(p, w.left) && Clear(p, w.right)
  {
    hide Direction, Act, Obstacle, Agreed;
    var w := Exec(p, Start(left, right), events);
    ExecKeeps(p, left, right, events);
    if p.parsers.parseVersion(left).Got? && p.parsers.parseVersion(right).Got? && Clear(p, w.left) && Clear(p, w.right) {
      var more := Completion(p, w);
    }
    if more :| Honest(more) && BothConnected(Exec(p, w, more)) {
      ExecConcat(p, Start(left, right), events, more);
      BothConnectedParsed(p, left, right, events + more);
      if !Clear(p, w.left) || !Clear(p, w.right) {
        NotClearIsHopeless(p, w);
        StaysHopeless(p, w, more);
      }
    }
  }

  lemma BothConnectedParsed(p: Protocol, left: Payload, right: Payload, events: seq<Event>)
    requires Honest(events) && BothConnected(Exec(p, Start(left, right), events))
    ensures p.parsers.parseVersion(left).Got? && p.parsers.parseVersion(right).Got?
  {
    hide Act;
    Agreement(p, left, right, events);
    ExecKeeps(p, left, right, events);
  }

  lemma NotClearIsHopeless(p: Protocol, w: World)
    requires !Clear(p, w.left) || !Clear(p, w.right)
    ensures Hopeless(p, w)
  {
    hide Obstacle;
    if !Clear(p, w.left) {
      var j :| |w.left.outgoing.delivered| <= j < |Log(w.left)| && Obstacle(p, Log(w.left), j);
      assert Blocked(p, w.left, w.right, j);
    } else {
      var j :| |w.right.outgoing.delivered| <= j < |Log(w.right)| && Obstacle(p, Log(w.right), j);
      assert Blocked(p, w.right, w.left, j);
    }
  }

  /** Both ends connect and start their threads; they have said nothing but their versions. */
  lemma Opening(p: Protocol, left: Payload, right: Payload) returns (events: seq<Event>)
    ensures Honest(events)
    ensures var w := Exec(p, Start(left, right), events);
            BothAlive(w) && |Log(w.left)| == 1 && |Log(w.right)| == 1
  {
    hide MakeMessage, Act, NewEnd, Exec;
    var a, b := [AtLeft(Connect), AtLeft(ThreadStarts)], [AtRight(Connect), AtRight(ThreadStarts)];
    events := a + b;
    var w := Start(left, right);
    ExecConcat(p, w, a, b);
    TwoSteps(p, w, a[0], a[1]);
    EndOpens(p, left, w.right);
    TwoSteps(p, Exec(p, w, a), b[0], b[1]);
    EndOpens(p, right, Exec(p, w, a).left);
  }

  lemma EndOpens(p: Protocol, payload: Payload, y: End)
    ensures var (x1, y1) := Act(p, NewEnd(payload), y, Connect);
            var (x2, y2) := Act(p, x1, y1, ThreadStarts);
            Running(x2.connection) && Handshake.Alive(x2.connection) && |Log(x2)| == 1 && y2 == y
  {
    hide MakeMessage;
  }

  lemma TwoSteps(p: Protocol, w: World, e: Event, f: Event)
    ensures Exec(p, w, [e, f]) == Step(p, Step(p, w, e), f)
  {
    hide Step;
    ExecCons(p, w, e, [f]);
    ExecCons(p, Step(p, w, e), f, []);
    assert [e] + [f] == [e, f] && [f] + [] == [f];
  }

  lemma OneVersionIsClear(p: Protocol, x: End)
    requires Speaks(p, x) && |Log(x)| == 1
    ensures Clear(p, x)
  {
    hide Has, Parsers.Stops;
  }

  /** Two ends can become connected at the same time exactly when each can parse the version of
      the other. */
  lemma CanConnectIff(p: Protocol, left: Payload, right: Payload)
    ensures CanComplete(p, Start(left, right))
       <==> p.parsers.parseVersion(left).Got? && p.parsers.parseVersion(right).Got?
  {
    hide Act, Has, Transported, Hears, Clear, MaySend, BothConnected;
    var events := Opening(p, left, right);
    var start, w := Start(left, right), Exec(p, Start(left, right), events);
    ExecKeeps(p, left, right, events);
    OneVersionIsClear(p, w.left);
    OneVersionIsClear(p, w.right);
    CanCompleteIff(p, left, right, events);
    if CanComplete(p, w) {
      var more :| Honest(more) && BothConnected(Exec(p, w, more));
      ExecConcat(p, start, events, more);
      assert Honest(events + more);
    }
    if more :| Honest(more) && BothConnected(Exec(p, start, more)) {
      BothConnectedParsed(p, left, right, more);
    }
  }
}
