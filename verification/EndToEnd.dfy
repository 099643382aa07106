/**
 Sender, transport and receiver together: what is enqueued on one side is delivered on the other.
 */
module EndToEnd {
  import opened Binary
  import opened BitcoinEncoding
  import opened BitcoinDecoding
  import opened Message
  import opened MessageParser
  import opened Payloads
  import opened Framing
  import Pumps = SendPump
  import Handshake
  import opened PeerConnection

  /** `received` counts the bytes that have arrived, of those the sender has written. */
  datatype Link = Link(pump: Pumps.Pump, received: nat, parser: State, delivered: seq<Message>)

  const IDLE := Link(Pumps.EMPTY, 0, State([], None), [])

  /** The sender does something, or the receiver reads up to n bytes, never more than its buffer. */
  datatype LinkEvent = Sender(event: Pumps.PumpEvent) | Receive(n: nat)

  function Arriving(l: Link, n: nat): (k: nat)
    requires l.received <= |l.pump.written|
    ensures l.received + k <= |l.pump.written|
  {
    var available := |l.pump.written| - l.received;
    var bound := if n < READ_BUFFER_SIZE then n else READ_BUFFER_SIZE;
    if bound < available then bound else available
  }

  function LinkStep(sha: Hash, network: uint32, l: Link, e: LinkEvent): Link {
    match e
    case Sender(event) => l.(pump := Pumps.Step(l.pump, event))
    case Receive(n) =>
      if l.received > |l.pump.written| then l
      else
        var k := Arriving(l, n);
        if k == 0 then l
        else
          var (log, s) := Run(sha, network, l.parser.Append(l.pump.written[l.received..l.received + k]));
          Link(l.pump, l.received + k, s, l.delivered + Messages(log))
  }

  function Exec(sha: Hash, network: uint32, events: seq<LinkEvent>): Link {
    if events == [] then IDLE
    else LinkStep(sha, network, Exec(sha, network, events[..|events| - 1]), events[|events| - 1])
  }

  function SenderEvents(events: seq<LinkEvent>): seq<Pumps.PumpEvent> {
    if events == [] then []
    else
      var e := events[|events| - 1];
      SenderEvents(events[..|events| - 1]) + (if e.Sender? then [e.event] else [])
  }

  function Enqueued(events: seq<LinkEvent>): seq<Message> {
    Pumps.Enqueued(SenderEvents(events))
  }

  lemma {:induction false} SenderRuns(sha: Hash, network: uint32, events: seq<LinkEvent>)
    ensures Exec(sha, network, events).pump == Pumps.Exec(SenderEvents(events))
  {
    hide Pumps.Step, Run;
    if events == [] {
    } else {
      var front, e := events[..|events| - 1], events[|events| - 1];
      SenderRuns(sha, network, front);
      if e.Sender? {
        var all := SenderEvents(front) + [e.event];
        assert all[..|all| - 1] == SenderEvents(front);
      } else {
        assert SenderEvents(events) == SenderEvents(front);
      }
    }
  }

  /** The receiver has done exactly what it would do on the bytes so far in one piece. */
  ghost predicate InStep(sha: Hash, network: uint32, l: Link) {
    && l.received <= |l.pump.written|
    && var (log, s) := Run(sha, network, State(l.pump.written[..l.received], None));
       l.delivered == Messages(log) && l.parser == s
  }

  lemma LinkStepKeepsInStep(sha: Hash, network: uint32, l: Link, e: LinkEvent)
    requires InStep(sha, network, l)
    ensures InStep(sha, network, LinkStep(sha, network, l, e))
  {
    hide Run, Pumps.Step, Messages;
    match e
    case Sender(event) =>
      Pumps.StepConserves(l.pump, event);
      assert Pumps.Step(l.pump, event).written[..l.received] == l.pump.written[..l.received];
    case Receive(n) =>
      var k := Arriving(l, n);
      if k > 0 {
        var w := l.pump.written;
        var before, chunk := State(w[..l.received], None), w[l.received..l.received + k];
        assert before.Append(chunk) == State(w[..l.received + k], None);
        MessagesAppend(sha, network, before, chunk);
      }
  }

  lemma MessagesAppend(sha: Hash, network: uint32, s: State, b: Bytes)
    ensures var (log, s1) := Run(sha, network, s);
            var (more, s2) := Run(sha, network, s1.Append(b));
            var (all, s3) := Run(sha, network, s.Append(b));
            Messages(all) == Messages(log) + Messages(more) && s3 == s2
  {
    hide Run, Messages, Frames;
    RunAppend(sha, network, s, b);
    var (log, s1) := Run(sha, network, s);
    var more := Run(sha, network, s1.Append(b)).0;
    MessagesOfFrames(log);
    MessagesOfFrames(more);
    MessagesOfFrames(Run(sha, network, s.Append(b)).0);
    MessagesConcat(Frames(log), Frames(more));
  }

  lemma {:induction false} ExecInStep(sha: Hash, network: uint32, events: seq<LinkEvent>)
    ensures InStep(sha, network, Exec(sha, network, events))
  {
    hide InStep, LinkStep;
    if events == [] {
      IdleInStep(sha, network);
    } else {
      ExecInStep(sha, network, events[..|events| - 1]);
      LinkStepKeepsInStep(sha, network, Exec(sha, network, events[..|events| - 1]), events[|events| - 1]);
    }
  }

  lemma IdleInStep(sha: Hash, network: uint32)
    ensures InStep(sha, network, IDLE)
  {
    hide Run, Messages;
    EmptyRun(sha, network);
  }

  /** What a receiver in step has delivered, given the messages enqueued on the other side. */
  lemma DeliveredOf(sha: Hash, network: uint32, l: Link, ms: seq<Message>)
    requires InStep(sha, network, l) && Pumps.Stream(l.pump) == EncodeAll(MessageBytes, ms)
    requires forall m :: m in ms ==> WellFormed(sha, network, m)
    ensures l.delivered <= ms
    ensures l.pump.queue == [] && l.pump.pending == [] && l.received == |l.pump.written| ==>
              l.delivered == ms && l.parser == State([], None)
  {
    hide Run, Messages, WellFormed, MessageBytes;
    var stream := EncodeAll(MessageBytes, ms);
    CleanStream(sha, network, ms);
    var before := State(l.pump.written[..l.received], None);
    var rest := stream[l.received..];
    assert l.pump.written <= stream;
    assert before.Append(rest) == State(stream, None);
    MessagesAppend(sha, network, before, rest);
    if l.pump.queue == [] && l.pump.pending == [] && l.received == |l.pump.written| {
      assert EncodeAll(MessageBytes, l.pump.queue) == [];
      assert l.pump.written[..l.received] == stream;
    }
  }

  lemma {:induction false} MessagesInLog(log: seq<Event>)
    ensures |EncodeAll(MessageBytes, Messages(log))| <= |EncodeAll(EventBytes, log)|
  {
    hide MessageBytes;
    if log != [] {
      var front, e := log[..|log| - 1], log[|log| - 1];
      MessagesInLog(front);
      EncodeAllConcat(MessageBytes, Messages(front), if e.Delivered? then [e.message] else []);
      EncodeAllStep(EventBytes, log, |front|);
    }
  }

  /** A message is delivered exactly when its last byte has arrived. */
  lemma DeliveredExactly(sha: Hash, network: uint32, l: Link, ms: seq<Message>, k: nat)
    requires InStep(sha, network, l) && Pumps.Stream(l.pump) == EncodeAll(MessageBytes, ms)
    requires forall m :: m in ms ==> WellFormed(sha, network, m)
    requires k <= |ms|
    ensures k <= |l.delivered| <==> |EncodeAll(MessageBytes, ms[..k])| <= l.received
  {
    hide Run, Messages, WellFormed, MessageBytes, EncodeAll;
    DeliveredOf(sha, network, l, ms);
    var bytes, part := l.pump.written[..l.received], EncodeAll(MessageBytes, ms[..k]);
    SplitStream(ms, k);
    assert bytes <= EncodeAll(MessageBytes, ms);
    if |part| <= l.received {
      assert part <= bytes;
      CleanStream(sha, network, ms[..k]);
      assert State(part, None).Append(bytes[|part|..]) == State(bytes, None);
      MessagesAppend(sha, network, State(part, None), bytes[|part|..]);
    }
    if k <= |l.delivered| {
      var (log, last) := Run(sha, network, State(bytes, None));
      RunConserves(sha, network, State(bytes, None));
      MessagesInLog(log);
      assert l.delivered == l.delivered[..k] + l.delivered[k..] && ms[..k] == l.delivered[..k];
      EncodeAllConcat(MessageBytes, l.delivered[..k], l.delivered[k..]);
    }
  }

  lemma SplitStream(ms: seq<Message>, k: nat)
    requires k <= |ms|
    ensures EncodeAll(MessageBytes, ms) == EncodeAll(MessageBytes, ms[..k]) + EncodeAll(MessageBytes, ms[k..])
  {
    hide MessageBytes;
    assert ms == ms[..k] + ms[k..];
    EncodeAllConcat(MessageBytes, ms[..k], ms[k..]);
  }

  /** In every reachable state of the whole system the messages delivered are a prefix of the
      messages enqueued; when nothing is left in the queue, pending or in transit, they are all
      of them, and the receiving parser is empty again. */
  lemma Delivery(sha: Hash, network: uint32, events: seq<LinkEvent>)
    requires forall m :: m in Enqueued(events) ==> WellFormed(sha, network, m)
    ensures var l := Exec(sha, network, events);
            && l.delivered <= Enqueued(events)
            && (l.pump.queue == [] && l.pump.pending == [] && l.received == |l.pump.written| ==>
                  l.delivered == Enqueued(events) && l.parser == State([], None))
  {
    hide InStep, Pumps.Stream, WellFormed, MessageBytes, Exec, Enqueued;
    ExecInStep(sha, network, events);
    PumpStream(sha, network, events);
    DeliveredOf(sha, network, Exec(sha, network, events), Enqueued(events));
  }

  lemma PumpStream(sha: Hash, network: uint32, events: seq<LinkEvent>)
    ensures Pumps.Stream(Exec(sha, network, events).pump) == EncodeAll(MessageBytes, Enqueued(events))
  {
    SenderRuns(sha, network, events);
    Pumps.Conservation(SenderEvents(events));
  }

  // ---------------------------------------------------------------------------------------
  // The handshake over the wire.
  // ---------------------------------------------------------------------------------------

  /** What becomes of the first version message among the messages. */
  function AnnouncedVersion(parsers: Parsers, ms: seq<Message>): Option<Outcome<Bytes>> {
    if ms == [] then None
    else if ms[0].header.command == Version then Some(parsers.parseVersion(ms[0].payload))
    else AnnouncedVersion(parsers, ms[1..])
  }

  /** The bytes of a payload that its parser is given stop it. */
  ghost predicate StopsParser(parsers: Parsers, ms: seq<Message>, k: nat)
    requires k < |ms|
  {
    match ms[k].header.command
    case Version => AnnouncedVersion(parsers, ms[..k]).None? && parsers.parseVersion(ms[k].payload).Trapped?
    case VersionAck => false
    case command => parsers.Stops(command, ms[k].payload)
  }

  /** A version message behind one that did not parse. */
  predicate FailsAssertion(parsers: Parsers, ms: seq<Message>, k: nat)
    requires k < |ms|
  {
    ms[k].header.command == Version && AnnouncedVersion(parsers, ms[..k]) == Some(GotNil)
  }

  ghost predicate NoneEnds(parsers: Parsers, ms: seq<Message>, n: nat)
    requires n <= |ms|
  {
    forall j :: 0 <= j < n ==> !StopsParser(parsers, ms, j) && !FailsAssertion(parsers, ms, j)
  }

  /** The program goes through the first k messages, and they are all or the next one ends it. */
  ghost predicate HearsOnly(parsers: Parsers, ms: seq<Message>, k: nat)
    requires k <= |ms|
  {
    NoneEnds(parsers, ms, k) && (k < |ms| ==> StopsParser(parsers, ms, k) || FailsAssertion(parsers, ms, k))
  }

  predicate HasAck(ms: seq<Message>) {
    exists i :: 0 <= i < |ms| && ms[i].header.command == VersionAck
  }

  lemma {:induction false} FirstVersionOfEvents(parsers: Parsers, ms: seq<Message>)
    ensures Handshake.FirstVersion(EventsOf(parsers, ms)) == AnnouncedVersion(parsers, ms)
  {
    hide Parsers.Traps;
    var es := EventsOf(parsers, ms);
    if ms == [] {
    } else {
      var tail := EventsOf(parsers, ms[1..]);
      assert es == [es[0]] + tail;
      FirstVersionOfEvents(parsers, ms[1..]);
      FirstVersionCons(es[0], tail);
    }
  }

  lemma {:induction false} FirstVersionCons(e: Handshake.Event, es: seq<Handshake.Event>)
    ensures Handshake.FirstVersion([e] + es)
         == if e.VersionReceived? then Some(e.parsed) else Handshake.FirstVersion(es)
  {
    var all := [e] + es;
    if es == [] {
      assert all[..|all| - 1] == [];
    } else {
      FirstVersionCons(e, es[..|es| - 1]);
      assert all[..|all| - 1] == [e] + es[..|es| - 1];
    }
  }

  lemma EventEnds(parsers: Parsers, ms: seq<Message>, k: nat)
    requires k < |ms|
    ensures Handshake.StopsParser(EventsOf(parsers, ms), k) <==> StopsParser(parsers, ms, k)
    ensures Handshake.FailsAssertion(EventsOf(parsers, ms), k) <==> FailsAssertion(parsers, ms, k)
  {
    hide Parsers.Traps, Parsers.Stops;
    parsers.TrapsExactly(ms[k].header.command, ms[k].payload);
    FirstVersionOfEvents(parsers, ms[..k]);
    assert EventsOf(parsers, ms)[..k] == EventsOf(parsers, ms[..k]);
  }

  lemma EventsHaveAck(parsers: Parsers, ms: seq<Message>)
    ensures Handshake.HasAck(EventsOf(parsers, ms)) <==> HasAck(ms)
  {
    hide Parsers.Traps;
    var events := EventsOf(parsers, ms);
    Handshake.HasAckMeans(events);
    if Handshake.AckReceived in events {
      var i :| 0 <= i < |events| && events[i] == Handshake.AckReceived;
      assert ms[i].header.command == VersionAck;
    }
    if i :| 0 <= i < |ms| && ms[i].header.command == VersionAck {
      assert events[i] == Handshake.AckReceived;
    }
  }

  /** A waiting connection that has heard the messages, none of which has stopped the program: it is
      open exactly when the first version message parsed and an ack was there, and it has then told
      its delegate about that version. */
  predicate Heard(parsers: Parsers, ms: seq<Message>, d: Handshake.Connection) {
    var first := AnnouncedVersion(parsers, ms);
    && (d.status == Handshake.Connected <==> first.Some? && first.value.Got? && HasAck(ms))
    && (d.status == Handshake.Disconnecting <==> first == Some(GotNil))
    && (d.status == Handshake.Connected ==> d.notifications == [Handshake.DidConnect(first.value.value)])
  }

  lemma ReachedIsHeard(parsers: Parsers, c: Handshake.Connection, ms: seq<Message>, d: Handshake.Connection)
    requires Handshake.Fresh(c) && Handshake.Reached(c, EventsOf(parsers, ms), d)
    ensures Heard(parsers, ms, d)
  {
    hide HasAck, Handshake.HasAck, EventsOf;
    FirstVersionOfEvents(parsers, ms);
    EventsHaveAck(parsers, ms);
  }

  /** What the messages have done to a waiting connection. */
  lemma HeardSoFar(parsers: Parsers, c: Handshake.Connection, ms: seq<Message>, k: nat)
    requires Handshake.Fresh(c) && k <= |ms| && HearsOnly(parsers, ms, k)
    ensures Heard(parsers, ms[..k], Handshake.Exec(c, EventsOf(parsers, ms)))
  {
    hide Heard, StopsParser, FailsAssertion, Handshake.StopsParser, Handshake.FailsAssertion, Handshake.Exec;
    hide Handshake.Reached, Parsers.Traps;
    var events := EventsOf(parsers, ms);
    forall j | 0 <= j < |ms|
      ensures Handshake.Ends(events, j) <==> StopsParser(parsers, ms, j) || FailsAssertion(parsers, ms, j)
    {
      EventEnds(parsers, ms, j);
    }
    Handshake.ConnectsExactly(c, events);
    assert events[..k] == EventsOf(parsers, ms[..k]);
    assert ms[..|ms|] == ms;
    var d := Handshake.Exec(c, events);
    if k < |ms| {
      ReachedIsHeard(parsers, c, ms[..k], d.(halt := Handshake.No));
      HaltUnheard(parsers, ms[..k], d);
    } else {
      ReachedIsHeard(parsers, c, ms[..k], d);
    }
  }

  lemma HaltUnheard(parsers: Parsers, ms: seq<Message>, d: Handshake.Connection)
    ensures Heard(parsers, ms, d.(halt := Handshake.No)) <==> Heard(parsers, ms, d)
  {}

  /** A connection waiting for its peer, fed with the peer's messages in any pieces. The program is
      stopped by a payload exactly when the bytes of some message meet the guard of its parser and
      nothing before it has stopped the program; otherwise, and up to that point, the connection is
      what the first version message and the acks say. */
  lemma HandshakeOverWire(network: uint32, parsers: Parsers, c: Handshake.Connection, ms: seq<Message>,
                          chunks: seq<Bytes>)
    requires Handshake.Fresh(c)
    requires forall i :: 0 <= i < |ms| ==> WellFormed(parsers.sha, network, ms[i])
    requires Joined(chunks) == EncodeAll(MessageBytes, ms)
    ensures var messages := RunChunks(parsers.sha, network, State([], None), chunks).0;
            var d := Handshake.Exec(c, EventsOf(parsers, messages));
            && (d.halt == Handshake.PayloadParser <==>
                  exists k :: 0 <= k < |ms| && StopsParser(parsers, ms, k) && NoneEnds(parsers, ms, k))
            && (d.halt == Handshake.VersionAssertion <==>
                  exists k :: 0 <= k < |ms| && FailsAssertion(parsers, ms, k) && NoneEnds(parsers, ms, k))
            && (forall k :: 0 <= k <= |ms| && HearsOnly(parsers, ms, k) ==> Heard(parsers, ms[..k], d))
  {
    hide Run, Messages, WellFormed, MessageBytes, Handshake.Exec, Heard, Parsers.Traps;
    hide StopsParser, FailsAssertion, Handshake.StopsParser, Handshake.FailsAssertion, Handshake.Reached;
    var start := State([], None);
    EmptyRun(parsers.sha, network);
    ChunkInvariance(parsers.sha, network, start, chunks);
    assert start.Append(Joined(chunks)) == State(EncodeAll(MessageBytes, ms), None);
    CleanStream(parsers.sha, network, ms);
    var events := EventsOf(parsers, ms);
    forall j | 0 <= j < |ms|
      ensures Handshake.StopsParser(events, j) <==> StopsParser(parsers, ms, j)
      ensures Handshake.FailsAssertion(events, j) <==> FailsAssertion(parsers, ms, j)
    {
      EventEnds(parsers, ms, j);
    }
    EndsLikewise(parsers, ms);
    Handshake.ConnectsExactly(c, events);
    forall k | 0 <= k <= |ms| && HearsOnly(parsers, ms, k)
      ensures Heard(parsers, ms[..k], Handshake.Exec(c, events))
    {
      HeardSoFar(parsers, c, ms, k);
    }
  }

  lemma EndsLikewise(parsers: Parsers, ms: seq<Message>)
    ensures forall k :: 0 <= k <= |ms| ==>
              (Handshake.NoneEnds(EventsOf(parsers, ms), k) <==> NoneEnds(parsers, ms, k))
  {
    hide StopsParser, FailsAssertion, Handshake.StopsParser, Handshake.FailsAssertion;
    forall j | 0 <= j < |ms|
      ensures Handshake.Ends(EventsOf(parsers, ms), j)
         <==> StopsParser(parsers, ms, j) || FailsAssertion(parsers, ms, j)
    {
      EventEnds(parsers, ms, j);
    }
  }
}
