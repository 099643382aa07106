/**
 The version handshake of PeerConnection as a step machine.

 Steps are atomic. A failed precondition or assertion stops the program: no step changes a
 stopped connection. A thread can be started once.
 */
module Handshake {
  import opened Binary
  import opened BitcoinDecoding

  datatype Status = NotConnected | Connecting | Connected | Disconnecting

  /** The payload of the peer's version message. */
  type PeerVersion = Bytes

  datatype Notification = DidConnect(version: PeerVersion) | DidDisconnect

  /** `Starting` until the thread has a run loop; `Cancelled` once it has none any more. */
  datatype ThreadState = NotStarted | Starting | Executing | Cancelled

  datatype Halt =
    | No
    | ConnectPrecondition      // connectWithVersionMessage
    | VersionAssertion         // assert(status == .Connecting)
    | DidConnectPrecondition   // didConnect
    | NoRunLoop                // addOperationWithBlock
    | PayloadParser            // the parser of a received payload

  datatype Connection = Connection(
    status: Status,
    peerVersion: Option<PeerVersion>,
    receivedVersionAck: bool,
    timerArmed: bool,
    thread: ThreadState,
    teardowns: nat,              // disconnect blocks waiting on the network thread
    acksSent: nat,               // version acks queued for the peer
    notifications: seq<Notification>,
    halt: Halt)

  const INITIAL := Connection(NotConnected, None, false, false, NotStarted, 0, 0, [], No)

  datatype Event =
    | Connect
    | ThreadStarted
    | VersionReceived(parsed: Outcome<PeerVersion>)
    | AckReceived
    | OtherReceived(trapped: bool)
    | TimerFired
    | Disconnect               // by the user, or for a stream error or end
    | Send                     // sendMessageWithPayload
    | RunTeardown

  function DisconnectWithError(c: Connection): Connection {
    if c.status == Disconnecting || c.status == NotConnected then c
    else
      var d := c.(status := Disconnecting, timerArmed := false);
      if d.thread != Executing then d.(halt := NoRunLoop) else d.(teardowns := d.teardowns + 1)
  }

  function DidConnectStep(c: Connection): Connection {
    if c.status != Connecting || c.peerVersion.None? || !c.receivedVersionAck
    then c.(halt := DidConnectPrecondition)
    else c.(timerArmed := false, status := Connected,
            notifications := c.notifications + [DidConnect(c.peerVersion.value)])
  }

  /** Only a first version message is parsed. */
  function DidParseVersion(c: Connection, parsed: Outcome<PeerVersion>): Connection {
    if c.peerVersion.Some? then c
    else if c.status != Connecting then c.(halt := VersionAssertion)
    else if parsed.Trapped? then c.(halt := PayloadParser)
    else if parsed.GotNil? then DisconnectWithError(c)
    else
      var d := c.(peerVersion := Some(parsed.value), acksSent := c.acksSent + 1);
      if d.receivedVersionAck then DidConnectStep(d) else d
  }

  function DidParseAck(c: Connection): Connection {
    if c.status != Connecting then c
    else
      var d := c.(receivedVersionAck := true);
      if d.peerVersion.Some? then DidConnectStep(d) else d
  }

  function StartConnecting(c: Connection): Connection {
    if c.status != NotConnected || c.receivedVersionAck || c.timerArmed || c.thread != NotStarted
    then c.(halt := ConnectPrecondition)
    else c.(status := Connecting, timerArmed := true, thread := Starting)
  }

  function Teardown(c: Connection): Connection {
    c.(teardowns := if c.teardowns > 0 then c.teardowns - 1 else 0,
       peerVersion := None, receivedVersionAck := false, status := NotConnected,
       notifications := c.notifications + [DidDisconnect], thread := Cancelled)
  }

  /** Messages arrive, and blocks run, only while the network thread executes. */
  function Step(c: Connection, e: Event): Connection {
    if c.halt != No then c
    else
      match e
      case Connect => StartConnecting(c)
      case ThreadStarted => if c.thread == Starting then c.(thread := Executing) else c
      case VersionReceived(parsed) => if c.thread == Executing then DidParseVersion(c, parsed) else c
      case AckReceived => if c.thread == Executing then DidParseAck(c) else c
      case OtherReceived(trapped) => if c.thread == Executing && trapped then c.(halt := PayloadParser) else c
      case TimerFired =>
        if !c.timerArmed then c
        else
          var d := c.(timerArmed := false);
          if d.status == Connecting then DisconnectWithError(d) else d
      case Disconnect => DisconnectWithError(c)
      case Send => if c.thread == Executing then c else c.(halt := NoRunLoop)
      case RunTeardown => if c.thread == Executing && c.teardowns > 0 then Teardown(c) else c
  }

  predicate IsMessage(e: Event) {
    e.VersionReceived? || e.AckReceived? || e.OtherReceived?
  }

  /** A message changes nothing once the program has stopped or the thread is gone. */
  lemma Unheard(c: Connection, e: Event)
    requires IsMessage(e)
    requires c.halt != No || c.thread != Executing
    ensures Step(c, e) == c
  {}

  function Exec(c: Connection, events: seq<Event>): Connection {
    if events == [] then c else Step(Exec(c, events[..|events| - 1]), events[|events| - 1])
  }

  // ---------------------------------------------------------------------------------------
  // Safety over all runs.
  // ---------------------------------------------------------------------------------------

  ghost predicate ConnectedOnce(c: Connection) {
    c.notifications == [] ||
    (|c.notifications| == 1 && c.notifications[0].DidConnect? && c.peerVersion.Some?
      && c.notifications[0].version == c.peerVersion.value)
  }

  ghost predicate Invariant(c: Connection) {
    && c.halt != DidConnectPrecondition
    && (match c.status
        case NotConnected =>
          && c.peerVersion.None? && !c.receivedVersionAck && !c.timerArmed && c.teardowns == 0
          && (if c.thread == NotStarted then c.notifications == [] && c.acksSent == 0
              else && c.thread == Cancelled
                   && (|| c.notifications == [DidDisconnect]
                       || (&& |c.notifications| == 2
                           && c.notifications[0].DidConnect? && c.notifications[1].DidDisconnect?)))
        case Connecting =>
          && c.notifications == [] && c.timerArmed && c.teardowns == 0
          && !(c.peerVersion.Some? && c.receivedVersionAck)
          && c.acksSent == (if c.peerVersion.Some? then 1 else 0)
          && (c.thread == Executing || (c.thread == Starting && c.peerVersion.None? && !c.receivedVersionAck))
        case Connected =>
          && c.peerVersion.Some? && c.receivedVersionAck && !c.timerArmed && c.teardowns == 0
          && c.thread == Executing && c.acksSent == 1
          && c.notifications == [DidConnect(c.peerVersion.value)]
        case Disconnecting =>
          && !c.timerArmed && ConnectedOnce(c)
          && (c.halt == NoRunLoop || (c.thread == Executing && c.teardowns == 1)))
    && c.acksSent <= 1
  }

  lemma StepKeepsInvariant(c: Connection, e: Event)
    requires Invariant(c)
    ensures Invariant(Step(c, e))
    ensures c.notifications <= Step(c, e).notifications
  {
    hide Invariant, Step;
    if IsMessage(e) {
      MessageKeepsInvariant(c, e);
    } else {
      LocalStepKeepsInvariant(c, e);
    }
  }

  lemma MessageKeepsInvariant(c: Connection, e: Event)
    requires Invariant(c) && IsMessage(e)
    ensures Invariant(Step(c, e))
    ensures c.notifications <= Step(c, e).notifications
  {
    hide StartConnecting, Teardown;
  }

  lemma LocalStepKeepsInvariant(c: Connection, e: Event)
    requires Invariant(c) && !IsMessage(e)
    ensures Invariant(Step(c, e))
    ensures c.notifications <= Step(c, e).notifications
  {
    hide DidParseVersion, DidParseAck;
  }

  lemma {:induction false} RunKeepsInvariant(c: Connection, events: seq<Event>)
    requires Invariant(c)
    ensures Invariant(Exec(c, events))
  {
    if events == [] {
    } else {
      RunKeepsInvariant(c, events[..|events| - 1]);
      StepKeepsInvariant(Exec(c, events[..|events| - 1]), events[|events| - 1]);
    }
  }

  /** Over every run: connected means that the peer's version is stored, its ack has arrived and
      exactly one ack has been sent back; the preconditions of `didConnect` never fail; and the
      delegate hears nothing, a connect, a connect and a disconnect, or just a disconnect. */
  lemma HandshakeSafety(events: seq<Event>)
    ensures var c := Exec(INITIAL, events);
            && (c.status == Connected ==>
                  c.peerVersion.Some? && c.receivedVersionAck && c.acksSent == 1
                  && c.notifications == [DidConnect(c.peerVersion.value)])
            && c.halt != DidConnectPrecondition
            && (|| c.notifications == [] || c.notifications == [DidDisconnect]
                || (|c.notifications| == 1 && c.notifications[0].DidConnect?)
                || (|c.notifications| == 2 && c.notifications[0].DidConnect? && c.notifications[1] == DidDisconnect))
  {
    RunKeepsInvariant(INITIAL, events);
  }

  /** The assertion in the version case fails exactly when an unexpected version message arrives
      while the connection is being torn down without a stored version. */
  lemma VersionAssertionExactly(events: seq<Event>, parsed: Outcome<PeerVersion>)
    requires Exec(INITIAL, events).halt == No
    ensures var c := Exec(INITIAL, events);
            (Step(c, VersionReceived(parsed)).halt == VersionAssertion)
              == (c.status == Disconnecting && c.peerVersion.None?)
  {
    RunKeepsInvariant(INITIAL, events);
  }

  /** Nothing can be scheduled without a run loop: a disconnect or a timeout stops the program
      exactly while the network thread is starting, and asking for a message to be sent does so
      exactly when it does not execute, although it is documented to queue the message until the
      connection is established. */
  lemma NoRunLoopExactly(events: seq<Event>, e: Event)
    requires Exec(INITIAL, events).halt == No
    ensures var c := Exec(INITIAL, events);
            Step(c, e).halt == NoRunLoop <==>
              || ((e.Disconnect? || e.TimerFired?) && c.status == Connecting && c.thread == Starting)
              || (e.Send? && c.thread != Executing)
  {
    RunKeepsInvariant(INITIAL, events);
  }

  // ---------------------------------------------------------------------------------------
  // What connecting, disconnecting and the timer do.
  // ---------------------------------------------------------------------------------------

  /** The connection has been opened and has not given up. */
  predicate Alive(c: Connection) {
    c.status == Connecting || c.status == Connected
  }

  /** Connecting is refused, by stopping the program, exactly on a connection that is open, ending,
      or has been used; a new one then waits for its peer under a timer. */
  lemma ConnectExactly(events: seq<Event>)
    requires Exec(INITIAL, events).halt == No
    ensures var c, d := Exec(INITIAL, events), Step(Exec(INITIAL, events), Connect);
            && (d.halt == ConnectPrecondition <==> c.status != NotConnected || c.thread != NotStarted)
            && (d.halt != ConnectPrecondition ==>
                  d == Connection(Connecting, None, false, true, Starting, 0, 0, [], No))
  {
    RunKeepsInvariant(INITIAL, events);
  }

  /** Disconnecting an open connection whose thread executes ends it: nothing is told yet, the timer
      is off and one teardown block waits; when that has run, the peer is forgotten, the delegate
      has been told once, and the thread is gone. */
  lemma DisconnectTakesEffect(events: seq<Event>)
    requires var c := Exec(INITIAL, events); c.halt == No && c.thread == Executing && Alive(c)
    ensures var c := Exec(INITIAL, events);
            var d := Step(c, Disconnect);
            && d == c.(status := Disconnecting, timerArmed := false, teardowns := 1)
            && Step(d, RunTeardown)
                 == Connection(NotConnected, None, false, false, Cancelled, 0, c.acksSent,
                               c.notifications + [DidDisconnect], No)
  {
    RunKeepsInvariant(INITIAL, events);
  }

  /** A disconnect of a connection that is not open changes nothing. */
  lemma DisconnectTwice(events: seq<Event>)
    requires Exec(INITIAL, events).halt == No
    ensures var c := Exec(INITIAL, events); Step(c, Disconnect) == c <==> !Alive(c)
  {
    RunKeepsInvariant(INITIAL, events);
  }

  /** The timer disconnects a connection that is still waiting for its peer, and no other. */
  lemma TimeoutExactly(events: seq<Event>)
    requires Exec(INITIAL, events).halt == No
    ensures var c := Exec(INITIAL, events);
            Step(c, TimerFired) == if c.status == Connecting then Step(c, Disconnect) else c
  {
    RunKeepsInvariant(INITIAL, events);
  }

  /** A connection that is ending or has ended, with what its delegate had been told before. */
  ghost predicate Ending(c: Connection, told: seq<Notification>) {
    || (c.status == Disconnecting && c.notifications == told && c.thread == Executing && c.teardowns == 1)
    || (c.status == NotConnected && c.notifications == told + [DidDisconnect] && c.thread == Cancelled)
  }

  lemma StepKeepsEnding(c: Connection, e: Event, told: seq<Notification>)
    requires Invariant(c) && Ending(c, told)
    ensures Ending(Step(c, e), told)
    ensures c.halt == No && e == RunTeardown ==> Step(c, e).status == NotConnected
    ensures c.status == NotConnected ==> Step(c, e).status == NotConnected
  {}

  /** Whatever happens after a disconnect, the connection is never open again, and the delegate is
      told of the disconnect exactly once, as soon as the teardown block has run. */
  lemma {:induction false} DisconnectIsFinal(events: seq<Event>, more: seq<Event>)
    requires var c := Exec(INITIAL, events); c.halt == No && c.thread == Executing && Alive(c)
    ensures var c := Exec(INITIAL, events);
            var d := Exec(Step(c, Disconnect), more);
            && !Alive(d)
            && Ending(d, c.notifications)
            && (d.halt == No && RunTeardown in more ==> d.notifications == c.notifications + [DidDisconnect])
            && Invariant(d)
  {
    hide Invariant, Step, Ending;
    var c := Exec(INITIAL, events);
    if more == [] {
      DisconnectTakesEffect(events);
      RunKeepsInvariant(INITIAL, events);
      StepKeepsInvariant(c, Disconnect);
      EndingStarts(c);
    } else {
      var front, e := more[..|more| - 1], more[|more| - 1];
      assert more == front + [e];
      DisconnectIsFinal(events, front);
      var d := Exec(Step(c, Disconnect), front);
      StepKeepsInvariant(d, e);
      StepKeepsEnding(d, e, c.notifications);
      HaltStays(d, e);
    }
    EndingIsNotOpen(Exec(Step(c, Disconnect), more), c.notifications);
  }

  lemma EndingStarts(c: Connection)
    requires c.thread == Executing
    ensures Ending(c.(status := Disconnecting, timerArmed := false, teardowns := 1), c.notifications)
  {}

  lemma EndingIsNotOpen(c: Connection, told: seq<Notification>)
    requires Ending(c, told)
    ensures !Alive(c)
    ensures c.status == NotConnected <==> c.notifications == told + [DidDisconnect]
  {}

  lemma HaltStays(c: Connection, e: Event)
    ensures c.halt != No ==> Step(c, e) == c
  {}

  /** A version message that does not parse, followed by another one, stops the program. */
  lemma SecondVersionAfterBadOneStops(v: PeerVersion)
    ensures Exec(INITIAL, [Connect, ThreadStarted, VersionReceived(GotNil), VersionReceived(Got(v))]).halt
         == VersionAssertion
  {
    hide Exec;
    var a, b, d, e := Connect, ThreadStarted, VersionReceived(GotNil), VersionReceived(Got(v));
    ExecSnoc(INITIAL, [], a);
    ExecSnoc(INITIAL, [a], b);
    ExecSnoc(INITIAL, [a, b], d);
    ExecSnoc(INITIAL, [a, b, d], e);
    assert [] + [a] == [a] && [a] + [b] == [a, b];
    assert [a, b] + [d] == [a, b, d] && [a, b, d] + [e] == [a, b, d, e];
  }

  lemma ExecSnoc(c: Connection, es: seq<Event>, e: Event)
    ensures Exec(c, []) == c
    ensures Exec(c, es + [e]) == Step(Exec(c, es), e)
  {
    var all := es + [e];
    assert all[..|all| - 1] == es;
  }

  // ---------------------------------------------------------------------------------------
  // Reaching Connected.
  // ---------------------------------------------------------------------------------------

  ghost predicate Fresh(c: Connection) {
    && c.status == Connecting && c.thread == Executing && c.halt == No && c.timerArmed
    && c.peerVersion.None? && !c.receivedVersionAck
    && c.teardowns == 0 && c.acksSent == 0 && c.notifications == []
  }

  ghost predicate OnlyMessages(events: seq<Event>) {
    forall e :: e in events ==> IsMessage(e)
  }

  /** What became of the first version message among the events. */
  function FirstVersion(events: seq<Event>): Option<Outcome<PeerVersion>> {
    if events == [] then None
    else
      var first, e := FirstVersion(events[..|events| - 1]), events[|events| - 1];
      if first.Some? then first else if e.VersionReceived? then Some(e.parsed) else None
  }

  function HasAck(events: seq<Event>): bool {
    events != [] && (HasAck(events[..|events| - 1]) || events[|events| - 1].AckReceived?)
  }

  /** A payload on which its parser stops: that of the first version message, or of any message that
      is neither a version nor an ack. */
  predicate StopsParser(events: seq<Event>, k: nat)
    requires k < |events|
  {
    || events[k] == OtherReceived(true)
    || (events[k] == VersionReceived(Trapped) && FirstVersion(events[..k]) == None)
  }

  /** A version message behind one that did not parse. */
  predicate FailsAssertion(events: seq<Event>, k: nat)
    requires k < |events|
  {
    events[k].VersionReceived? && FirstVersion(events[..k]) == Some(GotNil)
  }

  predicate Ends(events: seq<Event>, k: nat)
    requires k < |events|
  {
    StopsParser(events, k) || FailsAssertion(events, k)
  }

  predicate NoneEnds(events: seq<Event>, n: nat)
    requires n <= |events|
  {
    forall j :: 0 <= j < n ==> !Ends(events, j)
  }

  /** Where a waiting connection is after messages none of which has ended the program. */
  predicate Reached(c: Connection, events: seq<Event>, d: Connection) {
    d.halt == No && d.thread == Executing &&
    match FirstVersion(events)
    case None =>
      d == c.(receivedVersionAck := HasAck(events))
    case Some(Got(v)) =>
      && d.peerVersion == Some(v) && d.acksSent == 1
      && d.receivedVersionAck == HasAck(events)
      && d.status == (if HasAck(events) then Connected else Connecting)
      && d.notifications == (if HasAck(events) then [DidConnect(v)] else [])
    case Some(GotNil) =>
      d.status == Disconnecting && d.peerVersion.None? && d.notifications == []
    case Some(Trapped) => false
  }

  lemma {:induction false} ReachedUnlessEnded(c: Connection, events: seq<Event>)
    requires Fresh(c) && OnlyMessages(events) && NoneEnds(events, |events|)
    ensures Reached(c, events, Exec(c, events))
  {
    if events == [] {
    } else {
      var front, e := events[..|events| - 1], events[|events| - 1];
      assert forall x :: x in front ==> x in events;
      EndsInFront(events);
      ReachedUnlessEnded(c, front);
      assert e in events && !Ends(events, |front|);
    }
  }

  lemma ReachedEnds(c: Connection, events: seq<Event>, e: Event, d: Connection)
    requires Fresh(c) && Reached(c, events, d) && Ends(events + [e], |events|)
    ensures Step(d, e)
         == d.(halt := if StopsParser(events + [e], |events|) then PayloadParser else VersionAssertion)
  {
    assert (events + [e])[..|events|] == events;
  }

  /** The first message that ends the program does so, and leaves the connection as it is. */
  lemma {:induction false} EndedAt(c: Connection, events: seq<Event>, k: nat)
    requires Fresh(c) && OnlyMessages(events) && k < |events| && Ends(events, k) && NoneEnds(events, k)
    ensures var d := Exec(c, events);
            && d.halt == (if StopsParser(events, k) then PayloadParser else VersionAssertion)
            && Reached(c, events[..k], d.(halt := No))
  {
    hide StopsParser, FailsAssertion, Reached, Fresh;
    var front, e := events[..|events| - 1], events[|events| - 1];
    assert forall x :: x in front ==> x in events;
    EndsInFront(events);
    if k == |front| {
      ReachedUnlessEnded(c, front);
      assert events == front + [e];
      ReachedEnds(c, front, e, Exec(c, front));
      ReachedRuns(c, front, Exec(c, front));
    } else {
      EndedAt(c, front, k);
      assert events[..k] == front[..k];
    }
  }

  lemma ReachedRuns(c: Connection, events: seq<Event>, d: Connection)
    requires Reached(c, events, d)
    ensures d == d.(halt := No)
  {}

  lemma EndsInFront(events: seq<Event>)
    requires events != []
    ensures var front := events[..|events| - 1];
            && (forall j :: 0 <= j < |front| ==> StopsParser(events, j) == StopsParser(front, j))
            && (forall j :: 0 <= j < |front| ==> Ends(events, j) == Ends(front, j))
            && (forall n :: 0 <= n <= |front| ==> NoneEnds(events, n) == NoneEnds(front, n))
  {
    var front := events[..|events| - 1];
    forall j | 0 <= j < |front|
      ensures StopsParser(events, j) == StopsParser(front, j) && Ends(events, j) == Ends(front, j)
    {
      assert events[..j] == front[..j] && events[j] == front[j];
    }
  }

  /** Whatever messages the peer sends, in whatever order and number. The program is stopped by a
      payload exactly when a message meets the guard and none before it has stopped the program; by
      the assertion exactly when that happens first; and then nothing changes any more. Otherwise
      the connection is open exactly when an ack was among the messages and the first version
      message parsed, one that did not parse has ended it, and later ones did not matter. */
  lemma ConnectsExactly(c: Connection, events: seq<Event>)
    requires Fresh(c) && OnlyMessages(events)
    ensures var d := Exec(c, events);
            && (d.halt == PayloadParser <==>
                  exists k :: 0 <= k < |events| && StopsParser(events, k) && NoneEnds(events, k))
            && (d.halt == VersionAssertion <==>
                  exists k :: 0 <= k < |events| && FailsAssertion(events, k) && NoneEnds(events, k))
            && (forall k :: 0 <= k < |events| && Ends(events, k) && NoneEnds(events, k) ==>
                  Reached(c, events[..k], d.(halt := No)))
            && (NoneEnds(events, |events|) ==> Reached(c, events, d))
  {
    hide StopsParser, FailsAssertion, Reached, Fresh, Exec;
    assert forall k :: 0 <= k < |events| && (StopsParser(events, k) || FailsAssertion(events, k)) ==> Ends(events, k);
    if NoneEnds(events, |events|) {
      ReachedUnlessEnded(c, events);
      ReachedRuns(c, events, Exec(c, events));
    } else {
      var k := FirstEnd(events, |events|);
      EndedAt(c, events, k);
      OneWayToEnd(events, k);
    }
  }

  lemma {:induction false} FirstEnd(events: seq<Event>, n: nat) returns (k: nat)
    requires n <= |events| && !NoneEnds(events, n)
    ensures k < n && Ends(events, k) && NoneEnds(events, k)
  {
    hide Ends;
    if NoneEnds(events, n - 1) {
      k := n - 1;
    } else {
      k := FirstEnd(events, n - 1);
    }
  }

  lemma OneWayToEnd(events: seq<Event>, k: nat)
    requires k < |events|
    ensures !(StopsParser(events, k) && FailsAssertion(events, k))
  {}

  lemma {:induction false} HasAckMeans(events: seq<Event>)
    ensures HasAck(events) <==> AckReceived in events
  {
    if events == [] {
    } else {
      var front := events[..|events| - 1];
      HasAckMeans(front);
      assert events == front + [events[|events| - 1]];
    }
  }
}
