/**
 The outgoing half of PeerConnection: a queue of messages, the bytes of the message being sent
 that the socket has not taken yet, and the blocks scheduled to go on sending.
 */
module SendPump {
  import opened Binary
  import opened BitcoinEncoding
  import opened Message

  /** `written` is what the output stream has taken so far; `scheduled` counts the blocks waiting
      on the network thread that will call `send`. */
  datatype Pump = Pump(queue: seq<Message>, pending: Bytes, written: Bytes, scheduled: nat)

  const EMPTY := Pump([], [], [], 0)

  /** The next message, if there is one and no bytes are left of the one before. */
  function Dequeue(p: Pump): Pump {
    if |p.queue| > 0 && |p.pending| == 0
    then p.(queue := p.queue[1..], pending := MessageBytes(p.queue[0])) else p
  }

  /** `sendWithStream`. The stream takes at most what it is offered; 0 and negative results mean
      that it took nothing. */
  function Send(p: Pump, hasSpace: bool, writeResult: int): Pump {
    if !hasSpace then p
    else
      var p1 := Dequeue(p);
      if |p1.pending| == 0 then p1
      else
        var n := if writeResult > |p1.pending| then |p1.pending|
                 else if writeResult > 0 then writeResult else 0;
        var p2 := p1.(pending := p1.pending[n..], written := p1.written + p1.pending[..n]);
        if |p2.queue| > 0 || |p2.pending| > 0 then p2.(scheduled := p2.scheduled + 1) else p2
  }

  datatype PumpEvent =
    | Enqueue(message: Message, hasSpace: bool, writeResult: int)
    | SpaceAvailable(hasSpace: bool, writeResult: int)
    | RunScheduled(hasSpace: bool, writeResult: int)

  function Step(p: Pump, e: PumpEvent): Pump {
    match e
    case Enqueue(m, space, n) => Send(p.(queue := p.queue + [m]), space, n)
    case SpaceAvailable(space, n) => Send(p, space, n)
    case RunScheduled(space, n) =>
      if p.scheduled == 0 then p else Send(p.(scheduled := p.scheduled - 1), space, n)
  }

  function Exec(events: seq<PumpEvent>): Pump {
    if events == [] then EMPTY else Step(Exec(events[..|events| - 1]), events[|events| - 1])
  }

  function Enqueued(events: seq<PumpEvent>): seq<Message> {
    if events == [] then []
    else
      var e := events[|events| - 1];
      Enqueued(events[..|events| - 1]) + Added(e)
  }

  /** Everything that has been or will be written. */
  function Stream(p: Pump): Bytes {
    p.written + p.pending + EncodeAll(MessageBytes, p.queue)
  }

  lemma DequeueConserves(p: Pump)
    ensures Stream(Dequeue(p)) == Stream(p) && Dequeue(p).written == p.written
  {
    hide MessageBytes;
    if |p.queue| > 0 {
      EncodeAllFirst(MessageBytes, p.queue);
    }
  }

  lemma SendConserves(p: Pump, hasSpace: bool, writeResult: int)
    ensures Stream(Send(p, hasSpace, writeResult)) == Stream(p)
    ensures p.written <= Send(p, hasSpace, writeResult).written
  {
    hide MessageBytes, Dequeue, EncodeAll;
    DequeueConserves(p);
  }

  /** What a step adds to the queue. */
  function Added(e: PumpEvent): seq<Message> {
    if e.Enqueue? then [e.message] else []
  }

  /** A step adds the encoding of what it enqueues, and nothing else changes. */
  lemma StepConserves(p: Pump, e: PumpEvent)
    ensures Stream(Step(p, e)) == Stream(p) + EncodeAll(MessageBytes, Added(e))
    ensures p.written <= Step(p, e).written
  {
    hide MessageBytes, Send;
    match e
    case Enqueue(m, space, n) =>
      EncodeAllConcat(MessageBytes, p.queue, [m]);
      SendConserves(p.(queue := p.queue + [m]), space, n);
    case SpaceAvailable(space, n) =>
      SendConserves(p, space, n);
    case RunScheduled(space, n) =>
      if p.scheduled > 0 {
        SendConserves(p.(scheduled := p.scheduled - 1), space, n);
      }
  }

  /** In every reachable state the bytes written, the bytes pending and the encodings still
      queued are the encodings of all the messages ever enqueued. */
  lemma {:induction false} Conservation(events: seq<PumpEvent>)
    ensures Stream(Exec(events)) == EncodeAll(MessageBytes, Enqueued(events))
  {
    hide MessageBytes, Step;
    if events == [] {
    } else {
      var front, e := events[..|events| - 1], events[|events| - 1];
      Conservation(front);
      StepConserves(Exec(front), e);
      EncodeAllConcat(MessageBytes, Enqueued(front), Added(e));
    }
  }

  /** A send that had space and leaves work behind has scheduled another send, and one that
      leaves nothing behind has written everything it was given. */
  lemma SendGoesOn(p: Pump, hasSpace: bool, writeResult: int)
    ensures var q := Send(p, hasSpace, writeResult);
            && (hasSpace && (q.queue != [] || q.pending != []) ==> q.scheduled == p.scheduled + 1)
            && (q.queue == [] && q.pending == [] ==> q.written == Stream(p))
            && (hasSpace && writeResult > 0 && Stream(p) != p.written ==> |q.written| > |p.written|)
  {
    hide HeaderBytes;
    SendConserves(p, hasSpace, writeResult);
    assert EncodeAll(MessageBytes, []) == [];
  }

  // ---------------------------------------------------------------------------------------
  // What the socket takes is what leaves the buffer.
  // ---------------------------------------------------------------------------------------

  /** What a send offers to the socket: the rest of a message, or else the next one. */
  function Offered(p: Pump): Bytes {
    if p.pending != [] then p.pending else if p.queue != [] then MessageBytes(p.queue[0]) else []
  }

  /** A result of write, cut to what can have been taken of n bytes. */
  function Clamp(writeResult: int, n: nat): (k: nat)
    ensures k <= n
  {
    if writeResult < 0 then 0 else if writeResult > n then n else writeResult
  }

  /** A send with space hands over exactly the bytes the socket says it took, from the front of
      what it was offered, and keeps exactly the others; a message leaves the queue exactly when
      nothing was pending; and another send is scheduled exactly when something is left to do. */
  lemma SendExactly(p: Pump, hasSpace: bool, writeResult: int)
    ensures var q, offered := Send(p, hasSpace, writeResult), Offered(p);
            var k := Clamp(writeResult, |offered|);
            if !hasSpace then q == p
            else
              && q.written == p.written + offered[..k]
              && q.pending == offered[k..]
              && q.queue == (if p.pending == [] && p.queue != [] then p.queue[1..] else p.queue)
              && q.scheduled == p.scheduled + if q.queue != [] || q.pending != [] then 1 else 0
  {
    hide HeaderBytes;
  }

  /** The number of bytes that the socket has reported as taken in one step. */
  function TakenBy(p: Pump, e: PumpEvent): nat {
    match e
    case Enqueue(m, space, n) => if space then Clamp(n, |Offered(p.(queue := p.queue + [m]))|) else 0
    case SpaceAvailable(space, n) => if space then Clamp(n, |Offered(p)|) else 0
    case RunScheduled(space, n) => if space && p.scheduled > 0 then Clamp(n, |Offered(p)|) else 0
  }

  function Taken(events: seq<PumpEvent>): nat {
    if events == [] then 0
    else Taken(events[..|events| - 1]) + TakenBy(Exec(events[..|events| - 1]), events[|events| - 1])
  }

  lemma StepTakes(p: Pump, e: PumpEvent)
    ensures |Step(p, e).written| == |p.written| + TakenBy(p, e)
  {
    hide Send, Offered, Clamp;
    match e
    case Enqueue(m, space, n) => SendExactly(p.(queue := p.queue + [m]), space, n);
    case SpaceAvailable(space, n) => SendExactly(p, space, n);
    case RunScheduled(space, n) =>
      if p.scheduled > 0 {
        SendExactly(p.(scheduled := p.scheduled - 1), space, n);
        SameOffer(p);
      }
  }

  lemma SameOffer(p: Pump)
    requires p.scheduled > 0
    ensures Offered(p.(scheduled := p.scheduled - 1)) == Offered(p)
  {}

  /** Over every run, as many bytes have been written as the socket has taken. With Conservation
      these are that many bytes from the front of the stream of all messages. */
  lemma {:induction false} WrittenIsTaken(events: seq<PumpEvent>)
    ensures |Exec(events).written| == Taken(events) <= |EncodeAll(MessageBytes, Enqueued(events))|
    ensures Exec(events).written == EncodeAll(MessageBytes, Enqueued(events))[..Taken(events)]
  {
    hide MessageBytes, Step, TakenBy;
    Conservation(events);
    if events != [] {
      WrittenIsTaken(events[..|events| - 1]);
      StepTakes(Exec(events[..|events| - 1]), events[|events| - 1]);
    }
  }
}
