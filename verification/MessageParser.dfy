/**
 MessageParser: cuts a byte stream that arrives in arbitrary pieces into messages.

 The parser is specified by a step function on its two fields. Every input byte ends up in
 exactly one event of the log: discarded, or part of a delivered or dropped message.
 */
module MessageParser {
  import opened Binary
  import opened BitcoinDecoding
  import opened Message

  datatype State = State(buffer: Bytes, header: Option<Header>) {
    function Append(bytes: Bytes): State {
      State(buffer + bytes, header)
    }
  }

  datatype Event = Discarded(bytes: Bytes) | Delivered(message: Message) | Dropped(message: Message)

  datatype StepResult = Wait(log: seq<Event>, state: State) | Continue(log: seq<Event>, state: State)

  ghost predicate OccursAt(pattern: Bytes, bytes: Bytes, i: nat) {
    i + |pattern| <= |bytes| && bytes[i..i + |pattern|] == pattern
  }

  ghost predicate Contains(bytes: Bytes, pattern: Bytes) {
    exists i: nat :: OccursAt(pattern, bytes, i)
  }

  /** The first occurrence at or after i, or -1. */
  function StartFrom(magic: Bytes, bytes: Bytes, i: nat): (r: int)
    ensures r >= 0 ==> r + |magic| <= |bytes|
    decreases |bytes| - i
  {
    if i + |magic| > |bytes| then -1
    else if bytes[i..i + |magic|] == magic then i
    else StartFrom(magic, bytes, i + 1)
  }

  lemma {:induction false} StartFromFirst(magic: Bytes, bytes: Bytes, i: nat)
    ensures var r := StartFrom(magic, bytes, i);
            && (r >= 0 ==> r >= i && OccursAt(magic, bytes, r))
            && forall k: nat :: i <= k && (r >= 0 ==> k < r) ==> !OccursAt(magic, bytes, k)
    decreases |bytes| - i
  {
    if i + |magic| <= |bytes| && bytes[i..i + |magic|] != magic {
      StartFromFirst(magic, bytes, i + 1);
    }
  }

  function HeaderStart(network: uint32, bytes: Bytes): int {
    StartFrom(MagicBytes(network), bytes, 0)
  }

  /** The last three bytes, or all if there are fewer. */
  function Tail(bytes: Bytes): Bytes {
    if |bytes| > 3 then bytes[|bytes| - 3..] else bytes
  }

  function Step(sha: Hash, network: uint32, s: State): StepResult {
    match s.header
    case None =>
      var start := HeaderStart(network, s.buffer);
      if start < 0 then
        var kept := Tail(s.buffer);
        Wait([Discarded(s.buffer[..|s.buffer| - |kept|])], State(kept, None))
      else
        var log := [Discarded(s.buffer[..start])];
        var bytes := s.buffer[start..];
        if |bytes| < HEADER_LENGTH then Wait(log, State(bytes, None))
        else
          var p := ParseHeader(bytes);
          if p.Ok? then Continue(log, State(bytes[HEADER_LENGTH..], Some(p.value)))
          else Continue(log + [Discarded(bytes[..4])], State(bytes[4..], None))
    case Some(h) =>
      if |s.buffer| < h.payloadLength then Wait([], s)
      else
        var m := Message(h, s.buffer[..h.payloadLength]);
        var event := if h.network == network && IsChecksumValid(sha, m) then Delivered(m) else Dropped(m);
        Continue([event], State(s.buffer[h.payloadLength..], None))
  }

  /** Steps until more bytes are needed. */
  function Run(sha: Hash, network: uint32, s: State): (seq<Event>, State)
    decreases |s.buffer|, if s.header.Some? then 1 else 0
  {
    match Step(sha, network, s)
    case Wait(log, s') => (log, s')
    case Continue(log, s') =>
      var (more, last) := Run(sha, network, s');
      (log + more, last)
  }

  /** The delivered and dropped messages of a log. */
  function Frames(log: seq<Event>): seq<Event> {
    if log == [] then []
    else
      var e := log[|log| - 1];
      Frames(log[..|log| - 1]) + if e.Discarded? then [] else [e]
  }

  /** What the delegate is told. */
  function Messages(log: seq<Event>): seq<Message> {
    if log == [] then []
    else
      var e := log[|log| - 1];
      Messages(log[..|log| - 1]) + if e.Delivered? then [e.message] else []
  }

  lemma {:induction false} FramesConcat(l: seq<Event>, m: seq<Event>)
    ensures Frames(l + m) == Frames(l) + Frames(m)
  {
    if m == [] {
      assert l + m == l;
    } else {
      var k := m[..|m| - 1];
      FramesConcat(l, k);
      assert (l + m)[..|l + m| - 1] == l + k;
    }
  }

  lemma {:induction false} MessagesConcat(l: seq<Event>, m: seq<Event>)
    ensures Messages(l + m) == Messages(l) + Messages(m)
  {
    if m == [] {
      assert l + m == l;
    } else {
      var k := m[..|m| - 1];
      MessagesConcat(l, k);
      assert (l + m)[..|l + m| - 1] == l + k;
    }
  }

  lemma OnlyDiscarded(a: Bytes, b: Bytes)
    ensures Messages([]) == Messages([Discarded(a)]) == Messages([Discarded(a), Discarded(b)]) == []
    ensures Frames([]) == Frames([Discarded(a)]) == Frames([Discarded(a), Discarded(b)]) == []
  {
    var l := [Discarded(a), Discarded(b)];
    assert l[..1] == [Discarded(a)];
    assert l[..1][..0] == [];
  }

  /** The events so far, and what a run from s still adds, are the run from start. */
  ghost predicate Reached(sha: Hash, network: uint32, start: State, log: seq<Event>, s: State) {
    var (more, last) := Run(sha, network, s);
    Run(sha, network, start) == (log + more, last)
  }

  lemma ReachedStart(sha: Hash, network: uint32, start: State)
    ensures Reached(sha, network, start, [], start)
  {
    var (more, last) := Run(sha, network, start);
    assert [] + more == more;
  }

  lemma ReachedStep(sha: Hash, network: uint32, start: State, log: seq<Event>, s: State)
    requires Reached(sha, network, start, log, s)
    ensures var step := Step(sha, network, s);
            && Messages(log + step.log) == Messages(log) + Messages(step.log)
            && (step.Continue? ==> Reached(sha, network, start, log + step.log, step.state))
            && (step.Wait? ==> Run(sha, network, start) == (log + step.log, step.state))
  {
    hide Step;
    var step := Step(sha, network, s);
    MessagesConcat(log, step.log);
    if step.Continue? {
      var (more, last) := Run(sha, network, step.state);
      assert log + (step.log + more) == log + step.log + more;
    }
  }

  // ---------------------------------------------------------------------------------------
  // The parser object.
  // ---------------------------------------------------------------------------------------

  class MessageParser {
    const sha: Hash
    const network: uint32
    var receivedBytes: Bytes
    var receivedHeader: Option<Header>
    /** The messages passed to the delegate, oldest first. */
    var delivered: seq<Message>

    constructor (sha: Hash, network: uint32)
      ensures this.sha == sha && this.network == network
      ensures Fields() == State([], None) && delivered == []
    {
      this.sha := sha;
      this.network := network;
      receivedBytes := [];
      receivedHeader := None;
      delivered := [];
    }

    function Fields(): State
      reads this
    {
      State(receivedBytes, receivedHeader)
    }

    /** The object has done what the step function says: `waiting` when it asks for more bytes. */
    twostate predicate Stepped(waiting: bool)
      reads this
    {
      var step := Step(sha, network, old(Fields()));
      waiting == step.Wait? && Fields() == step.state && delivered == old(delivered) + Messages(step.log)
    }

    function Remaining(): nat
      reads this
    {
      2 * |receivedBytes| + if receivedHeader.Some? then 1 else 0
    }

    /** The source goes from a parsed header straight on to its payload; here that is the next
        round of the loop. */
    method ParseBytes(bytes: Bytes)
      modifies this
      ensures var (log, s) := Run(sha, network, old(Fields()).Append(bytes));
              Fields() == s && delivered == old(delivered) + Messages(log)
    {
      hide Step;
      receivedBytes := receivedBytes + bytes;
      ghost var start := Fields();
      ghost var log: seq<Event> := [];
      ReachedStart(sha, network, start);
      while true
        invariant delivered == old(delivered) + Messages(log)
        invariant Reached(sha, network, start, log, Fields())
        decreases Remaining()
      {
        ReachedStep(sha, network, start, log, Fields());
        log := log + Step(sha, network, Fields()).log;
        var waiting;
        if receivedHeader.None? {
          waiting := TakeHeader();
        } else {
          waiting := TakePayload();
        }
        if waiting {
          return;
        }
      }
    }

    /** The part of the loop that looks for a header. */
    method TakeHeader() returns (waiting: bool)
      requires receivedHeader.None?
      modifies this
      ensures Stepped(waiting)
      ensures !waiting ==> Remaining() < old(Remaining())
    {
      hide ParseHeader, StartFrom;
      ghost var log := Step(sha, network, Fields()).log;
      OnlyDiscarded(log[0].bytes, if |log| > 1 then log[1].bytes else []);
      var headerStartIndex := HeaderStartIndexInBytes(receivedBytes);
      if headerStartIndex < 0 {
        var end := |receivedBytes| - |MagicBytes(network)| + 1;
        if end > 0 {
          receivedBytes := receivedBytes[end..];
        }
        return true;
      }
      receivedBytes := receivedBytes[headerStartIndex..];
      if |receivedBytes| < HEADER_LENGTH {
        return true;
      }
      var stream := new InputStream(receivedBytes);
      var header := HeaderFromStream(stream);
      ParseHeaderAppend(receivedBytes, []);
      if !header.Got? {
        receivedBytes := receivedBytes[|MagicBytes(network)|..];
        return false;
      }
      receivedHeader := Some(header.value);
      receivedBytes := receivedBytes[HEADER_LENGTH..];
      return false;
    }

    /** The part of the loop that completes a message. */
    method TakePayload() returns (waiting: bool)
      requires receivedHeader.Some?
      modifies this
      ensures Stepped(waiting)
      ensures !waiting ==> Remaining() < old(Remaining())
    {
      var payloadLength := receivedHeader.value.payloadLength;
      if |receivedBytes| < payloadLength {
        return true;
      }
      var message := Message(receivedHeader.value, receivedBytes[..payloadLength]);
      if message.header.network == network {
        if IsChecksumValid(sha, message) {
          delivered := delivered + [message];
        }
      }
      receivedBytes := receivedBytes[payloadLength..];
      receivedHeader := None;
      return false;
    }

    method HeaderStartIndexInBytes(bytes: Bytes) returns (r: int)
      ensures r == HeaderStart(network, bytes)
    {
      var magic := MagicBytes(network);
      if |bytes| < |magic| {
        return -1;
      }
      for i := 0 to |bytes| - |magic| + 1
        invariant HeaderStart(network, bytes) == StartFrom(magic, bytes, i)
      {
        var found := true;
        for j := 0 to |magic|
          invariant found && bytes[i..i + j] == magic[..j]
        {
          assert bytes[i..i + j + 1] == bytes[i..i + j] + [bytes[i + j]];
          assert magic[..j + 1] == magic[..j] + [magic[j]];
          if bytes[i + j] != magic[j] {
            found := false;
            break;
          }
        }
        if found {
          return i;
        }
      }
      return -1;
    }
  }
}
