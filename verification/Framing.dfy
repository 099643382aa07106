/**
 What the message parser guarantees over whole streams: the result does not depend on how the
 stream is cut into pieces, every byte is accounted for, and the messages that were sent are
 found among whatever else is on the stream.
 */
module Framing {
  import opened Binary
  import opened BitcoinEncoding
  import opened BitcoinDecoding
  import opened Message
  import opened MessageParser

  // ---------------------------------------------------------------------------------------
  // Chunk invariance.
  // ---------------------------------------------------------------------------------------

  /** Looking in a longer buffer finds the same first occurrence, if there was one. */
  lemma {:induction false} StartFromAppend(magic: Bytes, bytes: Bytes, t: Bytes, i: nat)
    ensures StartFrom(magic, bytes, i) >= 0 ==>
              StartFrom(magic, bytes + t, i) == StartFrom(magic, bytes, i)
    decreases |bytes| - i
  {
    if i + |magic| <= |bytes| {
      assert (bytes + t)[i..i + |magic|] == bytes[i..i + |magic|];
      if bytes[i..i + |magic|] != magic {
        StartFromAppend(magic, bytes, t, i + 1);
      }
    }
  }

  /** Dropping bytes from the front moves the occurrences. */
  lemma {:induction false} StartFromDrop(magic: Bytes, bytes: Bytes, k: nat, i: nat)
    requires k <= i && k <= |bytes|
    ensures var r := StartFrom(magic, bytes[k..], i - k);
            StartFrom(magic, bytes, i) == if r < 0 then r else r + k
    decreases |bytes| - i
  {
    if i + |magic| <= |bytes| {
      assert bytes[k..][i - k..i - k + |magic|] == bytes[i..i + |magic|];
      if bytes[i..i + |magic|] != magic {
        StartFromDrop(magic, bytes, k, i + 1);
      }
    }
  }

  /** Where there is no occurrence the search may start later. */
  lemma {:induction false} StartFromSkip(magic: Bytes, bytes: Bytes, i: nat, k: nat)
    requires i <= k
    requires forall j: nat :: i <= j < k ==> !OccursAt(magic, bytes, j)
    ensures StartFrom(magic, bytes, i) == StartFrom(magic, bytes, k)
    decreases k - i
  {
    if i < k {
      assert !OccursAt(magic, bytes, i);
      StartFromSkip(magic, bytes, i + 1, k);
    }
  }

  /** Without an occurrence so far, only the last three bytes can be part of one. */
  lemma TailSuffices(network: uint32, bytes: Bytes, t: Bytes)
    requires HeaderStart(network, bytes) < 0
    ensures var k := |bytes| - |Tail(bytes)|;
            var r := HeaderStart(network, Tail(bytes) + t);
            && bytes + t == bytes[..k] + (Tail(bytes) + t)
            && HeaderStart(network, bytes + t) == if r < 0 then r else r + k
  {
    hide StartFrom, MagicBytes;
    var magic := MagicBytes(network);
    var k := |bytes| - |Tail(bytes)|;
    StartFromFirst(magic, bytes, 0);
    forall j: nat | 0 <= j < k
      ensures !OccursAt(magic, bytes + t, j)
    {
      assert !OccursAt(magic, bytes, j);
      assert (bytes + t)[j..j + 4] == bytes[j..j + 4];
    }
    StartFromSkip(magic, bytes + t, 0, k);
    assert (bytes + t)[k..] == Tail(bytes) + t;
    StartFromDrop(magic, bytes + t, k, k);
  }

  lemma TailOfTail(bytes: Bytes, t: Bytes)
    ensures Tail(Tail(bytes) + t) == Tail(bytes + t)
  {}

  /** Two steps with the same effect on the delegate and on the fields. */
  ghost predicate SameStep(a: StepResult, b: StepResult) {
    a.Wait? == b.Wait? && a.state == b.state && Frames(a.log) == Frames(b.log)
  }

  /** More input does not change a step that could already be taken. */
  lemma ContinueAppend(sha: Hash, network: uint32, s: State, t: Bytes)
    requires Step(sha, network, s).Continue?
    ensures Step(sha, network, s.Append(t))
         == Continue(Step(sha, network, s).log, Step(sha, network, s).state.Append(t))
  {
    hide ParseHeader, StartFrom;
    var u := s.buffer + t;
    match s.header
    case None =>
      var start := HeaderStart(network, s.buffer);
      StartFromAppend(MagicBytes(network), s.buffer, t, 0);
      var bytes := s.buffer[start..];
      assert u[..start] == s.buffer[..start] && u[start..] == bytes + t;
      ParseHeaderAppend(bytes, t);
      assert (bytes + t)[HEADER_LENGTH..] == bytes[HEADER_LENGTH..] + t;
      assert (bytes + t)[..4] == bytes[..4] && (bytes + t)[4..] == bytes[4..] + t;
    case Some(h) =>
      assert u[..h.payloadLength] == s.buffer[..h.payloadLength];
      assert u[h.payloadLength..] == s.buffer[h.payloadLength..] + t;
  }

  /** When the parser waits, what it has kept is all that matters. */
  lemma WaitAppend(sha: Hash, network: uint32, s: State, t: Bytes)
    requires Step(sha, network, s).Wait?
    ensures SameStep(Step(sha, network, s.Append(t)),
                     Step(sha, network, Step(sha, network, s).state.Append(t)))
  {
    hide ParseHeader, StartFrom;
    if s.header.None? {
      var start := HeaderStart(network, s.buffer);
      if start < 0 {
        WaitWithoutMagic(sha, network, s.buffer, t);
      } else {
        WaitWithMagic(sha, network, s.buffer, start, t);
      }
    }
  }

  lemma WaitWithoutMagic(sha: Hash, network: uint32, bytes: Bytes, t: Bytes)
    requires HeaderStart(network, bytes) < 0
    ensures SameStep(Step(sha, network, State(bytes + t, None)),
                     Step(sha, network, State(Tail(bytes) + t, None)))
  {
    hide ParseHeader, StartFrom;
    TailSuffices(network, bytes, t);
    TailOfTail(bytes, t);
    var u, v := bytes + t, Tail(bytes) + t;
    var k := |bytes| - |Tail(bytes)|;
    var r := HeaderStart(network, v);
    if r >= 0 {
      assert u[r + k..] == v[r..];
    }
    SameWithoutDiscards(sha, network, u, v);
  }

  lemma WaitWithMagic(sha: Hash, network: uint32, bytes: Bytes, start: nat, t: Bytes)
    requires HeaderStart(network, bytes) == start
    ensures SameStep(Step(sha, network, State(bytes + t, None)),
                     Step(sha, network, State(bytes[start..] + t, None)))
  {
    hide ParseHeader, StartFrom;
    var magic := MagicBytes(network);
    StartFromAppend(magic, bytes, t, 0);
    StartAtZero(magic, bytes, start);
    StartFromAppend(magic, bytes[start..], t, 0);
    var u, v := bytes + t, bytes[start..] + t;
    assert u[start..] == v[0..];
    SameWithoutDiscards(sha, network, u, v);
  }

  lemma StartAtZero(magic: Bytes, bytes: Bytes, start: nat)
    requires StartFrom(magic, bytes, 0) == start
    ensures start <= |bytes| && StartFrom(magic, bytes[start..], 0) == 0
  {
    StartFromFirst(magic, bytes, 0);
    assert bytes[start..][0..0 + |magic|] == bytes[start..start + |magic|];
  }

  /** Header searches that see the same bytes from the magic on do the same. */
  lemma SameWithoutDiscards(sha: Hash, network: uint32, u: Bytes, v: Bytes)
    requires var i, j := HeaderStart(network, u), HeaderStart(network, v);
             if i < 0 then j < 0 && Tail(u) == Tail(v) else j >= 0 && u[i..] == v[j..]
    ensures SameStep(Step(sha, network, State(u, None)), Step(sha, network, State(v, None)))
  {
    hide ParseHeader, StartFrom;
    var a, b := Step(sha, network, State(u, None)), Step(sha, network, State(v, None));
    OnlyDiscarded(a.log[0].bytes, if |a.log| > 1 then a.log[1].bytes else []);
    OnlyDiscarded(b.log[0].bytes, if |b.log| > 1 then b.log[1].bytes else []);
  }

  lemma {:induction false} RunOfSameStep(sha: Hash, network: uint32, s: State, u: State)
    requires SameStep(Step(sha, network, s), Step(sha, network, u))
    ensures Frames(Run(sha, network, s).0) == Frames(Run(sha, network, u).0)
    ensures Run(sha, network, s).1 == Run(sha, network, u).1
  {
    hide Step;
    var a, b := Step(sha, network, s), Step(sha, network, u);
    if a.Continue? {
      var more := Run(sha, network, a.state).0;
      FramesConcat(a.log, more);
      FramesConcat(b.log, more);
    }
  }

  lemma StepShrinks(sha: Hash, network: uint32, s: State)
    ensures var step := Step(sha, network, s);
            step.Continue? ==>
              || |step.state.buffer| < |s.buffer|
              || (|step.state.buffer| == |s.buffer| && s.header.Some? && step.state.header.None?)
  {
    hide ParseHeader, StartFrom;
  }

  /** Feeding a and then b is feeding a + b: from any state, the same frames in the same order
      and the same fields at the end. */
  lemma {:induction false} RunAppend(sha: Hash, network: uint32, s: State, b: Bytes)
    ensures var (log, s1) := Run(sha, network, s);
            var (more, s2) := Run(sha, network, s1.Append(b));
            var (all, s3) := Run(sha, network, s.Append(b));
            && Frames(all) == Frames(log) + Frames(more)
            && s3 == s2
    decreases |s.buffer|, if s.header.Some? then 1 else 0
  {
    hide Step, Frames;
    var step := Step(sha, network, s);
    match step
    case Wait(log, s1) =>
      WaitAppend(sha, network, s, b);
      RunOfSameStep(sha, network, s.Append(b), s1.Append(b));
      WaitHasNoFrames(sha, network, s);
    case Continue(log, s') =>
      StepShrinks(sha, network, s);
      ContinueAppend(sha, network, s, b);
      RunAppend(sha, network, s', b);
      FramesConcat(log, Run(sha, network, s').0);
      FramesConcat(log, Run(sha, network, s'.Append(b)).0);
  }

  lemma WaitHasNoFrames(sha: Hash, network: uint32, s: State)
    requires Step(sha, network, s).Wait?
    ensures Frames(Step(sha, network, s).log) == []
  {
    hide ParseHeader, StartFrom;
    if s.header.None? {
      OnlyDiscarded(Step(sha, network, s).log[0].bytes, []);
    }
  }

  lemma {:induction false} MessagesOfFrames(log: seq<Event>)
    ensures Messages(Frames(log)) == Messages(log)
  {
    if log == [] {
    } else {
      var e := log[|log| - 1];
      MessagesOfFrames(log[..|log| - 1]);
      MessagesConcat(Frames(log[..|log| - 1]), if e.Discarded? then [] else [e]);
      assert [e][..0] == [];
    }
  }

  /** `parseBytes` called on each piece in turn, from the state s. */
  function RunChunks(sha: Hash, network: uint32, s: State, chunks: seq<Bytes>): (seq<Message>, State) {
    if chunks == [] then ([], s)
    else
      var (before, s1) := RunChunks(sha, network, s, chunks[..|chunks| - 1]);
      var (log, s2) := Run(sha, network, s1.Append(chunks[|chunks| - 1]));
      (before + Messages(log), s2)
  }

  function Joined(chunks: seq<Bytes>): Bytes {
    if chunks == [] then [] else Joined(chunks[..|chunks| - 1]) + chunks[|chunks| - 1]
  }

  /** A parser between calls: it has already done all it can with what it holds. */
  ghost predicate Settled(sha: Hash, network: uint32, s: State) {
    Run(sha, network, s).1 == s && Messages(Run(sha, network, s).0) == []
  }

  /** However the stream is cut, the delegate is told the same messages and the parser ends in
      the same state. */
  lemma {:induction false} ChunkInvariance(sha: Hash, network: uint32, s: State, chunks: seq<Bytes>)
    requires Settled(sha, network, s)
    ensures var (messages, last) := RunChunks(sha, network, s, chunks);
            var (log, state) := Run(sha, network, s.Append(Joined(chunks)));
            messages == Messages(log) && last == state
  {
    hide Step, Run;
    if chunks == [] {
      assert s.Append([]) == s;
    } else {
      var front, b := chunks[..|chunks| - 1], chunks[|chunks| - 1];
      ChunkInvariance(sha, network, s, front);
      var joined := s.Append(Joined(front));
      assert joined.Append(b) == s.Append(Joined(chunks));
      RunAppend(sha, network, joined, b);
      var (log, s1) := Run(sha, network, joined);
      var (more, s2) := Run(sha, network, s1.Append(b));
      MessagesOfFrames(log);
      MessagesOfFrames(more);
      MessagesOfFrames(Run(sha, network, joined.Append(b)).0);
      MessagesConcat(Frames(log), Frames(more));
    }
  }

  /** What a run leaves behind is settled. */
  lemma RunSettles(sha: Hash, network: uint32, s: State)
    ensures Settled(sha, network, Run(sha, network, s).1)
  {
    hide Step, Run;
    var (log, s1) := Run(sha, network, s);
    RunAppend(sha, network, s, []);
    assert s.Append([]) == s && s1.Append([]) == s1;
    var more := Run(sha, network, s1).0;
    assert |Frames(more)| == 0;
    MessagesOfFrames(more);
  }

  // ---------------------------------------------------------------------------------------
  // Where a run stops.
  // ---------------------------------------------------------------------------------------

  /** No header and at most 3 bytes, or the magic with less than a header; or a header and less
      than its payload. */
  ghost predicate Residual(network: uint32, s: State) {
    match s.header
    case None =>
      |s.buffer| <= 3 || (OccursAt(MagicBytes(network), s.buffer, 0) && |s.buffer| < HEADER_LENGTH)
    case Some(h) => |s.buffer| < h.payloadLength
  }

  lemma {:induction false} RunStops(sha: Hash, network: uint32, s: State)
    ensures Residual(network, Run(sha, network, s).1)
    decreases |s.buffer|, if s.header.Some? then 1 else 0
  {
    hide ParseHeader, StartFrom;
    var step := Step(sha, network, s);
    if step.Continue? {
      StepShrinks(sha, network, s);
      RunStops(sha, network, step.state);
    } else if s.header.None? && HeaderStart(network, s.buffer) >= 0 {
      var magic, start := MagicBytes(network), HeaderStart(network, s.buffer);
      StartFromFirst(magic, s.buffer, 0);
      assert s.buffer[start..][0..4] == s.buffer[start..start + 4];
    }
  }

  // ---------------------------------------------------------------------------------------
  // Every byte is accounted for.
  // ---------------------------------------------------------------------------------------

  function EventBytes(e: Event): Bytes {
    match e
    case Discarded(bytes) => bytes
    case Delivered(m) => MessageBytes(m)
    case Dropped(m) => MessageBytes(m)
  }

  /** Bytes received and not yet part of an event. */
  function Pending(s: State): Bytes {
    (if s.header.Some? then HeaderBytes(s.header.value) else []) + s.buffer
  }

  lemma StepConserves(sha: Hash, network: uint32, s: State)
    ensures var step := Step(sha, network, s);
            EncodeAll(EventBytes, step.log) + Pending(step.state) == Pending(s)
  {
    if s.header.None? {
      SearchConserves(sha, network, s.buffer);
    } else {
      hide HeaderBytes;
      var step := Step(sha, network, s);
      if step.Continue? {
        EncodeOne(step.log[0]);
      }
    }
  }

  lemma SearchConserves(sha: Hash, network: uint32, buffer: Bytes)
    ensures var step := Step(sha, network, State(buffer, None));
            EncodeAll(EventBytes, step.log) + Pending(step.state) == buffer
  {
    hide ParseHeader, StartFrom, HeaderBytes, EncodeAll;
    var step := Step(sha, network, State(buffer, None));
    EncodeOne(step.log[0]);
    if HeaderStart(network, buffer) >= 0 {
      var bytes := buffer[HeaderStart(network, buffer)..];
      if |bytes| >= HEADER_LENGTH {
        ParseHeaderAppend(bytes, []);
        if ParseHeader(bytes).Ok? {
          ParsedHeaderIsEncoded(bytes);
        } else {
          assert step.log == [step.log[0]] + [step.log[1]];
          EncodeAllConcat(EventBytes, [step.log[0]], [step.log[1]]);
          EncodeOne(step.log[1]);
        }
      }
    }
  }

  lemma EncodeOne(e: Event)
    ensures EncodeAll(EventBytes, [e]) == EventBytes(e)
  {
    assert [e][..0] == [];
  }

  /** The events of a run, written one after the other, and what is still pending are the bytes
      the run started with: nothing is lost, repeated or reordered. */
  lemma {:induction false} RunConserves(sha: Hash, network: uint32, s: State)
    ensures var (log, last) := Run(sha, network, s);
            EncodeAll(EventBytes, log) + Pending(last) == Pending(s)
    decreases |s.buffer|, if s.header.Some? then 1 else 0
  {
    hide Step, Pending;
    var step := Step(sha, network, s);
    StepConserves(sha, network, s);
    if step.Continue? {
      StepShrinks(sha, network, s);
      RunConserves(sha, network, step.state);
      EncodeAllConcat(EventBytes, step.log, Run(sha, network, step.state).0);
    }
  }

  /** Only headers of this network are ever held. */
  ghost predicate OwnHeader(network: uint32, s: State) {
    s.header.Some? ==> s.header.value.network == network
  }

  /** A delivered message is one a peer on this network could have built; a dropped one differs
      from such a message in the checksum, never in the network. */
  ghost predicate Sound(sha: Hash, network: uint32, e: Event) {
    match e
    case Discarded(_) => true
    case Delivered(m) => WellFormed(sha, network, m)
    case Dropped(m) =>
      && m.header.network == network
      && m.header.payloadLength == |m.payload|
      && !IsChecksumValid(sha, m)
  }

  lemma StepSound(sha: Hash, network: uint32, s: State)
    requires OwnHeader(network, s)
    ensures var step := Step(sha, network, s);
            && OwnHeader(network, step.state)
            && forall e :: e in step.log ==> Sound(sha, network, e)
  {
    hide ParseHeader, StartFrom;
    if s.header.None? && HeaderStart(network, s.buffer) >= 0 {
      var start := HeaderStart(network, s.buffer);
      var bytes := s.buffer[start..];
      StartFromFirst(MagicBytes(network), s.buffer, 0);
      if |bytes| >= HEADER_LENGTH && ParseHeader(bytes).Ok? {
        assert bytes[..4] == s.buffer[start..start + 4];
        MagicIsNetwork(network, bytes);
      }
    }
  }

  /** The search and the header parser read the same four bytes. */
  lemma MagicIsNetwork(network: uint32, bytes: Bytes)
    requires ParseHeader(bytes).Ok? && |bytes| >= 4 && bytes[..4] == MagicBytes(network)
    ensures ParseHeader(bytes).value.network == network
  {
    var h, rest := ParseHeader(bytes).value, ParseHeader(bytes).rest;
    hide ParseHeader, UInt32Bytes, ParseUInt32;
    ParsedHeaderIsEncoded(bytes);
    assert bytes[..4] == UInt32Bytes(h.network);
    UInt32RoundTrip(network, []);
    UInt32RoundTrip(h.network, []);
  }

  lemma {:induction false} RunSound(sha: Hash, network: uint32, s: State)
    requires OwnHeader(network, s)
    ensures var (log, last) := Run(sha, network, s);
            OwnHeader(network, last) && forall e :: e in log ==> Sound(sha, network, e)
    decreases |s.buffer|, if s.header.Some? then 1 else 0
  {
    hide Step, Sound;
    var step := Step(sha, network, s);
    StepSound(sha, network, s);
    if step.Continue? {
      StepShrinks(sha, network, s);
      RunSound(sha, network, step.state);
    }
  }

  // ---------------------------------------------------------------------------------------
  // Messages are found among other bytes.
  // ---------------------------------------------------------------------------------------

  /** No proper suffix of the magic is a prefix of it. */
  ghost predicate NoSelfOverlap(magic: Bytes) {
    forall k :: 0 < k < |magic| ==> magic[k..] != magic[..|magic| - k]
  }

  /** An occurrence that starts before the magic is all before it, or overlaps it. */
  lemma EarlyOccurrence(magic: Bytes, junk: Bytes, rest: Bytes, j: nat)
    requires j < |junk|
    ensures var k := |junk| - j;
            OccursAt(magic, junk + (magic + rest), j) ==>
              if k < |magic| then magic[k..] == magic[..|magic| - k] else OccursAt(magic, junk, j)
  {
    var bytes, k := junk + (magic + rest), |junk| - j;
    if OccursAt(magic, bytes, j) {
      if k < |magic| {
        assert bytes[j..j + |magic|][k..] == bytes[|junk|..j + |magic|] == magic[..|magic| - k];
      } else {
        assert bytes[j..j + |magic|] == junk[j..j + |magic|];
      }
    }
  }

  /** Bytes without the magic stay without it up to the magic that follows them. */
  lemma MagicIsFirst(network: uint32, junk: Bytes, rest: Bytes)
    requires !Contains(junk, MagicBytes(network)) && NoSelfOverlap(MagicBytes(network))
    ensures HeaderStart(network, junk + (MagicBytes(network) + rest)) == |junk|
  {
    var magic := MagicBytes(network);
    var bytes := junk + (magic + rest);
    forall j: nat | j < |junk|
      ensures !OccursAt(magic, bytes, j)
    {
      EarlyOccurrence(magic, junk, rest, j);
    }
    StartFromSkip(magic, bytes, 0, |junk|);
    assert bytes[|junk|..|junk| + 4] == magic;
  }

  /** A message of this network as it may stand in a stream, with a checksum that need not be right. */
  ghost predicate Framed(network: uint32, m: Message) {
    m.header.network == network && m.header.payloadLength == |m.payload|
  }

  /** What happens to such a message. */
  function Verdict(sha: Hash, m: Message): Event {
    if m.header.payloadChecksum == ChecksumForPayload(sha, m.payload) then Delivered(m) else Dropped(m)
  }

  /** One message after some junk: the junk is discarded, the message delivered or dropped by its
      checksum, and the parser is where it would be on the bytes after the message. */
  lemma MessageAfterJunk(sha: Hash, network: uint32, junk: Bytes, m: Message, rest: Bytes)
    requires HeaderStart(network, junk + MessageBytes(m) + rest) == |junk|
    requires Framed(network, m)
    ensures var (log, last) := Run(sha, network, State(junk + MessageBytes(m) + rest, None));
            var (more, end) := Run(sha, network, State(rest, None));
            && Frames(log) == [Verdict(sha, m)] + Frames(more)
            && last == end
  {
    hide ParseHeader, StartFrom, HeaderBytes, ChecksumForPayload;
    var h, body := m.header, m.payload + rest;
    var s0 := State(junk + MessageBytes(m) + rest, None);
    var s1, s2 := State(body, Some(h)), State(rest, None);
    HeaderRoundTrip(h, body);
    assert s0.buffer[|junk|..] == HeaderBytes(h) + body;
    assert s0.buffer[..|junk|] == junk;
    assert (HeaderBytes(h) + body)[HEADER_LENGTH..] == body;
    assert Step(sha, network, s0) == Continue([Discarded(junk)], s1);
    assert body[..|m.payload|] == m.payload && body[|m.payload|..] == rest;
    assert Step(sha, network, s1) == Continue([Verdict(sha, m)], s2);
    TwoSteps(sha, network, s0, s1, s2, junk, Verdict(sha, m));
  }

  lemma TwoSteps(sha: Hash, network: uint32, s0: State, s1: State, s2: State, junk: Bytes, e: Event)
    requires Step(sha, network, s0) == Continue([Discarded(junk)], s1)
    requires Step(sha, network, s1) == Continue([e], s2) && !e.Discarded?
    ensures Frames(Run(sha, network, s0).0) == [e] + Frames(Run(sha, network, s2).0)
    ensures Run(sha, network, s0).1 == Run(sha, network, s2).1
  {
    hide Step;
    var more := Run(sha, network, s2).0;
    FramesConcat([e], more);
    FramesConcat([Discarded(junk)], [e] + more);
    OnlyDiscarded(junk, []);
    assert [e][..0] == [];
    assert Frames([e]) == [e];
  }

  /** A header that does not parse costs the four bytes of its magic, and nothing else. */
  lemma BadHeaderCostsMagic(sha: Hash, network: uint32, bytes: Bytes)
    requires |bytes| >= 24 && HeaderStart(network, bytes) == 0 && ParseHeader(bytes).Nil?
    ensures var (log, last) := Run(sha, network, State(bytes, None));
            var (more, end) := Run(sha, network, State(bytes[4..], None));
            Frames(log) == Frames(more) && last == end
  {
    hide ParseHeader, StartFrom, Frames;
    assert bytes[0..] == bytes;
    var step := Step(sha, network, State(bytes, None));
    OnlyDiscarded(step.log[0].bytes, step.log[1].bytes);
    assert step.log == [step.log[0], step.log[1]];
    FramesConcat(step.log, Run(sha, network, State(bytes[4..], None)).0);
  }

  /** What lies before the first magic makes no difference to what is found. */
  lemma BeforeMagicIsSkipped(sha: Hash, network: uint32, bytes: Bytes, k: nat)
    requires HeaderStart(network, bytes) == k
    ensures k <= |bytes| && HeaderStart(network, bytes[k..]) == 0
    ensures var (log, last) := Run(sha, network, State(bytes, None));
            var (more, end) := Run(sha, network, State(bytes[k..], None));
            Frames(log) == Frames(more) && last == end
  {
    hide ParseHeader, StartFrom, Frames, Run;
    StartAtZero(MagicBytes(network), bytes, k);
    assert bytes[k..][0..] == bytes[k..];
    SameWithoutDiscards(sha, network, bytes, bytes[k..]);
    RunOfSameStep(sha, network, State(bytes, None), State(bytes[k..], None));
  }

  /** No header parses at any magic in the junk, read on into what follows it. */
  ghost predicate Harmless(network: uint32, junk: Bytes, rest: Bytes) {
    forall i: nat :: OccursAt(MagicBytes(network), junk, i) && i + 24 <= |junk + rest| ==>
      ParseHeader((junk + rest)[i..]).Nil?
  }

  lemma HarmlessWithoutMagic(network: uint32, junk: Bytes, rest: Bytes)
    requires !Contains(junk, MagicBytes(network))
    ensures Harmless(network, junk, rest)
  {
    hide ParseHeader;
  }

  lemma HarmlessRest(network: uint32, junk: Bytes, rest: Bytes, k: nat)
    requires Harmless(network, junk, rest) && k <= |junk|
    ensures Harmless(network, junk[k..], rest)
  {
    hide ParseHeader;
    var magic := MagicBytes(network);
    forall i: nat | OccursAt(magic, junk[k..], i) && i + 24 <= |junk[k..] + rest|
      ensures ParseHeader((junk[k..] + rest)[i..]).Nil?
    {
      assert junk[k..][i..i + |magic|] == junk[k + i..k + i + |magic|];
      assert OccursAt(magic, junk, k + i);
      assert (junk[k..] + rest)[i..] == (junk + rest)[k + i..];
    }
  }

  /** The first magic in harmless junk before a magic, if it is not the one behind the junk. */
  lemma FirstMagicInJunk(network: uint32, junk: Bytes, rest: Bytes)
    requires NoSelfOverlap(MagicBytes(network)) && Harmless(network, junk, rest)
    requires |rest| >= 24 && rest[..4] == MagicBytes(network)
    ensures var k := HeaderStart(network, junk + rest);
            && 0 <= k <= |junk|
            && (k < |junk| ==> k + 4 <= |junk| && ParseHeader((junk + rest)[k..]).Nil?)
  {
    hide ParseHeader, StartFrom;
    var magic, bytes := MagicBytes(network), junk + rest;
    StartFromFirst(magic, bytes, 0);
    assert bytes[|junk|..|junk| + 4] == rest[..4];
    assert OccursAt(magic, bytes, |junk|);
    var k := HeaderStart(network, bytes);
    if 0 <= k < |junk| {
      assert bytes == junk + (magic + rest[4..]);
      EarlyOccurrence(magic, junk, rest[4..], k);
    }
  }

  /** Harmless junk in front of a message makes no difference to what is found. */
  lemma {:induction false} JunkIsSkipped(sha: Hash, network: uint32, junk: Bytes, rest: Bytes)
    requires NoSelfOverlap(MagicBytes(network)) && Harmless(network, junk, rest)
    requires |rest| >= 24 && rest[..4] == MagicBytes(network)
    ensures var (log, last) := Run(sha, network, State(junk + rest, None));
            var (more, end) := Run(sha, network, State(rest, None));
            Frames(log) == Frames(more) && last == end
    decreases |junk|
  {
    hide ParseHeader, StartFrom, Run, Frames, Harmless, NoSelfOverlap;
    var bytes, k := junk + rest, HeaderStart(network, junk + rest);
    FirstMagicInJunk(network, junk, rest);
    BeforeMagicIsSkipped(sha, network, bytes, k);
    if k == |junk| {
      assert bytes[k..] == rest;
    } else {
      BadHeaderCostsMagic(sha, network, bytes[k..]);
      assert bytes[k..][4..] == junk[k + 4..] + rest;
      HarmlessRest(network, junk, rest, k + 4);
      JunkIsSkipped(sha, network, junk[k + 4..], rest);
    }
  }

  /** Junk at the end gives nothing, wherever it stops. */
  lemma {:induction false} TrailingJunk(sha: Hash, network: uint32, junk: Bytes)
    requires Harmless(network, junk, [])
    ensures Frames(Run(sha, network, State(junk, None)).0) == []
    decreases |junk|
  {
    hide ParseHeader, StartFrom, Frames, Harmless;
    var k := HeaderStart(network, junk);
    if k < 0 || |junk| - k < 24 {
      WaitHasNoFrames(sha, network, State(junk, None));
    } else {
      BeforeMagicIsSkipped(sha, network, junk, k);
      MagicInJunk(network, junk, k);
      BadHeaderCostsMagic(sha, network, junk[k..]);
      assert junk[k..][4..] == junk[k + 4..];
      HarmlessRest(network, junk, [], k + 4);
      TrailingJunk(sha, network, junk[k + 4..]);
    }
  }

  lemma MagicInJunk(network: uint32, junk: Bytes, k: nat)
    requires Harmless(network, junk, []) && HeaderStart(network, junk) == k && k + 24 <= |junk|
    ensures ParseHeader(junk[k..]).Nil?
  {
    hide ParseHeader, StartFrom;
    StartFromFirst(MagicBytes(network), junk, 0);
    assert junk + [] == junk;
    assert OccursAt(MagicBytes(network), junk, k);
  }

  /** A message and the bytes that follow it up to the next message. */
  datatype Item = Item(message: Message, junk: Bytes)

  function Wire(junk: Bytes, items: seq<Item>): Bytes
    decreases items
  {
    junk + WireAfter(items)
  }

  function WireAfter(items: seq<Item>): Bytes
    decreases items, 0
  {
    if items == [] then [] else MessageBytes(items[0].message) + Wire(items[0].junk, items[1..])
  }

  function Verdicts(sha: Hash, items: seq<Item>): seq<Event> {
    if items == [] then [] else [Verdict(sha, items[0].message)] + Verdicts(sha, items[1..])
  }

  function LastJunk(junk: Bytes, items: seq<Item>): Bytes {
    if items == [] then junk else items[|items| - 1].junk
  }

  /** All messages are of this network, and the junk before, between and after them is harmless. */
  ghost predicate Recognizable(network: uint32, junk: Bytes, items: seq<Item>)
    decreases items
  {
    && Harmless(network, junk, WireAfter(items))
    && (items != [] ==> Framed(network, items[0].message) && Recognizable(network, items[0].junk, items[1..]))
  }

  lemma MessageStartsWithMagic(network: uint32, m: Message)
    requires m.header.network == network
    ensures MessageBytes(m) == MagicBytes(network) + MessageBytes(m)[4..]
    ensures |MessageBytes(m)| >= 24
  {
    hide UInt32Bytes;
    assert MessageBytes(m)[..4] == MagicBytes(network);
  }

  /** From the empty state exactly the messages are found, each delivered or dropped by its
      checksum, in order, whatever lies before, between and after them, even with magics in it, as
      long as no header parses at one. If the bytes at the end have no magic, the last three of
      them are kept. */
  lemma {:induction false} Resynchronises(sha: Hash, network: uint32, junk: Bytes, items: seq<Item>)
    requires NoSelfOverlap(MagicBytes(network)) && Recognizable(network, junk, items)
    ensures var (log, last) := Run(sha, network, State(Wire(junk, items), None));
            && Frames(log) == Verdicts(sha, items)
            && (!Contains(LastJunk(junk, items), MagicBytes(network)) ==>
                  last == State(Tail(LastJunk(junk, items)), None))
    decreases items
  {
    hide Step, MagicBytes, MessageBytes, Contains, NoSelfOverlap, Tail, Run, Frames, Harmless;
    if items == [] {
      TrailingJunk(sha, network, junk);
      assert Wire(junk, items) == junk;
      if !Contains(junk, MagicBytes(network)) {
        OnlyJunk(sha, network, junk);
      }
    } else {
      var m, rest := items[0].message, Wire(items[0].junk, items[1..]);
      MessageStartsWithMagic(network, m);
      JunkIsSkipped(sha, network, junk, MessageBytes(m) + rest);
      var bytes := [] + MessageBytes(m) + rest;
      assert bytes == MessageBytes(m) + rest;
      assert bytes[0..0 + |MagicBytes(network)|] == MagicBytes(network);
      FoundAtZero(MagicBytes(network), bytes);
      MessageAfterJunk(sha, network, [], m, rest);
      Resynchronises(sha, network, items[0].junk, items[1..]);
      assert LastJunk(junk, items) == LastJunk(items[0].junk, items[1..]);
    }
  }

  /** Well-formed messages among bytes without the magic are an instance. */
  lemma {:induction false} RecognizableWithoutMagic(
      sha: Hash, network: uint32, junk: Bytes, items: seq<Item>)
    requires !Contains(junk, MagicBytes(network))
    requires forall i :: 0 <= i < |items| ==>
               WellFormed(sha, network, items[i].message) && !Contains(items[i].junk, MagicBytes(network))
    ensures Recognizable(network, junk, items)
    ensures Verdicts(sha, items) == seq(|items|, i requires 0 <= i < |items| => Delivered(items[i].message))
    decreases items
  {
    hide Contains, Harmless, MagicBytes, WireAfter;
    HarmlessWithoutMagic(network, junk, WireAfter(items));
    if items != [] {
      RecognizableWithoutMagic(sha, network, items[0].junk, items[1..]);
      WellFormedIsFramed(sha, network, items[0].message);
    }
  }

  lemma WellFormedIsFramed(sha: Hash, network: uint32, m: Message)
    requires WellFormed(sha, network, m)
    ensures Framed(network, m) && Verdict(sha, m) == Delivered(m)
  {}

  lemma MessageFirst(log: seq<Event>, m: Message, more: seq<Event>)
    requires Frames(log) == [Delivered(m)] + Frames(more)
    ensures Messages(log) == [m] + Messages(more)
  {
    MessagesOfFrames(log);
    MessagesOfFrames(more);
    MessagesConcat([Delivered(m)], Frames(more));
    assert [Delivered(m)][..0] == [];
  }

  lemma OnlyJunk(sha: Hash, network: uint32, junk: Bytes)
    requires !Contains(junk, MagicBytes(network))
    ensures Messages(Run(sha, network, State(junk, None)).0) == []
    ensures Run(sha, network, State(junk, None)).1 == State(Tail(junk), None)
  {
    hide ParseHeader, StartFrom, MagicBytes;
    StartFromFirst(MagicBytes(network), junk, 0);
    OnlyDiscarded(junk[..|junk| - |Tail(junk)|], []);
  }

  /** A stream of messages and nothing else is delivered whatever the magic is. */
  lemma {:induction false} CleanStream(sha: Hash, network: uint32, ms: seq<Message>)
    requires forall i :: 0 <= i < |ms| ==> WellFormed(sha, network, ms[i])
    ensures Messages(Run(sha, network, State(EncodeAll(MessageBytes, ms), None)).0) == ms
    ensures Run(sha, network, State(EncodeAll(MessageBytes, ms), None)).1 == State([], None)
  {
    hide Step, WellFormed, MagicBytes, MessageBytes, Messages, StartFrom, Run, Frames;
    if ms == [] {
      EmptyRun(sha, network);
    } else {
      var m, rest := ms[0], EncodeAll(MessageBytes, ms[1..]);
      EncodeAllFirst(MessageBytes, ms);
      WellFormedIsFramed(sha, network, m);
      MessageStartsWithMagic(network, m);
      var bytes := [] + MessageBytes(m) + rest;
      assert bytes == EncodeAll(MessageBytes, ms);
      assert bytes[0..0 + |MagicBytes(network)|] == MagicBytes(network);
      FoundAtZero(MagicBytes(network), bytes);
      MessageAfterJunk(sha, network, [], m, rest);
      CleanStream(sha, network, ms[1..]);
      MessageFirst(Run(sha, network, State(bytes, None)).0, m, Run(sha, network, State(rest, None)).0);
    }
  }

  lemma EmptyRun(sha: Hash, network: uint32)
    ensures Messages(Run(sha, network, State([], None)).0) == []
    ensures Run(sha, network, State([], None)).1 == State([], None)
  {
    hide ParseHeader;
    OnlyDiscarded([], []);
  }

  // ---------------------------------------------------------------------------------------
  // Which magics make this work.
  // ---------------------------------------------------------------------------------------

  lemma FourBytes(v: uint32)
    ensures UInt32Bytes(v) == [v % 256, v / 256 % 256, v / 65536 % 256, v / 16777216 % 256]
  {
    BigEndianIndex(4, v, 0);
    BigEndianIndex(4, v, 1);
    BigEndianIndex(4, v, 2);
    BigEndianIndex(4, v, 3);
    assert Pow(2, 8) == 256 by { ByteWeight(1); assert Pow(256, 1) == 256; }
    assert Pow(2, 16) == 65536 by { PowAdd(2, 8, 8); }
    assert Pow(2, 24) == 16777216 by { PowAdd(2, 8, 16); }
  }

  const MAIN_NET: uint32 := 0xd9b4bef9
  const TEST_NET: uint32 := 0xdab5bffa
  const TEST_NET3: uint32 := 0x0709110b

  /** The three networks of the source all qualify. */
  lemma KnownNetworks(network: uint32)
    requires network == MAIN_NET || network == TEST_NET || network == TEST_NET3
    ensures NoSelfOverlap(MagicBytes(network))
  {
    hide UInt32Bytes, NoSelfOverlap;
    FourBytes(network);
    if network == MAIN_NET {
      FirstByteUnique([0xf9, 0xbe, 0xb4, 0xd9]);
    } else if network == TEST_NET {
      FirstByteUnique([0xfa, 0xbf, 0xb5, 0xda]);
    } else {
      FirstByteUnique([0x0b, 0x11, 0x09, 0x07]);
    }
  }

  lemma FirstByteUnique(magic: Bytes)
    requires |magic| == 4 && magic[0] != magic[1] && magic[0] != magic[2] && magic[0] != magic[3]
    ensures NoSelfOverlap(magic)
  {
    forall k | 0 < k < 4
      ensures magic[k..] != magic[..4 - k]
    {
      assert magic[1..][k - 1] == magic[k..][0];
      assert magic[..4 - k][0] == magic[0];
    }
  }

  /** A buffer too short for a header delivers nothing. */
  lemma ShortRun(sha: Hash, network: uint32, bytes: Bytes)
    requires |bytes| < HEADER_LENGTH
    ensures Messages(Run(sha, network, State(bytes, None)).0) == []
  {
    hide ParseHeader, StartFrom;
    var step := Step(sha, network, State(bytes, None));
    OnlyDiscarded(step.log[0].bytes, []);
  }

  /** "version" with other bytes in front is not a command. */
  lemma NoSuchCommand(x: Bytes)
    requires 1 <= |x| <= 3
    ensures CommandFromRaw(TrimZeros(x + CommandData(Version)[..12 - |x|])).None?
  {
    hide RawBytes, CommandData, TrimZeros, CommandFromRaw;
    var y := x + RawBytes(Version);
    VersionRaw();
    ShiftedPadding(x, RawBytes(Version), seq(5, _ => 0), 5);
    TrimPadding(y, 5 - |x|);
    LastLetters(y);
  }

  /** Padded bytes behind other bytes, cut to their length, have that much less padding. */
  lemma ShiftedPadding(x: Bytes, raw: Bytes, zeros: Bytes, n: nat)
    requires |x| <= n && zeros == seq(n, _ => 0)
    ensures x + (raw + zeros)[..|raw| + n - |x|] == x + raw + seq(n - |x|, _ => 0)
  {
    assert (raw + zeros)[..|raw| + n - |x|] == raw + zeros[..n - |x|];
    assert zeros[..n - |x|] == seq(n - |x|, _ => 0);
  }

  lemma VersionRaw()
    ensures |RawBytes(Version)| == 7 && RawBytes(Version)[6] == 'n' as int
    ensures CommandData(Version) == RawBytes(Version) + seq(5, _ => 0)
  {}

  lemma LastLetters(raw: Bytes)
    requires |raw| > 7 && raw[|raw| - 1] == 'n' as int
    ensures CommandFromRaw(raw).None?
  {
    LastLetter(Candidate(raw));
  }

  lemma LastLetter(c: Command)
    ensures |RawBytes(c)| > 7 ==> RawBytes(c)[|RawBytes(c)| - 1] != 'n' as int
  {}

  /** A magic that overlaps itself loses the message after a partial magic. */
  lemma OverlapLosesMessage(sha: Hash, network: uint32, k: nat)
    requires 0 < k < 4 && MagicBytes(network)[k..] == MagicBytes(network)[..4 - k]
    ensures var m := MakeMessage(sha, network, Version, []);
            var junk := MagicBytes(network)[..k];
            && !Contains(junk, MagicBytes(network))
            && Messages(Run(sha, network, State(junk + MessageBytes(m), None)).0) == []
  {
    hide MakeMessage, MessageBytes, MagicBytes, CommandData, CommandFromRaw, StartFrom, TrimZeros;
    hide OccursAt, Run, ParseHeader, Contains;
    var magic, m := MagicBytes(network), MakeMessage(sha, network, Version, []);
    var c := CommandData(Version);
    var junk := magic[..k];
    var bytes := junk + MessageBytes(m);
    var tail := EmptyMessageBytes(sha, network, Version);
    ShiftedByOverlap(magic, c, tail, k);
    FoundAtZero(magic, bytes);
    NoSuchCommand(magic[4 - k..]);
    BadCommand(bytes);
    LostStep(sha, network, bytes);
    ShortHasNoMagic(junk, magic);
  }

  /** A message without payload: the magic, the command, and its length and checksum. */
  lemma EmptyMessageBytes(sha: Hash, network: uint32, command: Command) returns (tail: Bytes)
    ensures |MagicBytes(network)| == 4 && |CommandData(command)| == 12 && |tail| == 8
    ensures MessageBytes(MakeMessage(sha, network, command, [])) == MagicBytes(network) + CommandData(command) + tail
  {
    hide UInt32Bytes, CommandData;
    tail := UInt32Bytes(0) + UInt32Bytes(MakeMessage(sha, network, command, []).header.payloadChecksum);
  }

  lemma ShiftedByOverlap(magic: Bytes, c: Bytes, rest: Bytes, k: nat)
    requires |magic| == 4 && |c| == 12 && 0 < k < 4 && magic[k..] == magic[..4 - k]
    ensures var bytes := magic[..k] + (magic + c + rest);
            bytes[0..4] == magic && bytes[4..][..12] == magic[4 - k..] + c[..12 - k]
  {
    var bytes := magic[..k] + (magic + c + rest);
    assert bytes[0..4] == magic[..k] + magic[..4 - k] == magic;
    assert bytes[4..] == magic[4 - k..] + c + rest;
  }

  lemma ShortHasNoMagic(junk: Bytes, magic: Bytes)
    requires |junk| < |magic|
    ensures !Contains(junk, magic)
  {}

  lemma BadCommand(bytes: Bytes)
    requires |bytes| >= 16 && CommandFromRaw(TrimZeros(bytes[4..][..12])).None?
    ensures ParseHeader(bytes).Nil?
  {
    hide CommandFromRaw, TrimZeros;
  }

  lemma FoundAtZero(magic: Bytes, bytes: Bytes)
    requires |magic| <= |bytes| && bytes[0..|magic|] == magic
    ensures StartFrom(magic, bytes, 0) == 0
  {}

  lemma LostStep(sha: Hash, network: uint32, bytes: Bytes)
    requires 24 <= |bytes| < 28 && HeaderStart(network, bytes) == 0 && ParseHeader(bytes).Nil?
    ensures Messages(Run(sha, network, State(bytes, None)).0) == []
  {
    hide ParseHeader, StartFrom;
    assert bytes[0..] == bytes;
    var step := Step(sha, network, State(bytes, None));
    var next := State(bytes[4..], None);
    assert step.Continue? && step.state == next;
    ShortRun(sha, network, bytes[4..]);
    OnlyDiscarded(step.log[0].bytes, step.log[1].bytes);
    MessagesConcat(step.log, Run(sha, network, next).0);
  }

  /** Every message survives every magic-free prefix exactly when the magic does not overlap
      itself. */
  lemma ResynchronisationIff(sha: Hash, network: uint32)
    ensures NoSelfOverlap(MagicBytes(network)) <==>
            forall junk: Bytes, m: Message ::
              !Contains(junk, MagicBytes(network)) && WellFormed(sha, network, m) ==>
                Messages(Run(sha, network, State(junk + MessageBytes(m), None)).0) == [m]
  {
    var magic := MagicBytes(network);
    hide MagicBytes, Run, MessageBytes, MakeMessage, WellFormed, Contains;
    if NoSelfOverlap(magic) {
      forall junk: Bytes, m: Message | !Contains(junk, magic) && WellFormed(sha, network, m)
        ensures Messages(Run(sha, network, State(junk + MessageBytes(m), None)).0) == [m]
      {
        OneMessageFound(sha, network, junk, m);
      }
    } else {
      var k :| 0 < k < |magic| && magic[k..] == magic[..|magic| - k];
      OverlapLosesMessage(sha, network, k);
      MadeIsWellFormed(sha, network);
    }
  }

  lemma OneMessageFound(sha: Hash, network: uint32, junk: Bytes, m: Message)
    requires NoSelfOverlap(MagicBytes(network)) && !Contains(junk, MagicBytes(network)) && WellFormed(sha, network, m)
    ensures Messages(Run(sha, network, State(junk + MessageBytes(m), None)).0) == [m]
  {
    hide MagicBytes, Run, MessageBytes, WellFormed, Contains, NoSelfOverlap, Recognizable;
    var items := [Item(m, [])];
    NothingContainsMagic(network);
    RecognizableWithoutMagic(sha, network, junk, items);
    Resynchronises(sha, network, junk, items);
    assert items[1..] == [];
    assert Wire([], []) == [];
    assert Wire(junk, items) == junk + MessageBytes(m);
    var log := Run(sha, network, State(junk + MessageBytes(m), None)).0;
    assert Frames(log) == [Delivered(m)] + Frames([]);
    MessageFirst(log, m, []);
  }

  lemma NothingContainsMagic(network: uint32)
    ensures !Contains([], MagicBytes(network))
  {}

  lemma MadeIsWellFormed(sha: Hash, network: uint32)
    ensures WellFormed(sha, network, MakeMessage(sha, network, Version, []))
  {}
}
