/**
 Models/Message and Models/MessageHeader: the envelope of every message on the wire.
 */
module Message {
  import opened Binary
  import opened BitcoinEncoding
  import opened BitcoinDecoding

  datatype Command =
    | Version | VersionAck | Address | Inventory | GetData | NotFound | GetBlocks | GetHeaders
    | Transaction | Block | Headers | GetAddress | MemPool | Ping | Pong | Reject | FilterLoad
    | FilterAdd | FilterClear | FilteredBlock | Alert

  function RawValue(c: Command): string {
    match c
    case Version => "version"
    case VersionAck => "verack"
    case Address => "addr"
    case Inventory => "inv"
    case GetData => "getdata"
    case NotFound => "notfound"
    case GetBlocks => "getblocks"
    case GetHeaders => "getheaders"
    case Transaction => "tx"
    case Block => "block"
    case Headers => "headers"
    case GetAddress => "getaddr"
    case MemPool => "mempool"
    case Ping => "ping"
    case Pong => "pong"
    case Reject => "reject"
    case FilterLoad => "filterload"
    case FilterAdd => "filteradd"
    case FilterClear => "filterclear"
    case FilteredBlock => "merkleblock"
    case Alert => "alert"
  }

  const ENCODED_LENGTH := 12

  function RawBytes(c: Command): Bytes {
    Ascii(RawValue(c))
  }

  lemma RawLength(c: Command)
    ensures 2 <= |RawBytes(c)| <= 11
  {}

  lemma RawEndsNonzero(c: Command)
    ensures |RawBytes(c)| > 0 && RawBytes(c)[|RawBytes(c)| - 1] != 0
  {}

  /** The command string in 12 bytes, null padded. */
  function CommandData(c: Command): (s: Bytes)
    ensures |s| == ENCODED_LENGTH
  {
    RawLength(c);
    RawBytes(c) + seq(ENCODED_LENGTH - |RawBytes(c)|, _ => 0)
  }

  /** The only command a string can name, going by its length and a few characters. */
  function Candidate(raw: Bytes): Command {
    if |raw| <= 2 then Transaction
    else if |raw| == 3 then Inventory
    else if |raw| == 4 then
      if raw[0] == 'a' as int then Address else if raw[1] == 'i' as int then Ping else Pong
    else if |raw| == 5 then if raw[0] == 'b' as int then Block else Alert
    else if |raw| == 6 then if raw[0] == 'v' as int then VersionAck else Reject
    else if |raw| == 7 then
      if raw[0] == 'v' as int then Version
      else if raw[0] == 'h' as int then Headers
      else if raw[0] == 'm' as int then MemPool
      else if raw[3] == 'd' as int then GetData
      else GetAddress
    else if |raw| == 8 then NotFound
    else if |raw| == 9 then if raw[0] == 'g' as int then GetBlocks else FilterAdd
    else if |raw| == 10 then if raw[0] == 'g' as int then GetHeaders else FilterLoad
    else if raw[0] == 'm' as int then FilteredBlock
    else FilterClear
  }

  lemma CandidateOfRaw(c: Command)
    ensures Candidate(RawBytes(c)) == c
  {
    hide RawBytes, Candidate;
    if |RawBytes(c)| <= 6 {
      ShortCandidate(c);
    } else {
      LongCandidate(c);
    }
  }

  lemma ShortCandidate(c: Command)
    requires |RawBytes(c)| <= 6
    ensures Candidate(RawBytes(c)) == c
  {}

  lemma LongCandidate(c: Command)
    requires |RawBytes(c)| > 6
    ensures Candidate(RawBytes(c)) == c
  {}

  /** `Command(rawValue:)`. */
  function CommandFromRaw(raw: Bytes): Option<Command> {
    var c := Candidate(raw);
    if RawBytes(c) == raw then Some(c) else None
  }

  lemma CommandFromRawExact(raw: Bytes, c: Command)
    ensures CommandFromRaw(raw) == Some(c) <==> RawBytes(c) == raw
  {
    CandidateOfRaw(c);
  }

  lemma {:induction false} TrimPadding(s: Bytes, n: nat)
    requires s != [] && s[|s| - 1] != 0
    ensures TrimZeros(s + seq(n, _ => 0)) == s
  {
    var t := s + seq(n, _ => 0);
    if n == 0 {
      assert t == s;
    } else {
      assert t[..|t| - 1] == s + seq(n - 1, _ => 0);
      TrimPadding(s, n - 1);
    }
  }

  lemma {:induction false} TrimIsPadding(s: Bytes)
    ensures |TrimZeros(s)| <= |s|
    ensures s == TrimZeros(s) + seq(|s| - |TrimZeros(s)|, _ => 0)
  {
    if s != [] && s[|s| - 1] == 0 {
      TrimIsPadding(s[..|s| - 1]);
    }
  }

  /** Twelve bytes name a command exactly when they are that command's encoding. */
  lemma CommandRoundTrip(s: Bytes, c: Command)
    requires |s| == ENCODED_LENGTH
    ensures CommandFromRaw(TrimZeros(s)) == Some(c) <==> s == CommandData(c)
  {
    hide CommandFromRaw, RawBytes;
    var raw := RawBytes(c);
    RawLength(c);
    RawEndsNonzero(c);
    TrimPadding(raw, ENCODED_LENGTH - |raw|);
    TrimIsPadding(s);
    CommandFromRawExact(TrimZeros(s), c);
  }

  // ---------------------------------------------------------------------------------------
  // Headers.
  // ---------------------------------------------------------------------------------------

  datatype Header =
    Header(network: uint32, command: Command, payloadLength: uint32, payloadChecksum: uint32)

  const HEADER_LENGTH := 24

  function HeaderBytes(h: Header): (s: Bytes)
    ensures |s| == HEADER_LENGTH
  {
    UInt32Bytes(h.network) + CommandData(h.command)
      + UInt32Bytes(h.payloadLength) + UInt32Bytes(h.payloadChecksum)
  }

  function ParseHeader(s: Bytes): (r: Parse<Header>)
    ensures !r.Trap?
  {
    var (network, s1) :- ParseUInt32(s);
    var (raw, s2) :- ParseASCII(ENCODED_LENGTH, s1);
    var command := CommandFromRaw(raw);
    if command.None? then Nil
    else
      var (length, s3) :- ParseUInt32(s2);
      var (checksum, s4) :- ParseUInt32(s3);
      Ok(Header(network, command.value, length, checksum), s4)
  }

  method HeaderData(h: Header) returns (data: Bytes)
    ensures data == HeaderBytes(h)
  {
    var bytes := new MutableData();
    bytes.AppendInteger(4, h.network);
    bytes.AppendData(CommandData(h.command));
    bytes.AppendInteger(4, h.payloadLength);
    bytes.AppendInteger(4, h.payloadChecksum);
    data := bytes.bytes;
  }

  method HeaderFromStream(stream: InputStream) returns (r: Outcome<Header>)
    modifies stream
    ensures stream.Agrees(ParseHeader(old(stream.rest)), r)
  {
    var network :- stream.ReadUInt32();
    var raw :- stream.ReadASCIIStringWithLength(ENCODED_LENGTH);
    var command := CommandFromRaw(raw);
    if command.None? {
      return GotNil;
    }
    var length :- stream.ReadUInt32();
    var checksum :- stream.ReadUInt32();
    return Got(Header(network, command.value, length, checksum));
  }

  lemma HeaderRoundTrip(h: Header, rest: Bytes)
    ensures ParseHeader(HeaderBytes(h) + rest) == Ok(h, rest)
  {
    hide CommandFromRaw, CommandData, TrimZeros, UInt32Bytes, FromLittleEndian;
    var c := CommandData(h.command);
    var r3 := UInt32Bytes(h.payloadChecksum) + rest;
    var r2 := UInt32Bytes(h.payloadLength) + r3;
    var r1 := c + r2;
    assert HeaderBytes(h) + rest == UInt32Bytes(h.network) + r1;
    UInt32RoundTrip(h.network, r1);
    assert r1[..ENCODED_LENGTH] == c && r1[ENCODED_LENGTH..] == r2;
    CommandRoundTrip(c, h.command);
    UInt32RoundTrip(h.payloadLength, r3);
    UInt32RoundTrip(h.payloadChecksum, rest);
  }

  /** The bytes a header is parsed from are the ones it is printed as: there is no other way to
      write it. */
  lemma ParsedHeaderIsEncoded(s: Bytes)
    requires ParseHeader(s).Ok?
    ensures s == HeaderBytes(ParseHeader(s).value) + ParseHeader(s).rest
  {
    hide CommandFromRaw, CommandData, TrimZeros, UInt32Bytes, FromLittleEndian;
    var h, rest := ParseHeader(s).value, ParseHeader(s).rest;
    UInt32Bytes4(s);
    SliceOfRest(s, 4, 12);
    CommandRoundTrip(s[4..16], h.command);
    UInt32Bytes4(s[16..]);
    SliceOfRest(s, 16, 4);
    UInt32Bytes4(s[20..]);
    SliceOfRest(s, 20, 4);
    assert rest == s[24..];
    assert s == s[..4] + s[4..16] + s[16..20] + s[20..24] + s[24..];
  }

  /** Only the first 24 bytes decide whether a header parses, and as what. */
  lemma ParseHeaderAppend(s: Bytes, t: Bytes)
    requires |s| >= HEADER_LENGTH
    ensures ParseHeader(s).Ok? ==> ParseHeader(s + t) == Ok(ParseHeader(s).value, ParseHeader(s).rest + t)
    ensures !ParseHeader(s).Ok? ==> ParseHeader(s).Nil? && ParseHeader(s + t).Nil?
  {
    hide ParseHeader, HeaderBytes;
    if ParseHeader(s).Ok? {
      var h, rest := ParseHeader(s).value, ParseHeader(s).rest;
      ParsedHeaderIsEncoded(s);
      assert s + t == HeaderBytes(h) + (rest + t);
      HeaderRoundTrip(h, rest + t);
    } else if ParseHeader(s + t).Ok? {
      var h, rest := ParseHeader(s + t).value, ParseHeader(s + t).rest;
      ParsedHeaderIsEncoded(s + t);
      assert (s + t)[..24] == s[..24] == HeaderBytes(h);
      assert s == HeaderBytes(h) + s[24..];
      HeaderRoundTrip(h, s[24..]);
    }
  }

  // ---------------------------------------------------------------------------------------
  // Messages.
  // ---------------------------------------------------------------------------------------

  datatype Message = Message(header: Header, payload: Bytes)

  function MessageBytes(m: Message): Bytes {
    HeaderBytes(m.header) + m.payload
  }

  /** The first four bytes of the double hash as an integer. */
  function ChecksumForPayload(sha: Hash, payload: Bytes): uint32 {
    ParseUInt32(sha(sha(payload))).value
  }

  predicate IsChecksumValid(sha: Hash, m: Message) {
    m.header.payloadChecksum == ChecksumForPayload(sha, m.payload)
  }

  /** `Message(network:command:payloadData:)`: what a sender builds. */
  function MakeMessage(sha: Hash, network: uint32, command: Command, payload: Bytes): Message
    requires |payload| < 0x1_0000_0000
  {
    Message(Header(network, command, |payload|, ChecksumForPayload(sha, payload)), payload)
  }

  ghost predicate WellFormed(sha: Hash, network: uint32, m: Message) {
    && |m.payload| < 0x1_0000_0000
    && m == MakeMessage(sha, network, m.header.command, m.payload)
  }

  method MessageData(m: Message) returns (data: Bytes)
    ensures data == MessageBytes(m)
  {
    var header := HeaderData(m.header);
    var bytes := new MutableData();
    bytes.AppendData(header);
    bytes.AppendData(m.payload);
    data := bytes.bytes;
  }

  function MagicBytes(network: uint32): (s: Bytes)
    ensures |s| == 4
  {
    UInt32Bytes(network)
  }
}
