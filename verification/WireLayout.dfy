/**
 What the bytes on the wire are, position by position, as the Bitcoin protocol prescribes them.

 Printers and parsers undo each other in many formats; these lemmas say that it is this one. Each
 parser is characterised by offsets and weights of bytes. By the round trips that settles the
 printers too.
 */
module WireLayout {
  import opened Binary
  import opened BitcoinEncoding
  import opened BitcoinDecoding
  import Hashes = SHA256Hash
  import opened Transaction
  import opened TransactionCodec
  import opened StoppingParsers
  import opened Block
  import Messages = Message
  import Headers = PeerController
  import Trees = PartialMerkleTree
  import FilteredBlocks = FilteredBlock

  function U16(s: Bytes, i: nat): nat
    requires i + 2 <= |s|
  {
    var a: int, b: int := s[i], s[i + 1];
    a + 0x100 * b
  }

  function U32(s: Bytes, i: nat): uint32
    requires i + 4 <= |s|
  {
    var a: int, b: int, c: int, d: int := s[i], s[i + 1], s[i + 2], s[i + 3];
    a + 0x100 * b + 0x1_0000 * c + 0x100_0000 * d
  }

  function U64(s: Bytes, i: nat): nat
    requires i + 8 <= |s|
  {
    U32(s, i) + 0x1_0000_0000 * U32(s, i + 4)
  }

  /** Two's complement. */
  function I64(s: Bytes, i: nat): int64
    requires i + 8 <= |s|
  {
    var u: int := U64(s, i);
    if s[i + 7] < 0x80 then u else u - 0x1_0000_0000_0000_0000
  }

  // ---------------------------------------------------------------------------------------
  // Integers.
  // ---------------------------------------------------------------------------------------

  lemma LittleEndianFirst(s: Bytes)
    requires s != []
    ensures FromLittleEndian(s) == s[0] + 256 * FromLittleEndian(s[1..])
  {
    assert Reverse(s) == Reverse(s[1..]) + [s[0]];
    ValueSnoc(Reverse(s[1..]), s[0], 256);
  }

  lemma ReadLayout16(s: Bytes)
    requires |s| == 2
    ensures FromLittleEndian(s) == U16(s, 0)
  {
    assert FromLittleEndian([]) == 0;
    hide FromLittleEndian;
    LittleEndianFirst(s);
    LittleEndianFirst(s[1..]);
    assert s[1..][1..] == [];
  }

  lemma ReadLayout32(s: Bytes)
    requires |s| == 4
    ensures FromLittleEndian(s) == U32(s, 0)
  {
    LittleEndianFirst(s);
    LittleEndianFirst(s[1..]);
    ReadLayout16(s[2..]);
    assert s[1..][1..] == s[2..];
  }

  lemma ReadLayout64(s: Bytes)
    requires |s| == 8
    ensures FromLittleEndian(s) == U64(s, 0)
  {
    hide FromLittleEndian;
    LittleEndianFirst(s);
    LittleEndianFirst(s[1..]);
    LittleEndianFirst(s[2..]);
    LittleEndianFirst(s[3..]);
    ReadLayout32(s[4..]);
    assert s[1..][1..] == s[2..] && s[2..][1..] == s[3..] && s[3..][1..] == s[4..];
  }

  /** Byte k of a printed integer, in either order, also for negative ones. */
  lemma PrintedByte(w: nat, v: int, k: nat)
    requires k < w
    ensures Pow(256, k) > 0
    ensures IntBytes(w, v, LittleEndianOrder)[k] == v / Pow(256, k) % 256
    ensures IntBytes(w, v, BigEndianOrder)[w - 1 - k] == v / Pow(256, k) % 256
  {
    BigEndianIndex(w, v, k);
    ByteWeight(k);
  }

  lemma UInt32Layout(s: Bytes)
    ensures ParseUInt32(s) == if |s| < 4 then Nil else Ok(U32(s, 0), s[4..])
  {
    if |s| >= 4 {
      ReadLayout32(s[..4]);
    }
  }

  /** A variable-length integer by its first byte. */
  lemma VarIntLayout(s: Bytes)
    ensures ParseVarInt(s) ==
              if s == [] then Nil
              else if s[0] < 0xfd then Ok(s[0], s[1..])
              else if s[0] == 0xfd then (if |s| < 3 then Nil else Ok(U16(s, 1), s[3..]))
              else if s[0] == 0xfe then (if |s| < 5 then Nil else Ok(U32(s, 1), s[5..]))
              else if |s| < 9 then Nil else Ok(U64(s, 1), s[9..])
  {
    if |s| >= 3 {
      ReadLayout16(s[1..3]);
    }
    if |s| >= 5 {
      ReadLayout32(s[1..5]);
    }
    if |s| >= 9 {
      ReadLayout64(s[1..9]);
    }
  }

  // ---------------------------------------------------------------------------------------
  // Hashes, out points, inputs, outputs.
  // ---------------------------------------------------------------------------------------

  /** A hash is held in the opposite order of its bytes on the wire. */
  lemma HashLayout(s: Bytes)
    requires |s| >= 32
    ensures Hashes.ParseHash(s).Ok? && Hashes.ParseHash(s).rest == s[32..]
    ensures forall k :: 0 <= k < 32 ==> Hashes.ParseHash(s).value[k] == s[31 - k]
  {}

  /** The 32 bytes at i, in opposite order. */
  function HashAt(s: Bytes, i: nat): Digest
    requires i + 32 <= |s|
  {
    seq(32, k requires 0 <= k < 32 => s[i + 31 - k])
  }

  lemma ParseHashAt(s: Bytes)
    requires |s| >= 32
    ensures Hashes.ParseHash(s) == Ok(HashAt(s, 0), s[32..])
  {
    HashLayout(s);
    assert Hashes.ParseHash(s).value == HashAt(s, 0);
  }

  lemma OutPointLayout(s: Bytes)
    ensures ParseOutPoint(s).Ok? <==> |s| >= 36
    ensures |s| >= 36 ==> ParseOutPoint(s) == Ok(OutPoint(HashAt(s, 0), U32(s, 32)), s[36..])
  {
    hide Hashes.ParseHash, ParseUInt32;
    Hashes.ParseHashCases(s);
    if |s| >= 32 {
      ParseHashAt(s);
      UInt32Layout(s[32..]);
    }
  }

  /** An input is read exactly if its script is not empty and all there, with a sequence number
      behind it. */
  lemma InputLayout(s: Bytes)
    ensures ParseInput(s).Ok? <==>
              && |s| >= 36 && ParseVarInt(s[36..]).Ok?
              && var n, r := ParseVarInt(s[36..]).value, ParseVarInt(s[36..]).rest;
                 0 < n <= MAX_INT64 && n + 4 <= |r|
    ensures ParseInput(s).Ok? ==>
              var n, r := ParseVarInt(s[36..]).value, ParseVarInt(s[36..]).rest;
              ParseInput(s) == Ok(Input(OutPoint(HashAt(s, 0), U32(s, 32)), r[..n], U32(r, n)), r[n + 4..])
  {
    hide ParseOutPoint, ParseVarInt, ParseUInt32;
    OutPointLayout(s);
    UInt32NeedsBytes([]);
    if |s| >= 36 && ParseVarInt(s[36..]).Ok? {
      var n, r := ParseVarInt(s[36..]).value, ParseVarInt(s[36..]).rest;
      if n <= |r| {
        UInt32Layout(r[n..]);
      }
    }
  }

  /** The value is signed. A script length of 0 takes all the rest, and so does one that is too
      large for a rest of a whole number of 256-byte chunks. */
  lemma OutputLayout(s: Bytes)
    ensures ParseOutput(s).Ok? <==>
              && |s| >= 8 && ParseVarInt(s[8..]).Ok?
              && var n, r := ParseVarInt(s[8..]).value, ParseVarInt(s[8..]).rest;
                 n <= MAX_INT64 && (n <= |r| || |r| % 256 == 0)
    ensures ParseOutput(s).Ok? ==>
              var n, r := ParseVarInt(s[8..]).value, ParseVarInt(s[8..]).rest;
              var k := if 0 < n <= |r| then n else |r|;
              ParseOutput(s) == Ok(Output(I64(s, 0), r[..k]), r[k..])
  {
    hide ParseValue, ParseVarInt;
    ValueLayout(s);
    if |s| >= 8 && ParseVarInt(s[8..]).Ok? {
      var r := ParseVarInt(s[8..]).rest;
      assert r[..|r|] == r && r[|r|..] == [];
    }
  }

  lemma ValueLayout(s: Bytes)
    ensures ParseValue(s) == if |s| < 8 then Nil else Ok(I64(s, 0), s[8..])
  {
    hide FromLittleEndian;
    if |s| >= 8 {
      ReadLayout64(s[..8]);
      WidthPowers();
      assert FromLittleEndian(s[..8]) == U64(s, 0);
      assert ToSigned(8, U64(s, 0)) == I64(s, 0);
    }
  }

  /** A transaction: the version in the first four bytes, the list of inputs, the list of outputs,
      neither of them empty, and the lock time in the four bytes behind them. */
  lemma TransactionLayout(s: Bytes, t: Transaction, rest: Bytes)
    ensures ParseTransaction(s) == Ok(t, rest) <==>
              (&& |s| >= 4 && t.version == U32(s, 0)
               && t.inputs != [] && t.outputs != []
               && ParseList(ParseInput, s[4..]).Ok?
               && var inputs := ParseList(ParseInput, s[4..]);
                  var outputs := ParseList(ParseOutput, inputs.rest);
                  && t.inputs == inputs.value
                  && outputs.Ok? && t.outputs == outputs.value
                  && |outputs.rest| >= 4 && rest == outputs.rest[4..]
                  && t.lockTime == LockTimeFromRaw(U32(outputs.rest, 0)))
  {
    hide ParseInput, ParseOutput, ParseVarInt, Repeat, ParseUInt32, LockTimeFromRaw;
    UInt32Layout(s);
    if |s| >= 4 && ParseList(ParseInput, s[4..]).Ok? {
      var inputs := ParseList(ParseInput, s[4..]);
      if ParseList(ParseOutput, inputs.rest).Ok? {
        UInt32Layout(ParseList(ParseOutput, inputs.rest).rest);
      }
    }
  }

  // ---------------------------------------------------------------------------------------
  // Blocks and messages.
  // ---------------------------------------------------------------------------------------

  lemma BlockHeaderLayout(s: Bytes)
    requires |s| >= 80
    ensures ParseBlockHeader(s)
         == Ok(BlockHeader(U32(s, 0), HashAt(s, 4), HashAt(s, 36), U32(s, 68), U32(s, 72), U32(s, 76)), s[80..])
  {
    hide ParseUInt32, Hashes.ParseHash;
    UInt32Layout(s);
    ParseHashAt(s[4..]);
    ParseHashAt(s[36..]);
    UInt32Layout(s[68..]);
    UInt32Layout(s[72..]);
    UInt32Layout(s[76..]);
    assert HashAt(s[4..], 0) == HashAt(s, 4) && HashAt(s[36..], 0) == HashAt(s, 36);
    assert s[4..][32..] == s[36..] && s[36..][32..] == s[68..];
    assert s[68..][4..] == s[72..] && s[72..][4..] == s[76..] && s[76..][4..] == s[80..];
  }

  /** An entry of a headers message is a header and a transaction count of zero. */
  lemma EntryLayout(s: Bytes, h: BlockHeader, rest: Bytes)
    ensures Headers.ParseEntry(s) == Ok(h, rest) <==>
              && |s| >= 80 && ParseVarInt(s[80..]) == Ok(0, rest)
              && h == BlockHeader(U32(s, 0), HashAt(s, 4), HashAt(s, 36), U32(s, 68), U32(s, 72), U32(s, 76))
  {
    hide ParseBlockHeader, ParseVarInt;
    BlockHeaderTraps(s);
    if |s| >= 80 {
      BlockHeaderLayout(s);
    }
  }

  /** The identifier of a block, which a request names: the double hash of the 80 bytes of its
      header, in the opposite order. */
  lemma HeaderHashLayout(sha: Hash, h: BlockHeader, rest: Bytes)
    ensures ParseBlockHeader(BlockHeaderBytes(h) + rest) == Ok(h, rest)
    ensures HeaderHash(sha, h) == HashAt(sha(sha(BlockHeaderBytes(h))), 0)
  {
    hide BlockHeaderBytes;
    BlockHeaderRoundTrip(h, rest);
    var d := sha(sha(BlockHeaderBytes(h)));
    assert Reverse(d) == HashAt(d, 0);
  }

  /** A message as its sender builds it: the magic of the network, the name of the command padded
      with zeros to twelve bytes, the length of the payload, the first four bytes of the double
      hash of the payload, and the payload. */
  lemma MessageLayout(sha: Hash, network: uint32, command: Messages.Command, payload: Bytes)
    requires |payload| < 0x1_0000_0000
    ensures var s, name := Messages.MessageBytes(Messages.MakeMessage(sha, network, command, payload)),
                           Messages.RawValue(command);
            && |s| == 24 + |payload|
            && U32(s, 0) == network
            && |name| <= 12
            && (forall k :: 0 <= k < 12 ==> s[4 + k] == if k < |name| then name[k] as int else 0)
            && U32(s, 16) == |payload|
            && s[20..24] == sha(sha(payload))[..4]
            && s[24..] == payload
  {
    hide UInt32Bytes, Messages.CommandData, Messages.ChecksumForPayload;
    var sum := Messages.ChecksumForPayload(sha, payload);
    var a, b, c, d := UInt32Bytes(network), Messages.CommandData(command), UInt32Bytes(|payload|), UInt32Bytes(sum);
    var s := Messages.MessageBytes(Messages.MakeMessage(sha, network, command, payload));
    assert s == a + b + c + d + payload;
    PrintedUInt32(network);
    PrintedUInt32(|payload|);
    ChecksumBytes(sha, payload);
    CommandBytes(command);
    assert s[0] == a[0] && s[1] == a[1] && s[2] == a[2] && s[3] == a[3];
    assert forall k :: 0 <= k < 12 ==> s[4 + k] == b[k];
    assert s[16] == c[0] && s[17] == c[1] && s[18] == c[2] && s[19] == c[3];
    assert s[20..24] == d;
  }

  lemma PrintedUInt32(v: uint32)
    ensures U32(UInt32Bytes(v), 0) == v
  {
    hide UInt32Bytes, U32;
    UInt32RoundTrip(v, []);
    UInt32Layout(UInt32Bytes(v) + []);
    assert UInt32Bytes(v) + [] == UInt32Bytes(v);
  }

  lemma ChecksumBytes(sha: Hash, payload: Bytes)
    ensures UInt32Bytes(Messages.ChecksumForPayload(sha, payload)) == sha(sha(payload))[..4]
  {
    UInt32Bytes4(sha(sha(payload)));
  }

  lemma CommandBytes(c: Messages.Command)
    ensures |Messages.RawValue(c)| <= 12
    ensures forall k :: 0 <= k < 12 ==>
              Messages.CommandData(c)[k] == if k < |Messages.RawValue(c)| then Messages.RawValue(c)[k] as int else 0
  {
    Messages.RawLength(c);
    AsciiNames(c);
    hide Messages.RawValue;
  }

  lemma AsciiNames(c: Messages.Command)
    ensures forall k :: 0 <= k < |Messages.RawValue(c)| ==> Messages.RawValue(c)[k] as int < 128
  {}

  // ---------------------------------------------------------------------------------------
  // Partial Merkle trees.
  // ---------------------------------------------------------------------------------------

  lemma {:induction false} HashesLayout(count: nat, s: Bytes)
    requires |s| >= 32 * count
    ensures var p := Repeat(Hashes.ParseHash, count, s);
            && p.Ok? && p.rest == s[32 * count..] && |p.value| == count
            && forall k :: 0 <= k < count ==> p.value[k] == HashAt(s, 32 * k)
  {
    hide Hashes.ParseHash;
    if count > 0 {
      ParseHashAt(s);
      HashesLayout(count - 1, s[32..]);
      SliceOfRest(s, 32, 32 * (count - 1));
      var p, q := Repeat(Hashes.ParseHash, count, s), Repeat(Hashes.ParseHash, count - 1, s[32..]);
      forall k | 0 <= k < count
        ensures p.value[k] == HashAt(s, 32 * k)
      {
        if k > 0 {
          assert p.value[k] == q.value[k - 1];
          assert HashAt(s[32..], 32 * (k - 1)) == HashAt(s, 32 * k);
        }
      }
    }
  }

  lemma {:induction false} FlagsLayout(count: nat, s: Bytes)
    requires |s| >= count
    ensures Repeat(ParseUInt8, count, s) == Ok(s[..count], s[count..])
  {
    if count > 0 {
      FlagsLayout(count - 1, s[1..]);
      assert [s[0]] + s[1..][..count - 1] == s[..count];
    }
  }

  /** A partial Merkle tree: the number of leaves, a counted list of hashes and a counted list of
      flag bytes, which are all that the initializer is given. */
  lemma TreeLayout(sha: Hash, s: Bytes, p: Trees.PartialMerkleTree, rest: Bytes)
    ensures FilteredBlocks.ParseTree(sha, s) == Ok(p, rest) <==>
              (&& |s| >= 4 && ParseVarInt(s[4..]).Ok?
               && var n, r := ParseVarInt(s[4..]).value, ParseVarInt(s[4..]).rest;
                  && 32 * n <= |r| && ParseVarInt(r[32 * n..]).Ok?
                  && var m, q := ParseVarInt(r[32 * n..]).value, ParseVarInt(r[32 * n..]).rest;
                     && m <= |q| && rest == q[m..]
                     && Trees.Init(sha, U32(s, 0), seq(n, k requires 0 <= k < n => HashAt(r, 32 * k)), q[..m]) == Got(p))
  {
    hide ParseUInt32, ParseVarInt, Trees.Init, Repeat, ParseUInt8, Hashes.ParseHash;
    UInt32Layout(s);
    if |s| >= 4 && ParseVarInt(s[4..]).Ok? {
      var n, r := ParseVarInt(s[4..]).value, ParseVarInt(s[4..]).rest;
      HashesTrap(n, r);
      if 32 * n <= |r| {
        HashesLayout(n, r);
        assert Repeat(Hashes.ParseHash, n, r).value == seq(n, k requires 0 <= k < n => HashAt(r, 32 * k));
        if ParseVarInt(r[32 * n..]).Ok? {
          var m, q := ParseVarInt(r[32 * n..]).value, ParseVarInt(r[32 * n..]).rest;
          FlagBytesParse(m, q);
          if m <= |q| {
            FlagsLayout(m, q);
          }
        }
      }
    }
  }
}
