/**
 Models/BlockHeader and Models/Block.
 */
module Block {
  import opened Binary
  import opened BitcoinEncoding
  import opened BitcoinDecoding
  import Hashes = SHA256Hash
  import opened Transaction
  import opened TransactionCodec

  datatype BlockHeader = BlockHeader(
    version: uint32,
    previousBlockHash: Digest,
    merkleRoot: Digest,
    timestamp: uint32,
    compactDifficulty: uint32,
    nonce: uint32)

  datatype Block = Block(header: BlockHeader, transactions: seq<Transaction>)

  function BlockHeaderBytes(h: BlockHeader): (s: Bytes)
    ensures |s| == 80
  {
    UInt32Bytes(h.version) + Hashes.HashBytes(h.previousBlockHash) + Hashes.HashBytes(h.merkleRoot)
      + UInt32Bytes(h.timestamp) + UInt32Bytes(h.compactDifficulty) + UInt32Bytes(h.nonce)
  }

  function ParseBlockHeader(s: Bytes): Parse<BlockHeader> {
    var (version, s1) :- ParseUInt32(s);
    var (previous, s2) :- Hashes.ParseHash(s1);
    var (merkleRoot, s3) :- Hashes.ParseHash(s2);
    var (timestamp, s4) :- ParseUInt32(s3);
    var (difficulty, s5) :- ParseUInt32(s4);
    var (nonce, s6) :- ParseUInt32(s5);
    Ok(BlockHeader(version, previous, merkleRoot, timestamp, difficulty, nonce), s6)
  }

  /** The identifier of a block. */
  function HeaderHash(sha: Hash, h: BlockHeader): Digest {
    Reverse(sha(sha(BlockHeaderBytes(h))))
  }

  function BlockBytes(b: Block): Bytes {
    BlockHeaderBytes(b.header) + VarIntBytes(|b.transactions|) + EncodeAll(TransactionBytes, b.transactions)
  }

  function ParseBlock(s: Bytes): Parse<Block> {
    var (header, s1) :- ParseBlockHeader(s);
    var (count, s2) :- ParseVarInt(s1);
    var (transactions, s3) :- Repeat(ParseTransaction, count, s2);
    Ok(Block(header, transactions), s3)
  }

  // ---------------------------------------------------------------------------------------
  // The source's form.
  // ---------------------------------------------------------------------------------------

  method BlockHeaderData(h: BlockHeader) returns (r: Bytes)
    ensures r == BlockHeaderBytes(h)
  {
    var data := new MutableData();
    AppendUInt32(data, h.version);
    var previous := Hashes.BitcoinData(h.previousBlockHash);
    data.AppendData(previous);
    var merkleRoot := Hashes.BitcoinData(h.merkleRoot);
    data.AppendData(merkleRoot);
    AppendUInt32(data, h.timestamp);
    AppendUInt32(data, h.compactDifficulty);
    AppendUInt32(data, h.nonce);
    r := data.bytes;
  }

  method BlockHeaderFromStream(stream: InputStream) returns (r: Outcome<BlockHeader>)
    modifies stream
    ensures stream.Agrees(ParseBlockHeader(old(stream.rest)), r)
  {
    hide ParseUInt32, Hashes.ParseHash;
    var version :- stream.ReadUInt32();
    var previousBlockHash :- Hashes.FromBitcoinStream(stream);
    var merkleRoot :- Hashes.FromBitcoinStream(stream);
    var timestamp :- stream.ReadUInt32();
    var compactDifficulty :- stream.ReadUInt32();
    var nonce :- stream.ReadUInt32();
    return Got(BlockHeader(version, previousBlockHash, merkleRoot, timestamp, compactDifficulty, nonce));
  }

  ghost predicate BlockFits(b: Block) {
    |b.transactions| <= MAX_UINT64 && forall t :: t in b.transactions ==> Fits(t)
  }

  method BlockData(b: Block) returns (r: Bytes)
    requires BlockFits(b)
    ensures r == BlockBytes(b)
  {
    hide TransactionBytes, EncodeAll, BlockHeaderBytes, VarIntBytes;
    var data := new MutableData();
    var header := BlockHeaderData(b.header);
    data.AppendData(header);
    data.AppendVarInt(|b.transactions|);
    ghost var head := data.bytes;
    EncodeAllEmpty(TransactionBytes);
    for i := 0 to |b.transactions|
      invariant data.bytes == head + EncodeAll(TransactionBytes, b.transactions[..i])
    {
      EncodeAllStep(TransactionBytes, b.transactions, i);
      var transaction := TransactionData(b.transactions[i]);
      data.AppendData(transaction);
    }
    assert b.transactions[..|b.transactions|] == b.transactions;
    r := data.bytes;
  }

  method BlockFromStream(stream: InputStream) returns (r: Outcome<Block>)
    modifies stream
    ensures stream.Agrees(ParseBlock(old(stream.rest)), r)
  {
    hide ParseBlockHeader, ParseVarInt, ParseTransaction;
    var header :- BlockHeaderFromStream(stream);
    var count :- stream.ReadVarInt();
    ghost var start := stream.rest;
    var transactions: seq<Transaction> := [];
    PrependEmpty(transactions, Repeat(ParseTransaction, count, start), []);
    for i := 0 to count
      invariant Prepend(transactions, Repeat(ParseTransaction, count - i, stream.rest))
             == Repeat(ParseTransaction, count, start)
    {
      RepeatStep(ParseTransaction, count - i, transactions, stream.rest);
      var transaction :- TransactionFromStream(stream);
      transactions := transactions + [transaction];
    }
    PrependEmpty(transactions, Repeat(ParseTransaction, 0, stream.rest), stream.rest);
    return Got(Block(header, transactions));
  }

  // ---------------------------------------------------------------------------------------
  // Round trips.
  // ---------------------------------------------------------------------------------------

  lemma BlockHeaderRoundTrip(h: BlockHeader, rest: Bytes)
    ensures ParseBlockHeader(BlockHeaderBytes(h) + rest) == Ok(h, rest)
  {
    hide UInt32Bytes, ParseUInt32, Hashes.HashBytes, Hashes.ParseHash;
    var s5 := UInt32Bytes(h.nonce) + rest;
    var s4 := UInt32Bytes(h.compactDifficulty) + s5;
    var s3 := UInt32Bytes(h.timestamp) + s4;
    var s2 := Hashes.HashBytes(h.merkleRoot) + s3;
    var s1 := Hashes.HashBytes(h.previousBlockHash) + s2;
    assert BlockHeaderBytes(h) + rest == UInt32Bytes(h.version) + s1;
    UInt32RoundTrip(h.version, s1);
    Hashes.HashRoundTrip(h.previousBlockHash, s2);
    Hashes.HashRoundTrip(h.merkleRoot, s3);
    UInt32RoundTrip(h.timestamp, s4);
    UInt32RoundTrip(h.compactDifficulty, s5);
    UInt32RoundTrip(h.nonce, rest);
  }

  lemma {:induction false} ParsedTransactions(count: nat, s: Bytes)
    requires Repeat(ParseTransaction, count, s).Ok?
    ensures forall t :: t in Repeat(ParseTransaction, count, s).value ==> Canonical(t)
  {
    hide ParseTransaction, Canonical;
    if count > 0 {
      ParsedIsCanonical(s);
      ParsedTransactions(count - 1, ParseTransaction(s).rest);
    }
  }

  /** A block comes back from the wire, leaving exactly what followed it, precisely when all its
      transactions are canonical; there need not be any. */
  lemma BlockRoundTrip(b: Block, rest: Bytes)
    requires BlockFits(b)
    ensures ParseBlock(BlockBytes(b) + rest) == Ok(b, rest)
       <==> forall t :: t in b.transactions ==> Canonical(t)
  {
    hide ParseTransaction, TransactionBytes, ParseBlockHeader, BlockHeaderBytes, Canonical, Fits;
    hide VarIntBytes, ParseVarInt, Repeat, EncodeAll;
    var s2 := EncodeAll(TransactionBytes, b.transactions) + rest;
    var s1 := VarIntBytes(|b.transactions|) + s2;
    assert BlockBytes(b) + rest == BlockHeaderBytes(b.header) + s1;
    BlockHeaderRoundTrip(b.header, s1);
    VarIntRoundTrip(|b.transactions|, s2);
    var p := Repeat(ParseTransaction, |b.transactions|, s2);
    if forall t :: t in b.transactions ==> Canonical(t) {
      forall t, r | t in b.transactions
        ensures ParseTransaction(TransactionBytes(t) + r) == Ok(t, r)
      {
        CanonicalRoundTrip(t, r);
      }
      RepeatRoundTrip(ParseTransaction, TransactionBytes, b.transactions, rest);
    } else if p.Ok? {
      ParsedTransactions(|b.transactions|, s2);
    }
  }
}
