/**
 Models/FilteredBlock, with the wire format of PartialMerkleTree.
 */
module FilteredBlock {
  import opened Binary
  import opened BitcoinEncoding
  import opened BitcoinDecoding
  import Hashes = SHA256Hash
  import opened PartialMerkleTree
  import opened PrunedTrees
  import opened MerkleProofs
  import opened Block
  import Transaction

  datatype FilteredBlock = FilteredBlock(header: BlockHeader, partialMerkleTree: PartialMerkleTree)

  predicate MerkleProofIsValid(b: FilteredBlock) {
    b.header.merkleRoot == b.partialMerkleTree.rootHash
  }

  function TreeBytes(p: PartialMerkleTree): Bytes {
    UInt32Bytes(p.totalLeafNodes)
      + VarIntBytes(|p.hashes|) + EncodeAll(Hashes.HashBytes, p.hashes)
      + VarIntBytes(|p.flags|) + p.flags
  }

  function FromOutcome<T>(r: Outcome<T>, rest: Bytes): Parse<T> {
    match r
    case Got(v) => Ok(v, rest)
    case GotNil => Nil
    case Trapped => Trap
  }

  function ParseTree(sha: Hash, s: Bytes): Parse<PartialMerkleTree> {
    var (totalLeafNodes, s1) :- ParseUInt32(s);
    var (hashesCount, s2) :- ParseVarInt(s1);
    var (hashes, s3) :- Repeat(Hashes.ParseHash, hashesCount, s2);
    var (flagBytesCount, s4) :- ParseVarInt(s3);
    var (flags, s5) :- Repeat(ParseUInt8, flagBytesCount, s4);
    FromOutcome(Init(sha, totalLeafNodes, hashes, flags), s5)
  }

  function FilteredBlockBytes(b: FilteredBlock): Bytes {
    BlockHeaderBytes(b.header) + TreeBytes(b.partialMerkleTree)
  }

  function ParseFilteredBlock(sha: Hash, s: Bytes): Parse<FilteredBlock> {
    var (header, s1) :- ParseBlockHeader(s);
    var (tree, s2) :- ParseTree(sha, s1);
    var b := FilteredBlock(header, tree);
    if MerkleProofIsValid(b) then Ok(b, s2) else Nil
  }

  // ---------------------------------------------------------------------------------------
  // The source's form.
  // ---------------------------------------------------------------------------------------

  ghost predicate TreeFits(p: PartialMerkleTree) {
    |p.hashes| <= MAX_UINT64 && |p.flags| <= MAX_UINT64
  }

  method TreeData(p: PartialMerkleTree) returns (r: Bytes)
    requires TreeFits(p)
    ensures r == TreeBytes(p)
  {
    hide Hashes.HashBytes, EncodeAll, VarIntBytes, UInt32Bytes;
    var data := new MutableData();
    Transaction.AppendUInt32(data, p.totalLeafNodes);
    data.AppendVarInt(|p.hashes|);
    ghost var head := data.bytes;
    EncodeAllEmpty(Hashes.HashBytes);
    for i := 0 to |p.hashes|
      invariant data.bytes == head + EncodeAll(Hashes.HashBytes, p.hashes[..i])
    {
      EncodeAllStep(Hashes.HashBytes, p.hashes, i);
      var hash := Hashes.BitcoinData(p.hashes[i]);
      data.AppendData(hash);
    }
    assert p.hashes[..|p.hashes|] == p.hashes;
    data.AppendVarInt(|p.flags|);
    head := data.bytes;
    for i := 0 to |p.flags|
      invariant data.bytes == head + p.flags[..i]
    {
      data.AppendUInt8(p.flags[i]);
    }
    r := data.bytes;
  }

  method HashesFromStream(stream: InputStream, count: nat) returns (r: Outcome<seq<Digest>>)
    modifies stream
    ensures stream.Agrees(Repeat(Hashes.ParseHash, count, old(stream.rest)), r)
  {
    hide Hashes.ParseHash;
    var hashes: seq<Digest> := [];
    PrependEmpty(hashes, Repeat(Hashes.ParseHash, count, stream.rest), []);
    for i := 0 to count
      invariant Prepend(hashes, Repeat(Hashes.ParseHash, count - i, stream.rest))
             == Repeat(Hashes.ParseHash, count, old(stream.rest))
    {
      RepeatStep(Hashes.ParseHash, count - i, hashes, stream.rest);
      var hash :- Hashes.FromBitcoinStream(stream);
      hashes := hashes + [hash];
    }
    PrependEmpty(hashes, Repeat(Hashes.ParseHash, 0, stream.rest), stream.rest);
    return Got(hashes);
  }

  method FlagsFromStream(stream: InputStream, count: nat) returns (r: Outcome<Bytes>)
    modifies stream
    ensures stream.Agrees(Repeat(ParseUInt8, count, old(stream.rest)), r)
  {
    hide ParseUInt8;
    var flags: Bytes := [];
    PrependEmpty(flags, Repeat(ParseUInt8, count, stream.rest), []);
    for i := 0 to count
      invariant Prepend(flags, Repeat(ParseUInt8, count - i, stream.rest))
             == Repeat(ParseUInt8, count, old(stream.rest))
    {
      RepeatStep(ParseUInt8, count - i, flags, stream.rest);
      var flagByte :- stream.ReadUInt8();
      flags := flags + [flagByte];
    }
    PrependEmpty(flags, Repeat(ParseUInt8, 0, stream.rest), stream.rest);
    return Got(flags);
  }

  method TreeFromStream(sha: Hash, stream: InputStream) returns (r: Outcome<PartialMerkleTree>)
    modifies stream
    ensures stream.Agrees(ParseTree(sha, old(stream.rest)), r)
  {
    hide ParseUInt32, ParseVarInt, Repeat, Init;
    var totalLeafNodes :- stream.ReadUInt32();
    var hashesCount :- stream.ReadVarInt();
    var hashes :- HashesFromStream(stream, hashesCount);
    var flagBytesCount :- stream.ReadVarInt();
    var flags :- FlagsFromStream(stream, flagBytesCount);
    r := FromParts(sha, totalLeafNodes, hashes, flags);
  }

  method FilteredBlockData(b: FilteredBlock) returns (r: Bytes)
    requires TreeFits(b.partialMerkleTree)
    ensures r == FilteredBlockBytes(b)
  {
    var data := new MutableData();
    var header := BlockHeaderData(b.header);
    data.AppendData(header);
    var tree := TreeData(b.partialMerkleTree);
    data.AppendData(tree);
    r := data.bytes;
  }

  method FilteredBlockFromStream(sha: Hash, stream: InputStream) returns (r: Outcome<FilteredBlock>)
    modifies stream
    ensures stream.Agrees(ParseFilteredBlock(sha, old(stream.rest)), r)
  {
    hide ParseBlockHeader, ParseTree;
    var header :- BlockHeaderFromStream(stream);
    var partialMerkleTree :- TreeFromStream(sha, stream);
    var filteredBlock := FilteredBlock(header, partialMerkleTree);
    if !MerkleProofIsValid(filteredBlock) {
      return GotNil;
    }
    return Got(filteredBlock);
  }

  // ---------------------------------------------------------------------------------------
  // Round trips, and what an accepted block proves.
  // ---------------------------------------------------------------------------------------

  function SingleByte(b: byte): Bytes {
    [b]
  }

  lemma {:induction false} EncodeBytes(s: Bytes)
    ensures EncodeAll(SingleByte, s) == s
  {
    if s == [] {
    } else {
      EncodeBytes(s[..|s| - 1]);
    }
  }

  lemma ByteRoundTrip(b: byte, rest: Bytes)
    ensures ParseUInt8(SingleByte(b) + rest) == Ok(b, rest)
  {
    assert (SingleByte(b) + rest)[1..] == rest;
  }

  lemma FlagsRoundTrip(flags: Bytes, rest: Bytes)
    ensures Repeat(ParseUInt8, |flags|, flags + rest) == Ok(flags, rest)
  {
    hide ParseUInt8, SingleByte, Repeat, EncodeAll;
    EncodeBytes(flags);
    forall b: byte, r: Bytes | b in flags ensures ParseUInt8(SingleByte(b) + r) == Ok(b, r) {
      ByteRoundTrip(b, r);
    }
    RepeatRoundTrip(ParseUInt8, SingleByte, flags, rest);
  }

  /** A partial Merkle tree comes back from the wire exactly when the initializer accepts its
      parts and yields that very value. */
  lemma TreeRoundTrip(sha: Hash, p: PartialMerkleTree, rest: Bytes)
    requires TreeFits(p)
    ensures ParseTree(sha, TreeBytes(p) + rest)
         == FromOutcome(Init(sha, p.totalLeafNodes, p.hashes, p.flags), rest)
    ensures ParseTree(sha, TreeBytes(p) + rest) == Ok(p, rest)
       <==> Init(sha, p.totalLeafNodes, p.hashes, p.flags) == Got(p)
  {
    hide UInt32Bytes, ParseUInt32, VarIntBytes, ParseVarInt, EncodeAll, Repeat, Init;
    hide Hashes.HashBytes, Hashes.ParseHash, ParseUInt8;
    var s4 := p.flags + rest;
    var s3 := VarIntBytes(|p.flags|) + s4;
    var s2 := EncodeAll(Hashes.HashBytes, p.hashes) + s3;
    var s1 := VarIntBytes(|p.hashes|) + s2;
    assert TreeBytes(p) + rest == UInt32Bytes(p.totalLeafNodes) + s1;
    UInt32RoundTrip(p.totalLeafNodes, s1);
    VarIntRoundTrip(|p.hashes|, s2);
    forall d: Digest, r: Bytes | d in p.hashes
      ensures Hashes.ParseHash(Hashes.HashBytes(d) + r) == Ok(d, r)
    {
      Hashes.HashRoundTrip(d, r);
    }
    RepeatRoundTrip(Hashes.ParseHash, Hashes.HashBytes, p.hashes, s3);
    VarIntRoundTrip(|p.flags|, s4);
    FlagsRoundTrip(p.flags, rest);
  }

  /** A filtered block comes back exactly when its tree is one the initializer yields and its
      header commits to the root of that tree. */
  lemma FilteredBlockRoundTrip(sha: Hash, b: FilteredBlock, rest: Bytes)
    requires TreeFits(b.partialMerkleTree)
    ensures var p := b.partialMerkleTree;
            (ParseFilteredBlock(sha, FilteredBlockBytes(b) + rest) == Ok(b, rest))
              == (Init(sha, p.totalLeafNodes, p.hashes, p.flags) == Got(p) && MerkleProofIsValid(b))
  {
    hide ParseTree, TreeBytes, Init, ParseBlockHeader, BlockHeaderBytes;
    var s1 := TreeBytes(b.partialMerkleTree) + rest;
    assert FilteredBlockBytes(b) + rest == BlockHeaderBytes(b.header) + s1;
    BlockHeaderRoundTrip(b.header, s1);
    TreeRoundTrip(sha, b.partialMerkleTree, rest);
  }

  lemma ParsedTreeIsInit(sha: Hash, s: Bytes)
    requires ParseTree(sha, s).Ok?
    ensures var p := ParseTree(sha, s).value;
            Init(sha, p.totalLeafNodes, p.hashes, p.flags) == Got(p)
  {
    hide ParseUInt32, ParseVarInt, Repeat, ParseNode;
  }

  /** If the header of an accepted filtered block commits to the leaves of a perfect tree of the
      announced height, the hashes it reports as matching are leaves, in order, or the walk down
      its tree and the full tree has found a collision. */
  lemma AcceptedBlockReportsLeaves(sha: Hash, s: Bytes, leaves: seq<Digest>)
    requires ParseFilteredBlock(sha, s).Ok?
    requires var b := ParseFilteredBlock(sha, s).value;
             && b.partialMerkleTree.totalLeafNodes >= 1
             && |leaves| == Pow(2, TreeHeight(b.partialMerkleTree.totalLeafNodes))
             && b.header.merkleRoot == MerkleRoot(sha, leaves, TreeHeight(b.partialMerkleTree.totalLeafNodes))
    ensures var t := ParseFilteredBlock(sha, s).value.partialMerkleTree;
            var p := CollisionOf(sha, t.totalLeafNodes, t.hashes, t.flags, leaves);
            if p.0 == p.1 then exists at :: IsSubsequence(t.matchingHashes, leaves, at)
            else Collide(sha, p.0, p.1)
  {
    hide ParseBlockHeader, ParseTree, Init, MerkleRoot, IsSubsequence, CollisionOf, TreeHeight, Collide;
    ParsedTreeIsInit(sha, ParseBlockHeader(s).rest);
    var t := ParseFilteredBlock(sha, s).value.partialMerkleTree;
    AcceptedMatchesAreLeaves(sha, t.totalLeafNodes, t.hashes, t.flags, leaves);
  }

  lemma HeightBound(n: uint32)
    requires n >= 1
    ensures Pow(2, TreeHeight(n)) <= 0x1_0000_0000
  {
    hide TreeHeight;
    var h := TreeHeight(n);
    ByteWeight(4);
    WidthPowers();
    if h > 32 {
      PowMonotonic(2, 32, h - 1);
    } else {
      PowMonotonic(2, h, 32);
    }
  }

  /** Conversely, for every choice of leaves of a tree the header commits to, there is a filtered
      block that is accepted from the wire and reports exactly those leaves, in order. */
  lemma HonestBlockIsAccepted(
      sha: Hash, header: BlockHeader, n: uint32, leaves: seq<Digest>, wanted: seq<bool>, rest: Bytes)
    requires n >= 1 && |leaves| == |wanted| == Pow(2, TreeHeight(n))
    requires header.merkleRoot == MerkleRoot(sha, leaves, TreeHeight(n))
    ensures var b := FilteredBlock(header, Decoded(sha, n, Prune(sha, leaves, wanted, TreeHeight(n))));
            && ParseFilteredBlock(sha, FilteredBlockBytes(b) + rest) == Ok(b, rest)
            && b.partialMerkleTree.matchingHashes == Selected(leaves, wanted)
  {
    hide ParseFilteredBlock, FilteredBlockBytes, MerkleRoot, TreeHeight, Selected, Init, Prune;
    var t := Prune(sha, leaves, wanted, TreeHeight(n));
    PruneIsHonest(sha, leaves, wanted, TreeHeight(n));
    InitOfEncoding(sha, n, t);
    Counting(t, TreeHeight(n));
    HeightBound(n);
    FilteredBlockRoundTrip(sha, FilteredBlock(header, Decoded(sha, n, t)), rest);
  }
}
