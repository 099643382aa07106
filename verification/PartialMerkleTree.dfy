/**
 PartialMerkleTree: rebuilds a Merkle root from a pruned tree given as flag bits and hashes.
 */
module PartialMerkleTree {
  import opened Binary
  import opened BitcoinEncoding
  import opened BitcoinDecoding

  datatype MerkleTreeNode =
    MerkleTreeNode(hash: Digest, left: Option<MerkleTreeNode>, right: Option<MerkleTreeNode>)

  datatype PartialMerkleTree = PartialMerkleTree(
    totalLeafNodes: uint32,
    hashes: seq<Digest>,
    flags: Bytes,
    rootHash: Digest,
    matchingHashes: seq<Digest>)

  /** What the recursion advances: the matches so far and the two read positions. */
  datatype Cursor = Cursor(matchingHashes: seq<Digest>, flagBitIndex: nat, hashIndex: nat)

  /** The 64 bytes hashed for an inner node. */
  function Children(left: Digest, right: Digest): (s: Bytes)
    ensures |s| == 64
  {
    Reverse(left) + Reverse(right)
  }

  function NodeHash(sha: Hash, left: Digest, right: Digest): Digest {
    Reverse(sha(sha(Children(left, right))))
  }

  /** Flag bytes are taken last byte first, and the bits of a byte least significant first. */
  function FlagBitAtIndex(index: nat, flags: Bytes): (bit: int)
    requires index < |flags| * 8
    ensures bit == 0 || bit == 1
  {
    PowPositive(2, index % 8);
    flags[|flags| - index / 8 - 1] / Pow(2, index % 8) % 2
  }

  /** The least h with n <= 2^h, that is, the logarithm of n to base 2 rounded up. */
  function TreeHeight(n: nat): (h: nat)
    requires n >= 1
    ensures n <= Pow(2, h)
    ensures h > 0 ==> Pow(2, h - 1) < n
  {
    if n == 1 then 0 else 1 + TreeHeight((n + 1) / 2)
  }

  /** Both children are always parsed, also when the left one has failed. */
  function ParseNode(sha: Hash, height: nat, hashes: seq<Digest>, flags: Bytes, c: Cursor)
    : (Option<MerkleTreeNode>, Cursor)
  {
    if c.hashIndex >= |hashes| || c.flagBitIndex >= |flags| * 8 then (None, c)
    else
      var flag := FlagBitAtIndex(c.flagBitIndex, flags);
      var c0 := c.(flagBitIndex := c.flagBitIndex + 1);
      if height > 0 && flag == 1 then
        var (left, c1) := ParseNode(sha, height - 1, hashes, flags, c0);
        var (right, c2) := ParseNode(sha, height - 1, hashes, flags, c1);
        if left.None? || right.None? then (None, c2)
        else
          (Some(MerkleTreeNode(NodeHash(sha, left.value.hash, right.value.hash), left, right)), c2)
      else
        var hash := hashes[c.hashIndex];
        var matching := if height == 0 && flag == 1 then c.matchingHashes + [hash] else c.matchingHashes;
        (Some(MerkleTreeNode(hash, None, None)),
         Cursor(matching, c.flagBitIndex + 1, c.hashIndex + 1))
  }

  predicate PaddingIsZero(from: nat, flags: Bytes) {
    forall i :: from <= i < |flags| * 8 ==> FlagBitAtIndex(i, flags) == 0
  }

  /** What `init?` yields: nil, a value, or a stopped program (no height for zero leaves). */
  function Init(sha: Hash, totalLeafNodes: uint32, hashes: seq<Digest>, flags: Bytes)
    : Outcome<PartialMerkleTree>
  {
    if totalLeafNodes == 0 then Trapped
    else
      var (node, c) := ParseNode(sha, TreeHeight(totalLeafNodes), hashes, flags, Cursor([], 0, 0));
      if node.None? || c.hashIndex < |hashes| then GotNil
      else if c.flagBitIndex / 8 != |flags| - 1 && c.flagBitIndex != |flags| * 8 then GotNil
      else if !PaddingIsZero(c.flagBitIndex, flags) then GotNil
      else Got(PartialMerkleTree(totalLeafNodes, hashes, flags, node.value.hash, c.matchingHashes))
  }

  // ---------------------------------------------------------------------------------------
  // The initializer in the source's form.
  // ---------------------------------------------------------------------------------------

  method NodeWithHeight(sha: Hash, height: nat, hashes: seq<Digest>, flags: Bytes,
                        matching: seq<Digest>, flagIndex: nat, index: nat)
    returns (node: Option<MerkleTreeNode>,
             matchingHashes: seq<Digest>, flagBitIndex: nat, hashIndex: nat)
    ensures (node, Cursor(matchingHashes, flagBitIndex, hashIndex))
         == ParseNode(sha, height, hashes, flags, Cursor(matching, flagIndex, index))
  {
    matchingHashes, flagBitIndex, hashIndex := matching, flagIndex, index;
    if hashIndex >= |hashes| {
      return None, matchingHashes, flagBitIndex, hashIndex;
    }
    if flagBitIndex >= |flags| * 8 {
      return None, matchingHashes, flagBitIndex, hashIndex;
    }
    var flag := FlagBitAtIndex(flagBitIndex, flags);
    flagBitIndex := flagBitIndex + 1;
    var nodeHash: Digest;
    var leftNode: Option<MerkleTreeNode> := None;
    var rightNode: Option<MerkleTreeNode> := None;
    if height == 0 {
      nodeHash := hashes[hashIndex];
      hashIndex := hashIndex + 1;
      if flag == 1 {
        matchingHashes := matchingHashes + [nodeHash];
      }
    } else if flag == 0 {
      nodeHash := hashes[hashIndex];
      hashIndex := hashIndex + 1;
    } else {
      leftNode, matchingHashes, flagBitIndex, hashIndex :=
        NodeWithHeight(sha, height - 1, hashes, flags, matchingHashes, flagBitIndex, hashIndex);
      rightNode, matchingHashes, flagBitIndex, hashIndex :=
        NodeWithHeight(sha, height - 1, hashes, flags, matchingHashes, flagBitIndex, hashIndex);
      if leftNode.None? || rightNode.None? {
        return None, matchingHashes, flagBitIndex, hashIndex;
      }
      var left := ReversedData(leftNode.value.hash);
      var right := ReversedData(rightNode.value.hash);
      nodeHash := ReversedData(sha(sha(left + right)));
    }
    node := Some(MerkleTreeNode(nodeHash, leftNode, rightNode));
  }

  method FromParts(sha: Hash, totalLeafNodes: uint32, hashes: seq<Digest>, flags: Bytes)
    returns (r: Outcome<PartialMerkleTree>)
    ensures r == Init(sha, totalLeafNodes, hashes, flags)
  {
    if totalLeafNodes == 0 {
      return Trapped;
    }
    var height := TreeHeight(totalLeafNodes);
    var merkleRoot, matchingHashes, flagBitIndex, hashIndex :=
      NodeWithHeight(sha, height, hashes, flags, [], 0, 0);
    if merkleRoot.None? {
      return GotNil;
    }
    if hashIndex < |hashes| {
      return GotNil;
    }
    if flagBitIndex / 8 != |flags| - 1 && flagBitIndex != |flags| * 8 {
      return GotNil;
    }
    ghost var consumed := flagBitIndex;
    while flagBitIndex < |flags| * 8
      invariant consumed <= flagBitIndex
      invariant forall i :: consumed <= i < flagBitIndex && i < |flags| * 8 ==> FlagBitAtIndex(i, flags) == 0
    {
      var flag := FlagBitAtIndex(flagBitIndex, flags);
      flagBitIndex := flagBitIndex + 1;
      if flag == 1 {
        return GotNil;
      }
    }
    return Got(PartialMerkleTree(totalLeafNodes, hashes, flags, merkleRoot.value.hash, matchingHashes));
  }
}
