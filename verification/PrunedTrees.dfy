/**
 What a partial Merkle tree encoding means: pruned binary trees, their flags and hashes in
 preorder, and the proof that the parser is the exact inverse of that serialisation.
 */
module PrunedTrees {
  import opened Binary
  import opened BitcoinDecoding
  import opened PartialMerkleTree

  datatype Tree =
    | Leaf(hash: Digest, matched: bool)
    | Pruned(hash: Digest)
    | Inner(left: Tree, right: Tree)

  predicate Fits(t: Tree, h: nat) {
    match t
    case Leaf(_, _) => h == 0
    case Pruned(_) => h > 0
    case Inner(l, r) => h > 0 && Fits(l, h - 1) && Fits(r, h - 1)
  }

  function Flags(t: Tree): seq<bool> {
    match t
    case Leaf(_, matched) => [matched]
    case Pruned(_) => [false]
    case Inner(l, r) => [true] + Flags(l) + Flags(r)
  }

  function Hashes(t: Tree): seq<Digest> {
    match t
    case Leaf(hash, _) => [hash]
    case Pruned(hash) => [hash]
    case Inner(l, r) => Hashes(l) + Hashes(r)
  }

  function Matches(t: Tree): seq<Digest> {
    match t
    case Leaf(hash, matched) => if matched then [hash] else []
    case Pruned(_) => []
    case Inner(l, r) => Matches(l) + Matches(r)
  }

  function Root(sha: Hash, t: Tree): Digest {
    match t
    case Leaf(hash, _) => hash
    case Pruned(hash) => hash
    case Inner(l, r) => NodeHash(sha, Root(sha, l), Root(sha, r))
  }

  function NodeOf(sha: Hash, t: Tree): (n: MerkleTreeNode)
    ensures n.hash == Root(sha, t)
  {
    match t
    case Leaf(hash, _) => MerkleTreeNode(hash, None, None)
    case Pruned(hash) => MerkleTreeNode(hash, None, None)
    case Inner(l, r) => MerkleTreeNode(Root(sha, t), Some(NodeOf(sha, l)), Some(NodeOf(sha, r)))
  }

  /** A tree with k hashes has exactly 2k - 1 flags, and k is at most the number of leaves. */
  lemma {:induction false} Counting(t: Tree, h: nat)
    requires Fits(t, h)
    ensures |Hashes(t)| >= 1 && |Flags(t)| == 2 * |Hashes(t)| - 1
    ensures |Hashes(t)| <= Pow(2, h)
  {
    match t
    case Leaf(_, _) =>
    case Pruned(_) =>
      PowPositive(2, h);
    case Inner(l, r) =>
      Counting(l, h - 1);
      Counting(r, h - 1);
  }

  // ---------------------------------------------------------------------------------------
  // Parsing a printed tree.
  // ---------------------------------------------------------------------------------------

  /** The flag bytes as bits, in the order in which they are consumed. */
  function Bits(flags: Bytes): (bits: seq<bool>)
    ensures |bits| == |flags| * 8
  {
    seq(|flags| * 8, i requires 0 <= i < |flags| * 8 => FlagBitAtIndex(i, flags) == 1)
  }

  ghost predicate Window<T>(s: seq<T>, i: nat, w: seq<T>) {
    i + |w| <= |s| && s[i..i + |w|] == w
  }

  lemma WindowConcat<T>(s: seq<T>, i: nat, v: seq<T>, w: seq<T>)
    ensures Window(s, i, v + w) <==> Window(s, i, v) && Window(s, i + |v|, w)
  {
    if i + |v| + |w| <= |s| {
      var u := s[i..i + |v| + |w|];
      assert u[..|v|] == s[i..i + |v|] && u[|v|..] == s[i + |v|..i + |v| + |w|];
      assert u == u[..|v|] + u[|v|..];
      assert (v + w)[..|v|] == v && (v + w)[|v|..] == w;
    }
  }

  /** The cursor after reading all of t. */
  function Advance(c: Cursor, t: Tree): Cursor {
    Cursor(c.matchingHashes + Matches(t), c.flagBitIndex + |Flags(t)|, c.hashIndex + |Hashes(t)|)
  }

  lemma AdvanceInner(c: Cursor, l: Tree, r: Tree)
    ensures Advance(c, Inner(l, r))
         == Advance(Advance(c.(flagBitIndex := c.flagBitIndex + 1), l), r)
  {
    assert c.matchingHashes + Matches(l) + Matches(r) == c.matchingHashes + (Matches(l) + Matches(r));
  }

  /** The flags and hashes at the cursor are those of t, whatever follows. */
  ghost predicate Printed(t: Tree, hashes: seq<Digest>, flags: Bytes, c: Cursor) {
    Window(Bits(flags), c.flagBitIndex, Flags(t)) && Window(hashes, c.hashIndex, Hashes(t))
  }

  lemma PrintedInner(l: Tree, r: Tree, hashes: seq<Digest>, flags: Bytes, c: Cursor)
    ensures var c0 := c.(flagBitIndex := c.flagBitIndex + 1);
            Printed(Inner(l, r), hashes, flags, c) <==>
              && Window(Bits(flags), c.flagBitIndex, [true])
              && Printed(l, hashes, flags, c0)
              && Printed(r, hashes, flags, Advance(c0, l))
  {
    hide Bits, FlagBitAtIndex, Window;
    WindowConcat(Bits(flags), c.flagBitIndex, [true], Flags(l) + Flags(r));
    WindowConcat(Bits(flags), c.flagBitIndex + 1, Flags(l), Flags(r));
    assert [true] + Flags(l) + Flags(r) == [true] + (Flags(l) + Flags(r));
    WindowConcat(hashes, c.hashIndex, Hashes(l), Hashes(r));
  }

  lemma FirstFlag(t: Tree, flags: Bytes, i: nat)
    requires Window(Bits(flags), i, Flags(t))
    ensures i < |flags| * 8
    ensures (FlagBitAtIndex(i, flags) == 1) == (t.Inner? || (t.Leaf? && t.matched))
  {
    assert |Flags(t)| > 0;
    assert Bits(flags)[i..i + |Flags(t)|][0] == Flags(t)[0];
  }

  lemma FirstHash(t: Tree, h: nat, hashes: seq<Digest>, i: nat)
    requires Fits(t, h) && Window(hashes, i, Hashes(t))
    ensures i < |hashes| && (!t.Inner? ==> hashes[i] == t.hash)
  {
    Counting(t, h);
    assert hashes[i..i + |Hashes(t)|][0] == Hashes(t)[0];
  }

  /** On the preorder of a tree the recursion rebuilds that tree and takes exactly its size. */
  lemma {:induction false} ParsePrinted(
      sha: Hash, t: Tree, h: nat, hashes: seq<Digest>, flags: Bytes, c: Cursor)
    requires Fits(t, h) && Printed(t, hashes, flags, c)
    ensures ParseNode(sha, h, hashes, flags, c) == (Some(NodeOf(sha, t)), Advance(c, t))
  {
    hide FlagBitAtIndex, Window, Bits;
    FirstFlag(t, flags, c.flagBitIndex);
    FirstHash(t, h, hashes, c.hashIndex);
    match t
    case Leaf(_, _) =>
      assert c.matchingHashes + [] == c.matchingHashes;
    case Pruned(_) =>
      assert c.matchingHashes + [] == c.matchingHashes;
    case Inner(l, r) =>
      var c0 := c.(flagBitIndex := c.flagBitIndex + 1);
      PrintedInner(l, r, hashes, flags, c);
      ParsePrinted(sha, l, h - 1, hashes, flags, c0);
      ParsePrinted(sha, r, h - 1, hashes, flags, Advance(c0, l));
      AdvanceInner(c, l, r);
  }

  lemma SingleIsPrinted(t: Tree, hashes: seq<Digest>, flags: Bytes, c: Cursor)
    requires !t.Inner? && c.hashIndex < |hashes| && c.flagBitIndex < |flags| * 8
    requires t.hash == hashes[c.hashIndex]
    requires (t.Leaf? && t.matched) == (FlagBitAtIndex(c.flagBitIndex, flags) == 1)
    ensures Printed(t, hashes, flags, c)
  {
    hide FlagBitAtIndex;
    assert Bits(flags)[c.flagBitIndex] == Flags(t)[0];
  }

  /** Conversely, whatever the recursion accepts is the preorder of some tree. */
  lemma {:induction false} ParsedIsPrinted(
      sha: Hash, h: nat, hashes: seq<Digest>, flags: Bytes, c: Cursor)
    returns (t: Tree)
    requires ParseNode(sha, h, hashes, flags, c).0.Some?
    ensures Fits(t, h) && Printed(t, hashes, flags, c)
  {
    hide FlagBitAtIndex, Printed, Window, Bits, Advance, NodeOf;
    var flag := FlagBitAtIndex(c.flagBitIndex, flags);
    var c0 := c.(flagBitIndex := c.flagBitIndex + 1);
    if h == 0 || flag == 0 {
      var hash := hashes[c.hashIndex];
      t := if h == 0 then Leaf(hash, flag == 1) else Pruned(hash);
      SingleIsPrinted(t, hashes, flags, c);
    } else {
      var l := ParsedIsPrinted(sha, h - 1, hashes, flags, c0);
      ParsePrinted(sha, l, h - 1, hashes, flags, c0);
      var r := ParsedIsPrinted(sha, h - 1, hashes, flags, Advance(c0, l));
      t := Inner(l, r);
      ReadFirstFlag(l, r, hashes, flags, c);
    }
  }

  /** A set flag followed by two printed trees is a printed inner node. */
  lemma ReadFirstFlag(l: Tree, r: Tree, hashes: seq<Digest>, flags: Bytes, c: Cursor)
    requires c.flagBitIndex < |flags| * 8 && FlagBitAtIndex(c.flagBitIndex, flags) == 1
    requires var c0 := c.(flagBitIndex := c.flagBitIndex + 1);
             Printed(l, hashes, flags, c0) && Printed(r, hashes, flags, Advance(c0, l))
    ensures Printed(Inner(l, r), hashes, flags, c)
  {
    hide FlagBitAtIndex, Printed, Advance;
    assert Bits(flags)[c.flagBitIndex] == true;
    PrintedInner(l, r, hashes, flags, c);
  }

  /** The preorder at a cursor determines the tree. */
  lemma {:induction false} PrintedUnique(
      t: Tree, u: Tree, h: nat, hashes: seq<Digest>, flags: Bytes, c: Cursor)
    requires Fits(t, h) && Fits(u, h)
    requires Printed(t, hashes, flags, c) && Printed(u, hashes, flags, c)
    ensures t == u
  {
    FirstFlag(t, flags, c.flagBitIndex);
    FirstFlag(u, flags, c.flagBitIndex);
    FirstHash(t, h, hashes, c.hashIndex);
    FirstHash(u, h, hashes, c.hashIndex);
    if t.Inner? && u.Inner? {
      var c0 := c.(flagBitIndex := c.flagBitIndex + 1);
      PrintedInner(t.left, t.right, hashes, flags, c);
      PrintedInner(u.left, u.right, hashes, flags, c);
      PrintedUnique(t.left, u.left, h - 1, hashes, flags, c0);
      PrintedUnique(t.right, u.right, h - 1, hashes, flags, Advance(c0, t.left));
    }
  }

  // ---------------------------------------------------------------------------------------
  // Flag bytes.
  // ---------------------------------------------------------------------------------------

  function ByteOf(bits: seq<bool>): nat {
    if bits == [] then 0 else (if bits[0] then 1 else 0) + 2 * ByteOf(bits[1..])
  }

  lemma {:induction false} ByteOfBits(bits: seq<bool>, k: nat)
    requires k < |bits|
    ensures Pow(2, k) > 0 && (ByteOf(bits) / Pow(2, k) % 2 == 1) == bits[k]
  {
    PowPositive(2, k);
    if k == 0 {
    } else {
      ByteOfBits(bits[1..], k - 1);
      DivDiv(ByteOf(bits), 2, Pow(2, k - 1));
    }
  }

  lemma {:induction false} ByteOfBound(bits: seq<bool>)
    ensures ByteOf(bits) < Pow(2, |bits|)
  {
    if bits == [] {
    } else {
      ByteOfBound(bits[1..]);
    }
  }

  /** Bits packed eight to a byte, padded with zero bits, first byte last. */
  function Pack(bits: seq<bool>): (flags: Bytes)
    ensures |flags| == (|bits| + 7) / 8
  {
    if bits == [] then []
    else
      var n := if |bits| < 8 then |bits| else 8;
      PackByte(bits[..n]);
      Pack(bits[n..]) + [ByteOf(bits[..n])]
  }

  lemma PackByte(bits: seq<bool>)
    requires |bits| <= 8
    ensures ByteOf(bits) < 256
  {
    ByteOfBound(bits);
    PowMonotonic(2, |bits|, 8);
    ByteWeight(1);
    assert Pow(256, 1) == 256;
  }

  lemma {:induction false} ByteOfPadding(bits: seq<bool>, k: nat)
    requires |bits| <= k
    ensures Pow(2, k) > 0 && ByteOf(bits) / Pow(2, k) % 2 == 0
  {
    PowPositive(2, k);
    ByteOfBound(bits);
    PowMonotonic(2, |bits|, k);
    DivModUnique(Pow(2, k), 0, ByteOf(bits));
  }

  /** Packed bits come back in order, followed by zero bits only. */
  lemma {:induction false} BitsOfPack(bits: seq<bool>, i: nat)
    requires i < |Pack(bits)| * 8
    ensures Bits(Pack(bits))[i] == (i < |bits| && bits[i])
  {
    var n := if |bits| < 8 then |bits| else 8;
    var flags := Pack(bits);
    if i < 8 {
      assert flags[|flags| - 1] == ByteOf(bits[..n]);
      if i < n {
        ByteOfBits(bits[..n], i);
      } else {
        ByteOfPadding(bits[..n], i);
      }
    } else {
      BitsOfPack(bits[n..], i - 8);
      assert flags[..|flags| - 1] == Pack(bits[n..]);
      assert FlagBitAtIndex(i, flags) == FlagBitAtIndex(i - 8, Pack(bits[n..]));
    }
  }

  function Bit(x: nat, k: nat): int {
    PowPositive(2, k);
    x / Pow(2, k) % 2
  }

  /** Numbers below 2^m are determined by their m low bits. */
  lemma {:induction false} SameBitsSameNumber(x: nat, y: nat, m: nat)
    requires x < Pow(2, m) && y < Pow(2, m)
    requires forall k :: 0 <= k < m ==> Bit(x, k) == Bit(y, k)
    ensures x == y
  {
    if m == 0 {
    } else {
      forall k | 0 <= k < m - 1
        ensures Bit(x / 2, k) == Bit(y / 2, k)
      {
        PowPositive(2, k);
        DivDiv(x, 2, Pow(2, k));
        DivDiv(y, 2, Pow(2, k));
        assert Bit(x, k + 1) == Bit(y, k + 1);
      }
      SameBitsSameNumber(x / 2, y / 2, m - 1);
      assert Bit(x, 0) == Bit(y, 0);
    }
  }

  /** Flag bytes are determined by their bits. */
  lemma BitsInjective(f: Bytes, g: Bytes)
    requires Bits(f) == Bits(g)
    ensures f == g
  {
    assert |f| * 8 == |Bits(f)| == |Bits(g)| == |g| * 8;
    forall j | 0 <= j < |f|
      ensures f[j] == g[j]
    {
      forall k | 0 <= k < 8
        ensures Bit(f[j], k) == Bit(g[j], k)
      {
        var i := (|f| - 1 - j) * 8 + k;
        assert Bits(f)[i] == Bits(g)[i];
        assert FlagBitAtIndex(i, f) == Bit(f[j], k);
        assert FlagBitAtIndex(i, g) == Bit(g[j], k);
      }
      ByteWeight(1);
      assert Pow(256, 1) == 256;
      SameBitsSameNumber(f[j], g[j], 8);
    }
  }

  // ---------------------------------------------------------------------------------------
  // The initializer accepts exactly the encodings of trees.
  // ---------------------------------------------------------------------------------------

  /** The value the initializer is to yield for the tree t. */
  function Decoded(sha: Hash, n: uint32, t: Tree): PartialMerkleTree {
    PartialMerkleTree(n, Hashes(t), Pack(Flags(t)), Root(sha, t), Matches(t))
  }

  lemma PackedBits(bits: seq<bool>)
    ensures bits <= Bits(Pack(bits))
    ensures PaddingIsZero(|bits|, Pack(bits))
  {
    var flags := Pack(bits);
    forall i | 0 <= i < |flags| * 8
      ensures (FlagBitAtIndex(i, flags) == 1) == (i < |bits| && bits[i])
    {
      BitsOfPack(bits, i);
    }
  }

  /** Flag bytes that start with the given bits and are padded with zeros in the last byte only
      are the packed bits. */
  lemma PackUnique(bits: seq<bool>, flags: Bytes)
    requires |flags| == (|bits| + 7) / 8
    requires bits <= Bits(flags) && PaddingIsZero(|bits|, flags)
    ensures flags == Pack(bits)
  {
    forall i | 0 <= i < |flags| * 8
      ensures Bits(flags)[i] == Bits(Pack(bits))[i]
    {
      BitsOfPack(bits, i);
      if i < |bits| {
        assert Bits(flags)[i] == bits[i];
      } else {
        assert FlagBitAtIndex(i, flags) == 0;
      }
    }
    BitsInjective(flags, Pack(bits));
  }

  const START := Cursor([], 0, 0)

  /** Every tree of the right height is recovered from its encoding. */
  lemma InitOfEncoding(sha: Hash, n: uint32, t: Tree)
    requires n >= 1 && Fits(t, TreeHeight(n))
    ensures Init(sha, n, Hashes(t), Pack(Flags(t))) == Got(Decoded(sha, n, t))
  {
    var h, flags := TreeHeight(n), Pack(Flags(t));
    Counting(t, h);
    PackedBits(Flags(t));
    assert Bits(flags)[0..|Flags(t)|] == Flags(t);
    assert Printed(t, Hashes(t), flags, START);
    ParsePrinted(sha, t, h, Hashes(t), flags, START);
    assert [] + Matches(t) == Matches(t);
  }

  /** What a run of the recursion from the start has consumed, in terms of the tree it read. */
  lemma ParsedFromStart(sha: Hash, h: nat, hashes: seq<Digest>, flags: Bytes) returns (t: Tree)
    requires ParseNode(sha, h, hashes, flags, START).0.Some?
    ensures Fits(t, h)
    ensures ParseNode(sha, h, hashes, flags, START)
         == (Some(NodeOf(sha, t)), Cursor(Matches(t), |Flags(t)|, |Hashes(t)|))
    ensures |Flags(t)| == 2 * |Hashes(t)| - 1 && 1 <= |Hashes(t)| <= Pow(2, h)
    ensures Hashes(t) <= hashes && Flags(t) <= Bits(flags)
  {
    t := ParsedIsPrinted(sha, h, hashes, flags, START);
    ParsePrinted(sha, t, h, hashes, flags, START);
    Counting(t, h);
    assert [] + Matches(t) == Matches(t);
  }

  /** Whatever is accepted is the encoding of a tree: its hashes and its packed flags, with the
      root and the matches of that tree. */
  lemma AcceptedIsEncoding(sha: Hash, n: uint32, hashes: seq<Digest>, flags: Bytes)
    returns (t: Tree)
    requires Init(sha, n, hashes, flags).Got?
    ensures n >= 1 && Fits(t, TreeHeight(n))
    ensures hashes == Hashes(t) && flags == Pack(Flags(t))
    ensures Init(sha, n, hashes, flags) == Got(Decoded(sha, n, t))
  {
    t := ParsedFromStart(sha, TreeHeight(n), hashes, flags);
    LastByte(|Hashes(t)|, |flags|);
    PackUnique(Flags(t), flags);
  }

  /** The encoding determines the tree. */
  lemma EncodingInjective(t: Tree, u: Tree, h: nat)
    requires Fits(t, h) && Fits(u, h)
    requires Hashes(t) == Hashes(u) && Pack(Flags(t)) == Pack(Flags(u))
    ensures t == u
  {
    var flags := Pack(Flags(t));
    PackedBits(Flags(t));
    PackedBits(Flags(u));
    assert Bits(flags)[0..|Flags(t)|] == Flags(t);
    assert Bits(flags)[0..|Flags(u)|] == Flags(u);
    PrintedUnique(t, u, h, Hashes(t), flags, START);
  }

  ghost predicate Encodes(n: uint32, hashes: seq<Digest>, flags: Bytes, t: Tree) {
    n >= 1 && Fits(t, TreeHeight(n)) && hashes == Hashes(t) && flags == Pack(Flags(t))
  }

  /** The initializer accepts exactly the encodings of trees of the height it computes, each of
      exactly one tree, and stops the program exactly when there are no leaves. */
  lemma AcceptsExactlyEncodings(sha: Hash, n: uint32, hashes: seq<Digest>, flags: Bytes)
    ensures Init(sha, n, hashes, flags).Trapped? <==> n == 0
    ensures Init(sha, n, hashes, flags).Got? <==> exists t :: Encodes(n, hashes, flags, t)
    ensures forall t :: Encodes(n, hashes, flags, t) ==>
              Init(sha, n, hashes, flags) == Got(Decoded(sha, n, t))
    ensures forall t, u :: Encodes(n, hashes, flags, t) && Encodes(n, hashes, flags, u) ==> t == u
  {
    if Init(sha, n, hashes, flags).Got? {
      var t := AcceptedIsEncoding(sha, n, hashes, flags);
      assert Encodes(n, hashes, flags, t);
    }
    forall t | Encodes(n, hashes, flags, t)
      ensures Init(sha, n, hashes, flags) == Got(Decoded(sha, n, t))
    {
      InitOfEncoding(sha, n, t);
    }
    forall t, u | Encodes(n, hashes, flags, t) && Encodes(n, hashes, flags, u)
      ensures t == u
    {
      EncodingInjective(t, u, TreeHeight(n));
    }
  }

  /** An odd number of bits either ends inside the last of m bytes or is refused. */
  lemma LastByte(k: nat, m: nat)
    requires k >= 1
    requires (2 * k - 1) / 8 == m - 1 || 2 * k - 1 == m * 8
    ensures m == (2 * k - 1 + 7) / 8 && 1 <= m * 8 - (2 * k - 1) <= 7
  {
    var r := (2 * k - 1) % 8;
    if 2 * k - 1 != m * 8 {
      assert 2 * k - 1 == 8 * (m - 1) + r;
      assert r >= 1;
      DivModUnique(8, m, r - 1);
    }
  }

  /** Acceptance fixes the number of flag bytes and the padding; the second half of the
      initializer's length test never decides. */
  lemma AcceptedLengths(sha: Hash, n: uint32, hashes: seq<Digest>, flags: Bytes)
    requires Init(sha, n, hashes, flags).Got?
    ensures 1 <= |hashes| <= Pow(2, TreeHeight(n))
    ensures var used := ParseNode(sha, TreeHeight(n), hashes, flags, START).1.flagBitIndex;
            && used == 2 * |hashes| - 1
            && |flags| == (used + 7) / 8
            && used != |flags| * 8
            && 1 <= |flags| * 8 - used <= 7
            && PaddingIsZero(used, flags)
  {
    hide ParseNode, TreeHeight, FlagBitAtIndex, PaddingIsZero, Bits;
    var t := ParsedFromStart(sha, TreeHeight(n), hashes, flags);
    LastByte(|hashes|, |flags|);
  }
}
