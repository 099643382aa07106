/**
 What an accepted partial Merkle tree proves about the full tree it was cut from.

 The full tree is perfect, over 2^h leaves, as the parser has no rule for a missing right child.
 Nothing is assumed about the hash. That some two strings collide is true of every hash, so the
 results name them: a pair computed from the parsed tree and the leaves is either two equal
 strings, and then the reported hashes are leaves of the full tree, or a collision.
 */
module MerkleProofs {
  import opened Binary
  import opened PartialMerkleTree
  import opened PrunedTrees

  function Half(leaves: seq<Digest>, h: nat): (m: nat)
    requires h > 0 && |leaves| == Pow(2, h)
    ensures m == Pow(2, h - 1) && m + m == |leaves|
  {
    |leaves| / 2
  }

  /** The root that Bitcoin prescribes, in the byte order of the wire: the double hash of the root of
      the first half followed by the root of the second half. The leaves, like all hashes that the
      program holds, are in the opposite byte order. */
  function WireRoot(sha: Hash, leaves: seq<Digest>, h: nat): Digest
    requires |leaves| == Pow(2, h)
  {
    if h == 0 then Reverse(leaves[0])
    else
      var m := Half(leaves, h);
      sha(sha(WireRoot(sha, leaves[..m], h - 1) + WireRoot(sha, leaves[m..], h - 1)))
  }

  /** The root as the program holds it. */
  function MerkleRoot(sha: Hash, leaves: seq<Digest>, h: nat): Digest
    requires |leaves| == Pow(2, h)
  {
    Reverse(WireRoot(sha, leaves, h))
  }

  /** The hash of a node, as the parser computes it from its children, is the prescribed one. */
  lemma NodesHashToRoot(sha: Hash, leaves: seq<Digest>, h: nat)
    requires |leaves| == Pow(2, h)
    ensures h == 0 ==> MerkleRoot(sha, leaves, h) == leaves[0]
    ensures h > 0 ==>
              var m := Half(leaves, h);
              MerkleRoot(sha, leaves, h)
                == NodeHash(sha, MerkleRoot(sha, leaves[..m], h - 1), MerkleRoot(sha, leaves[m..], h - 1))
  {
    if h == 0 {
      ReverseTwice(leaves[0]);
    } else {
      var m := Half(leaves, h);
      ReverseTwice(WireRoot(sha, leaves[..m], h - 1));
      ReverseTwice(WireRoot(sha, leaves[m..], h - 1));
    }
  }

  ghost predicate Collide(sha: Hash, x: Bytes, y: Bytes) {
    |x| == 64 && |y| == 64 && x != y && sha(sha(x)) == sha(sha(y))
  }

  /** Walks down the parsed tree along the full tree and returns the first two different pairs of
      children, or two equal strings if there are none. */
  function FindCollision(sha: Hash, node: MerkleTreeNode, leaves: seq<Digest>, h: nat): (Bytes, Bytes)
    requires |leaves| == Pow(2, h)
    decreases h
  {
    if h == 0 || node.left.None? || node.right.None? then ([], [])
    else
      var m := Half(leaves, h);
      var left, right := node.left.value, node.right.value;
      var x := Children(left.hash, right.hash);
      var y := Children(MerkleRoot(sha, leaves[..m], h - 1), MerkleRoot(sha, leaves[m..], h - 1));
      if x != y then (x, y)
      else
        var p := FindCollision(sha, left, leaves[..m], h - 1);
        if p.0 != p.1 then p else FindCollision(sha, right, leaves[m..], h - 1)
  }

  /** Positions, among the 2^h leaves, of the matched leaves of a tree of height h. */
  function Positions(t: Tree, h: nat): seq<nat>
    requires Fits(t, h)
  {
    match t
    case Leaf(_, matched) => if matched then [0] else []
    case Pruned(_) => []
    case Inner(l, r) => Positions(l, h - 1) + Shift(Positions(r, h - 1), Pow(2, h - 1))
  }

  function Shift(s: seq<nat>, m: nat): (r: seq<nat>)
    ensures |r| == |s| && forall i :: 0 <= i < |s| ==> r[i] == s[i] + m
  {
    seq(|s|, i requires 0 <= i < |s| => s[i] + m)
  }

  /** xs are the elements of leaves at the given positions, in order. */
  ghost predicate IsSubsequence(xs: seq<Digest>, leaves: seq<Digest>, at: seq<nat>) {
    && |at| == |xs|
    && (forall i :: 0 <= i < |at| ==> at[i] < |leaves| && xs[i] == leaves[at[i]])
    && (forall i, j :: 0 <= i < j < |at| ==> at[i] < at[j])
  }

  lemma SubsequenceConcat(xs: seq<Digest>, ys: seq<Digest>, leaves: seq<Digest>, m: nat,
                          at: seq<nat>, bt: seq<nat>)
    requires m <= |leaves|
    requires IsSubsequence(xs, leaves[..m], at) && IsSubsequence(ys, leaves[m..], bt)
    ensures IsSubsequence(xs + ys, leaves, at + Shift(bt, m))
  {}

  /** Equal node hashes have equal children, or exhibit a collision. */
  lemma NodeHashInjective(sha: Hash, l: Digest, r: Digest, l': Digest, r': Digest)
    requires NodeHash(sha, l, r) == NodeHash(sha, l', r')
    ensures (l == l' && r == r') || Collide(sha, Children(l, r), Children(l', r'))
  {
    var x, y := Children(l, r), Children(l', r');
    ReverseInjective<byte>(sha(sha(x)), sha(sha(y)));
    if x == y {
      assert Reverse(l) == x[..32] == y[..32] == Reverse(l');
      assert Reverse(r) == x[32..] == y[32..] == Reverse(r');
      ReverseInjective<byte>(l, l');
      ReverseInjective<byte>(r, r');
    }
  }

  lemma ChildrenInjective(l: Digest, r: Digest, l': Digest, r': Digest)
    requires Children(l, r) == Children(l', r')
    ensures l == l' && r == r'
  {
    var x, y := Children(l, r), Children(l', r');
    assert Reverse(l) == x[..32] == y[..32] == Reverse(l');
    assert Reverse(r) == x[32..] == y[32..] == Reverse(r');
    ReverseInjective<byte>(l, l');
    ReverseInjective<byte>(r, r');
  }

  /** The reported hashes are the leaves at the matched positions, or p is a collision. */
  ghost predicate SoundOrCollision(sha: Hash, t: Tree, h: nat, leaves: seq<Digest>, p: (Bytes, Bytes))
    requires Fits(t, h)
  {
    if p.0 == p.1 then IsSubsequence(Matches(t), leaves, Positions(t, h)) else Collide(sha, p.0, p.1)
  }

  /** A pruned tree with the root of the full tree reports exactly the leaves at its matched
      positions, in order, or the walk down both trees has found a collision. */
  lemma {:induction false} MatchesAreLeaves(sha: Hash, t: Tree, h: nat, leaves: seq<Digest>)
    requires |leaves| == Pow(2, h) && Fits(t, h)
    requires Root(sha, t) == MerkleRoot(sha, leaves, h)
    ensures SoundOrCollision(sha, t, h, leaves, FindCollision(sha, NodeOf(sha, t), leaves, h))
  {
    hide Collide, NodeHash, IsSubsequence, Children, MerkleRoot;
    NodesHashToRoot(sha, leaves, h);
    match t
    case Leaf(_, _) =>
      SingleLeaf(t, leaves);
    case Pruned(_) =>
      NoLeaves(leaves);
    case Inner(l, r) =>
      var m := Half(leaves, h);
      var lr, rr := MerkleRoot(sha, leaves[..m], h - 1), MerkleRoot(sha, leaves[m..], h - 1);
      var x, y := Children(Root(sha, l), Root(sha, r)), Children(lr, rr);
      if x != y {
        SameHashCollides(sha, Root(sha, l), Root(sha, r), lr, rr);
      } else {
        ChildrenInjective(Root(sha, l), Root(sha, r), lr, rr);
        MatchesAreLeaves(sha, l, h - 1, leaves[..m]);
        MatchesAreLeaves(sha, r, h - 1, leaves[m..]);
        BothHalves(l, r, h, leaves, m);
      }
  }

  lemma SingleLeaf(t: Tree, leaves: seq<Digest>)
    requires t.Leaf? && |leaves| == 1 && t.hash == leaves[0]
    ensures IsSubsequence(Matches(t), leaves, Positions(t, 0))
  {}

  lemma NoLeaves(leaves: seq<Digest>)
    ensures IsSubsequence([], leaves, [])
  {}

  lemma SameHashCollides(sha: Hash, l: Digest, r: Digest, l': Digest, r': Digest)
    requires NodeHash(sha, l, r) == NodeHash(sha, l', r') && Children(l, r) != Children(l', r')
    ensures Collide(sha, Children(l, r), Children(l', r'))
  {
    ReverseInjective<byte>(sha(sha(Children(l, r))), sha(sha(Children(l', r'))));
  }

  lemma BothHalves(l: Tree, r: Tree, h: nat, leaves: seq<Digest>, m: nat)
    requires h > 0 && Fits(l, h - 1) && Fits(r, h - 1) && m == Pow(2, h - 1) && m <= |leaves|
    ensures IsSubsequence(Matches(l), leaves[..m], Positions(l, h - 1))
         && IsSubsequence(Matches(r), leaves[m..], Positions(r, h - 1))
        ==> IsSubsequence(Matches(Inner(l, r)), leaves, Positions(Inner(l, r), h))
  {
    hide IsSubsequence;
    if IsSubsequence(Matches(l), leaves[..m], Positions(l, h - 1))
       && IsSubsequence(Matches(r), leaves[m..], Positions(r, h - 1)) {
      SubsequenceConcat(Matches(l), Matches(r), leaves, m, Positions(l, h - 1), Positions(r, h - 1));
    }
  }

  /** The pair the walk finds for an encoding. */
  function CollisionOf(sha: Hash, n: uint32, hashes: seq<Digest>, flags: Bytes, leaves: seq<Digest>)
    : (Bytes, Bytes)
    requires n >= 1 && |leaves| == Pow(2, TreeHeight(n))
  {
    var node := ParseNode(sha, TreeHeight(n), hashes, flags, START).0;
    if node.None? then ([], []) else FindCollision(sha, node.value, leaves, TreeHeight(n))
  }

  /** Soundness of the initializer: an accepted tree whose root is that of the leaves reports a
      subsequence of the leaves, in order, or the walk has found a collision. */
  lemma AcceptedMatchesAreLeaves(sha: Hash, n: uint32, hashes: seq<Digest>, flags: Bytes, leaves: seq<Digest>)
    requires n >= 1 && |leaves| == Pow(2, TreeHeight(n))
    requires Init(sha, n, hashes, flags).Got?
    requires Init(sha, n, hashes, flags).value.rootHash == MerkleRoot(sha, leaves, TreeHeight(n))
    ensures var p := CollisionOf(sha, n, hashes, flags, leaves);
            if p.0 == p.1
            then exists at :: IsSubsequence(Init(sha, n, hashes, flags).value.matchingHashes, leaves, at)
            else Collide(sha, p.0, p.1)
  {
    hide IsSubsequence, Collide, FindCollision, MerkleRoot, TreeHeight;
    var t := ParsedFromStart(sha, TreeHeight(n), hashes, flags);
    MatchesAreLeaves(sha, t, TreeHeight(n), leaves);
  }

  // ---------------------------------------------------------------------------------------
  // The other direction: an honest proof is accepted and reports what was asked for.
  // ---------------------------------------------------------------------------------------

  /** The tree an honest peer sends: only the branches with a wanted leaf are kept. */
  function Prune(sha: Hash, leaves: seq<Digest>, wanted: seq<bool>, h: nat): Tree
    requires |leaves| == |wanted| == Pow(2, h)
  {
    if h == 0 then Leaf(leaves[0], wanted[0])
    else if true !in wanted then Pruned(MerkleRoot(sha, leaves, h))
    else
      var m := Half(leaves, h);
      Inner(Prune(sha, leaves[..m], wanted[..m], h - 1), Prune(sha, leaves[m..], wanted[m..], h - 1))
  }

  function Selected(leaves: seq<Digest>, wanted: seq<bool>): seq<Digest>
    requires |leaves| == |wanted|
  {
    if leaves == [] then []
    else
      var k := |leaves| - 1;
      Selected(leaves[..k], wanted[..k]) + (if wanted[k] then [leaves[k]] else [])
  }

  lemma {:induction false} SelectedConcat(ls: seq<Digest>, ws: seq<bool>, ms: seq<Digest>, vs: seq<bool>)
    requires |ls| == |ws| && |ms| == |vs|
    ensures Selected(ls + ms, ws + vs) == Selected(ls, ws) + Selected(ms, vs)
  {
    if ms == [] {
      assert ls + ms == ls && ws + vs == ws;
    } else {
      var k := |ms| - 1;
      SelectedConcat(ls, ws, ms[..k], vs[..k]);
      assert (ls + ms)[..|ls + ms| - 1] == ls + ms[..k];
      assert (ws + vs)[..|ws + vs| - 1] == ws + vs[..k];
    }
  }

  lemma {:induction false} SelectedNone(leaves: seq<Digest>, wanted: seq<bool>)
    requires |leaves| == |wanted| && true !in wanted
    ensures Selected(leaves, wanted) == []
  {
    if leaves == [] {
    } else {
      SelectedNone(leaves[..|leaves| - 1], wanted[..|leaves| - 1]);
    }
  }

  lemma SelectedOne(leaves: seq<Digest>, wanted: seq<bool>)
    requires |leaves| == |wanted| == 1
    ensures Selected(leaves, wanted) == if wanted[0] then [leaves[0]] else []
  {
    assert leaves[..0] == [] && wanted[..0] == [];
  }

  ghost predicate Honest(sha: Hash, t: Tree, leaves: seq<Digest>, wanted: seq<bool>, h: nat)
    requires |leaves| == |wanted| == Pow(2, h)
  {
    Fits(t, h) && Root(sha, t) == MerkleRoot(sha, leaves, h) && Matches(t) == Selected(leaves, wanted)
  }

  lemma InnerIsHonest(sha: Hash, l: Tree, r: Tree, leaves: seq<Digest>, wanted: seq<bool>, h: nat)
    requires |leaves| == |wanted| == Pow(2, h) && h > 0
    requires var m := Half(leaves, h);
             && Honest(sha, l, leaves[..m], wanted[..m], h - 1)
             && Honest(sha, r, leaves[m..], wanted[m..], h - 1)
    ensures Honest(sha, Inner(l, r), leaves, wanted, h)
  {
    hide NodeHash, Selected, MerkleRoot;
    var m := Half(leaves, h);
    NodesHashToRoot(sha, leaves, h);
    SelectedConcat(leaves[..m], wanted[..m], leaves[m..], wanted[m..]);
    assert leaves[..m] + leaves[m..] == leaves && wanted[..m] + wanted[m..] == wanted;
  }

  lemma {:induction false} PruneIsHonest(sha: Hash, leaves: seq<Digest>, wanted: seq<bool>, h: nat)
    requires |leaves| == |wanted| == Pow(2, h)
    ensures Honest(sha, Prune(sha, leaves, wanted, h), leaves, wanted, h)
  {
    hide Selected, MerkleRoot;
    if h == 0 {
      OneLeafIsHonest(sha, leaves, wanted);
    } else if true !in wanted {
      SelectedNone(leaves, wanted);
    } else {
      hide Honest;
      var m := Half(leaves, h);
      PruneIsHonest(sha, leaves[..m], wanted[..m], h - 1);
      PruneIsHonest(sha, leaves[m..], wanted[m..], h - 1);
      InnerIsHonest(sha, Prune(sha, leaves[..m], wanted[..m], h - 1), Prune(sha, leaves[m..], wanted[m..], h - 1),
                    leaves, wanted, h);
    }
  }

  lemma OneLeafIsHonest(sha: Hash, leaves: seq<Digest>, wanted: seq<bool>)
    requires |leaves| == |wanted| == Pow(2, 0)
    ensures Honest(sha, Leaf(leaves[0], wanted[0]), leaves, wanted, 0)
  {
    SelectedOne(leaves, wanted);
    NodesHashToRoot(sha, leaves, 0);
  }

  /** Completeness: for every choice of leaves there is an accepted encoding with the root of all
      the leaves that reports exactly the chosen ones, in order. */
  lemma HonestProofIsAccepted(sha: Hash, n: uint32, leaves: seq<Digest>, wanted: seq<bool>)
    requires n >= 1 && |leaves| == |wanted| == Pow(2, TreeHeight(n))
    ensures var t := Prune(sha, leaves, wanted, TreeHeight(n));
            var r := Init(sha, n, Hashes(t), Pack(Flags(t)));
            && r.Got?
            && r.value.rootHash == MerkleRoot(sha, leaves, TreeHeight(n))
            && r.value.matchingHashes == Selected(leaves, wanted)
  {
    PruneIsHonest(sha, leaves, wanted, TreeHeight(n));
    InitOfEncoding(sha, n, Prune(sha, leaves, wanted, TreeHeight(n)));
  }
}
