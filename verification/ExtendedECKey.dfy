/**
 ExtendedECKey: hierarchical key derivation in the manner of BIP 32, private keys only.

 The HMAC, the order of the curve and the map from private to public keys are parameters. A big
 integer is a natural number, and its data is its bytes without leading zeros.
 */
module ExtendedECKey {
  import opened Binary
  import opened BitcoinEncoding
  import opened BitcoinDecoding
  import opened Base58

  type Bytes64 = s: Bytes | |s| == 64 witness seq(64, _ => 0)

  /** A compressed public key. */
  type PublicKey = s: Bytes | |s| == 33 && (s[0] == 2 || s[0] == 3) witness seq(33, _ => 2)

  datatype Curve = Curve(hmac: (Bytes, Bytes) -> Bytes64, order: nat, publicKey: Digest -> PublicKey)

  datatype Key = Key(privateKey: Digest, chainCode: Digest, index: uint32)

  const PRIVATE_KEY_LENGTH := 32
  const HARDENED_INDEX_OFFSET: uint32 := 0x8000_0000

  predicate IndexIsHardened(index: uint32) {
    index >= HARDENED_INDEX_OFFSET
  }

  /** The order has at most as many bytes as a private key. */
  ghost predicate ValidCurve(c: Curve) {
    1 < c.order <= Pow(256, PRIVATE_KEY_LENGTH)
  }

  function KeyValue(s: Bytes): nat {
    ValueBounds(s, 256);
    Value(s, 256)
  }

  function MasterKeyWithSeed(c: Curve, seed: Bytes): Option<Key> {
    var indexHash := c.hmac(Ascii("Bitcoin seed"), seed);
    var k := KeyValue(indexHash[..32]);
    if k == 0 || k >= c.order then None else Some(Key(indexHash[..32], indexHash[32..], 0))
  }

  function BigEndianIndexBytes(index: uint32): (s: Bytes)
    ensures |s| == 4
  {
    IntBytes(4, index, BigEndianOrder)
  }

  /** What is authenticated to derive a child. */
  function ChildData(c: Curve, key: Key, index: uint32): Bytes {
    if IndexIsHardened(index) then [0] + key.privateKey + BigEndianIndexBytes(index)
    else c.publicKey(key.privateKey) + BigEndianIndexBytes(index)
  }

  function ChildHash(c: Curve, key: Key, index: uint32): Bytes64 {
    c.hmac(key.chainCode, ChildData(c, key, index))
  }

  /** The left half of the hash as a number: what is added to the parent's key. */
  function Tweak(c: Curve, key: Key, index: uint32): nat {
    KeyValue(ChildHash(c, key, index)[..32])
  }

  /** Bytes without leading zeros, padded on the left to the length of a private key. */
  function Padded(data: Bytes): Bytes {
    if |data| < PRIVATE_KEY_LENGTH then Zeros(PRIVATE_KEY_LENGTH - |data|) + data else data
  }

  lemma MinimalLength(v: nat, m: nat)
    requires v < Pow(256, m)
    ensures |MinimalBytes(v)| <= m
  {
    DigitCountBounds(v, 256);
    if |MinimalBytes(v)| > m {
      PowMonotonic(256, m, |MinimalBytes(v)| - 1);
    }
  }

  lemma PaddedIsFixedWidth(v: nat)
    requires v < Pow(256, PRIVATE_KEY_LENGTH)
    ensures |Padded(MinimalBytes(v))| == PRIVATE_KEY_LENGTH
    ensures KeyValue(Padded(MinimalBytes(v))) == v
  {
    hide Pow, Value, Digits;
    MinimalLength(v, PRIVATE_KEY_LENGTH);
    ValueOfDigits(v, 256);
    ValueAfterZeros(PRIVATE_KEY_LENGTH - |MinimalBytes(v)|, MinimalBytes(v), 256);
  }

  function Child(c: Curve, key: Key, index: uint32): Option<Key>
    requires ValidCurve(c)
  {
    var tweak := Tweak(c, key, index);
    if tweak >= c.order then None
    else
      var k := (tweak + KeyValue(key.privateKey)) % c.order;
      if k == 0 then None
      else
        PaddedIsFixedWidth(k);
        Some(Key(Padded(MinimalBytes(k)), ChildHash(c, key, index)[32..], index))
  }

  // ---------------------------------------------------------------------------------------
  // The source's form.
  // ---------------------------------------------------------------------------------------

  method ChildKeyWithIndex(c: Curve, key: Key, index: uint32) returns (r: Option<Key>)
    requires ValidCurve(c)
    ensures r == Child(c, key, index)
  {
    hide Pow, Value, Digits;
    var data := new MutableData();
    if IndexIsHardened(index) {
      data.AppendData([0]);
      data.AppendData(key.privateKey);
      data.AppendInteger(4, index, BigEndianOrder);
    } else {
      data.AppendData(c.publicKey(key.privateKey));
      data.AppendInteger(4, index, BigEndianOrder);
    }
    assert data.bytes == ChildData(c, key, index);
    var indexHash := c.hmac(key.chainCode, data.bytes);
    var indexHashLInt := KeyValue(indexHash[..32]);
    if indexHashLInt >= c.order {
      return None;
    }
    var childPrivateKeyInt := (indexHashLInt + KeyValue(key.privateKey)) % c.order;
    if childPrivateKeyInt == 0 {
      return None;
    }
    var childPrivateKey := new MutableData();
    var secureData := MinimalBytes(childPrivateKeyInt);
    MinimalLength(childPrivateKeyInt, PRIVATE_KEY_LENGTH);
    var offset := PRIVATE_KEY_LENGTH - |secureData|;
    assert offset >= 0;
    if offset > 0 {
      childPrivateKey.AppendData(Zeros(offset));
    }
    childPrivateKey.AppendData(secureData);
    PaddedIsFixedWidth(childPrivateKeyInt);
    assert childPrivateKey.bytes == Padded(secureData);
    return Some(Key(childPrivateKey.bytes, indexHash[32..], index));
  }

  /** The addition of the offset overflows exactly for indices that are already hardened. */
  method ChildKeyWithHardenedIndex(c: Curve, key: Key, index: uint32) returns (r: Outcome<Key>)
    requires ValidCurve(c)
    ensures r.Trapped? <==> IndexIsHardened(index)
    ensures !r.Trapped? ==>
              match Child(c, key, index + HARDENED_INDEX_OFFSET)
              case Some(k) => r == Got(k)
              case None => r == GotNil
  {
    if index + HARDENED_INDEX_OFFSET > 0xffff_ffff {
      return Trapped;
    }
    var k := ChildKeyWithIndex(c, key, index + HARDENED_INDEX_OFFSET);
    return match k case Some(v) => Got(v) case None => GotNil;
  }

  /** `hardenedIndex`. */
  function HardenedIndex(key: Key): Option<uint32> {
    if IndexIsHardened(key.index) then Some(key.index - HARDENED_INDEX_OFFSET) else None
  }

  // ---------------------------------------------------------------------------------------
  // Whole paths.
  // ---------------------------------------------------------------------------------------

  function Derive(c: Curve, key: Key, path: seq<uint32>): Option<Key>
    requires ValidCurve(c)
  {
    if path == [] then Some(key)
    else
      match Derive(c, key, path[..|path| - 1])
      case None => None
      case Some(parent) => Child(c, parent, path[|path| - 1])
  }

  /** The sum of the tweaks along a path. */
  function TweakSum(c: Curve, key: Key, path: seq<uint32>): nat
    requires ValidCurve(c)
  {
    if path == [] then 0
    else
      match Derive(c, key, path[..|path| - 1])
      case None => 0
      case Some(parent) => TweakSum(c, key, path[..|path| - 1]) + Tweak(c, parent, path[|path| - 1])
  }

  ghost predicate ValidKey(c: Curve, key: Key) {
    1 <= KeyValue(key.privateKey) < c.order
  }

  lemma ChildFacts(c: Curve, key: Key, index: uint32)
    requires ValidCurve(c)
    ensures Child(c, key, index).None? <==>
              || Tweak(c, key, index) >= c.order
              || (Tweak(c, key, index) + KeyValue(key.privateKey)) % c.order == 0
    ensures Child(c, key, index).Some? ==>
              var child := Child(c, key, index).value;
              && ValidKey(c, child) && child.index == index
              && KeyValue(child.privateKey) == (Tweak(c, key, index) + KeyValue(key.privateKey)) % c.order
  {
    hide Pow, Value, Digits, Tweak;
    var k := (Tweak(c, key, index) + KeyValue(key.privateKey)) % c.order;
    PaddedIsFixedWidth(k);
  }

  /** What BIP 32 prescribes to be authenticated: a zero byte and the private key for the upper half
      of the indices, the public key for the lower half, and then the index, most significant byte
      first. The key of the HMAC is the chain code. */
  ghost function HmacOf(c: Curve, key: Key, index: uint32): Bytes64 {
    c.hmac(key.chainCode,
           (if index >= 0x8000_0000 then [0] + key.privateKey else c.publicKey(key.privateKey))
             + [index / 0x100_0000, index / 0x1_0000 % 256, index / 256 % 256, index % 256])
  }

  /** The left half of the HMAC is added to the private key modulo the order, and the right half is
      the chain code. */
  ghost predicate IsChild(c: Curve, key: Key, index: uint32, child: Key)
    requires c.order > 0
  {
    var I := HmacOf(c, key, index);
    && Value(I[..32], 256) < c.order
    && Value(child.privateKey, 256) == (Value(I[..32], 256) + Value(key.privateKey, 256)) % c.order
    && child.chainCode == I[32..]
    && child.index == index
  }

  /** A child in terms of the HMAC alone. */
  lemma ChildOfHmac(c: Curve, key: Key, index: uint32)
    requires ValidCurve(c)
    ensures match Child(c, key, index)
            case None =>
              var tweak := Value(HmacOf(c, key, index)[..32], 256);
              tweak >= c.order || (tweak + Value(key.privateKey, 256)) % c.order == 0
            case Some(child) => IsChild(c, key, index, child)
  {
    hide Pow, Value, Digits;
    IndexBytesAre(index);
    assert ChildHash(c, key, index) == c.hmac(key.chainCode, ChildData(c, key, index));
    ChildFacts(c, key, index);
  }

  lemma IndexBytesAre(index: uint32)
    ensures BigEndianIndexBytes(index)
         == [index / 0x100_0000, index / 0x1_0000 % 256, index / 256 % 256, index % 256]
  {
    assert BigEndian(0, 0) == [];
    var a, b, d := index / 256, index / 256 / 256, index / 256 / 256 / 256;
    assert BigEndian(4, index) == BigEndian(3, a) + [index % 256];
    assert BigEndian(3, a) == BigEndian(2, b) + [a % 256];
    assert BigEndian(2, b) == BigEndian(1, d) + [b % 256];
    assert BigEndian(1, d) == BigEndian(0, d / 256) + [d % 256];
  }

  /** The master key is the left half of the HMAC of the seed, and its chain code the right half,
      unless the left half is no valid key. */
  lemma MasterOfHmac(c: Curve, seed: Bytes)
    ensures var I := c.hmac(Ascii("Bitcoin seed"), seed);
            match MasterKeyWithSeed(c, seed)
            case None => Value(I[..32], 256) == 0 || Value(I[..32], 256) >= c.order
            case Some(master) =>
              && 0 < Value(I[..32], 256) < c.order
              && master.privateKey == I[..32] && master.chainCode == I[32..] && master.index == 0
  {
    hide Value;
  }

  lemma ModAdd(a: nat, b: nat, n: nat)
    requires n > 0
    ensures (a + b % n) % n == (a + b) % n
  {
    var q, r := b / n, b % n;
    var s := a + r;
    assert b == q * n + r;
    assert s == s / n * n + s % n;
    MulDistributes(q, s / n, n);
    DivModUnique(n, q + s / n, s % n);
  }

  lemma AddTweak(tweak: nat, parent: nat, sum: nat, n: nat)
    requires n > 0 && parent == sum % n
    ensures (tweak + parent) % n == (sum + tweak) % n
  {
    ModAdd(tweak, sum, n);
  }

  /** Along any path on which every derivation succeeds, the key is the starting key plus the sum
      of the tweaks modulo the order, is a valid key in exactly 32 bytes, and carries the last
      index of the path. */
  lemma {:induction false} PathDerivation(c: Curve, key: Key, path: seq<uint32>)
    requires ValidCurve(c) && ValidKey(c, key) && Derive(c, key, path).Some?
    ensures var k := Derive(c, key, path).value;
            && KeyValue(k.privateKey) == (KeyValue(key.privateKey) + TweakSum(c, key, path)) % c.order
            && ValidKey(c, k)
            && |k.privateKey| == PRIVATE_KEY_LENGTH
            && (path != [] ==> k.index == path[|path| - 1])
  {
    hide Child, Tweak, KeyValue;
    if path == [] {
      DivModUnique(c.order, 0, KeyValue(key.privateKey));
    } else {
      var front, index := path[..|path| - 1], path[|path| - 1];
      var parent := Derive(c, key, front).value;
      PathDerivation(c, key, front);
      ChildFacts(c, parent, index);
      AddTweak(Tweak(c, parent, index), KeyValue(parent.privateKey),
               KeyValue(key.privateKey) + TweakSum(c, key, front), c.order);
    }
  }

  /** The key after i + 1 steps is the child that the HMAC prescribes of the key after i steps. */
  ghost predicate ChainedAt(c: Curve, key: Key, path: seq<uint32>, i: nat)
    requires ValidCurve(c) && i < |path|
  {
    var before, after := Derive(c, key, path[..i]), Derive(c, key, path[..i + 1]);
    before.Some? && after.Some? && IsChild(c, before.value, path[i], after.value)
  }

  /** Every key on the way, with its chain code, comes from the one before by the HMAC. */
  lemma {:induction false} PathIsChained(c: Curve, key: Key, path: seq<uint32>)
    requires ValidCurve(c) && Derive(c, key, path).Some?
    ensures forall i :: 0 <= i < |path| ==> ChainedAt(c, key, path, i)
  {
    hide Child, IsChild;
    if path != [] {
      var front := path[..|path| - 1];
      PathIsChained(c, key, front);
      ChildOfHmac(c, Derive(c, key, front).value, path[|path| - 1]);
      assert path[..|path|] == path;
      forall i | 0 <= i < |front|
        ensures ChainedAt(c, key, path, i)
      {
        assert ChainedAt(c, key, front, i);
        assert path[..i] == front[..i] && path[..i + 1] == front[..i + 1];
      }
    }
  }

  /** A path from a seed: the master key is valid whenever it exists. */
  lemma PathFromSeed(c: Curve, seed: Bytes, path: seq<uint32>)
    requires ValidCurve(c) && MasterKeyWithSeed(c, seed).Some?
    requires Derive(c, MasterKeyWithSeed(c, seed).value, path).Some?
    ensures var master := MasterKeyWithSeed(c, seed).value;
            var k := Derive(c, master, path).value;
            && KeyValue(k.privateKey) == (KeyValue(master.privateKey) + TweakSum(c, master, path)) % c.order
            && ValidKey(c, k)
    ensures var master, I := MasterKeyWithSeed(c, seed).value, c.hmac(Ascii("Bitcoin seed"), seed);
            && master.privateKey == I[..32] && master.chainCode == I[32..]
            && forall i :: 0 <= i < |path| ==> ChainedAt(c, master, path, i)
  {
    hide Derive, TweakSum, KeyValue, ChainedAt;
    PathDerivation(c, MasterKeyWithSeed(c, seed).value, path);
    PathIsChained(c, MasterKeyWithSeed(c, seed).value, path);
  }

  lemma IndexBytesInjective(i: uint32, j: uint32)
    requires BigEndianIndexBytes(i) == BigEndianIndexBytes(j)
    ensures i == j
  {
    WidthPowers();
    FromBigEndianBigEndian(4, i);
    FromBigEndianBigEndian(4, j);
    SmallMod(i, Pow(256, 4));
    SmallMod(j, Pow(256, 4));
  }

  /** What is authenticated has 37 bytes and tells the index apart; a hardened input is never an
      unhardened one, whatever the keys, and determines the private key as well. */
  lemma ChildDataDistinct(c: Curve, key: Key, i: uint32, key': Key, j: uint32)
    ensures |ChildData(c, key, i)| == 37
    ensures ChildData(c, key, i) == ChildData(c, key', j) ==>
              && i == j
              && (IndexIsHardened(i) ==> key.privateKey == key'.privateKey)
  {
    hide BigEndianIndexBytes;
    var x, y := ChildData(c, key, i), ChildData(c, key', j);
    assert x[33..] == BigEndianIndexBytes(i) && y[33..] == BigEndianIndexBytes(j);
    if x == y {
      IndexBytesInjective(i, j);
      if IndexIsHardened(i) {
        assert x[1..33] == key.privateKey && y[1..33] == key'.privateKey;
      }
    }
  }

  /** Asking for a hardened child and reading its hardened index back; an unhardened child has none. */
  lemma HardenedIndexRoundTrip(c: Curve, key: Key, index: uint32)
    requires ValidCurve(c) && !IndexIsHardened(index)
    ensures var hardened := Child(c, key, index + HARDENED_INDEX_OFFSET);
            hardened.Some? ==> HardenedIndex(hardened.value) == Some(index)
    ensures Child(c, key, index).Some? ==> HardenedIndex(Child(c, key, index).value) == None
  {
    hide Child, Tweak, KeyValue;
    ChildFacts(c, key, index + HARDENED_INDEX_OFFSET);
    ChildFacts(c, key, index);
  }
}
