/** Models/SHA256Hash: hashes are byte-reversed on the wire. */
module SHA256Hash {
  import opened Binary
  import opened BitcoinEncoding
  import opened BitcoinDecoding

  function HashBytes(hash: Digest): (s: Bytes)
    ensures |s| == 32
  {
    Reverse(hash)
  }

  /** `init(data:)` stops the program unless it is given 32 bytes. */
  function ParseHash(s: Bytes): Parse<Digest> {
    var (data, rest) :- ParseData(32, s);
    if |data| == 32 then Ok(Reverse(data), rest) else Trap
  }

  method BitcoinData(hash: Digest) returns (data: Bytes)
    ensures data == HashBytes(hash)
  {
    data := ReversedData(hash);
  }

  method FromBitcoinStream(stream: InputStream) returns (r: Outcome<Digest>)
    modifies stream
    ensures stream.Agrees(ParseHash(old(stream.rest)), r)
  {
    var hashData :- stream.ReadData(32);
    if |hashData| != 32 {
      return Trapped;
    }
    var reversed := ReversedData(hashData);
    return Got(reversed);
  }

  lemma HashRoundTrip(hash: Digest, rest: Bytes)
    ensures ParseHash(HashBytes(hash) + rest) == Ok(hash, rest)
  {
    var s := HashBytes(hash) + rest;
    assert s[..32] == Reverse(hash) && s[32..] == rest;
    ReverseTwice(hash);
  }

  /** Reading a hash stops the program on an exhausted stream, fails on a stream that ends
      inside the hash, and otherwise takes exactly 32 bytes, which are what would be written. */
  lemma ParseHashCases(s: Bytes)
    ensures ParseHash(s).Trap? <==> s == []
    ensures ParseHash(s).Nil? <==> 0 < |s| < 32
    ensures ParseHash(s).Ok? ==>
              && ParseHash(s).rest == s[32..]
              && s == HashBytes(ParseHash(s).value) + ParseHash(s).rest
  {
    if |s| >= 32 {
      ReverseTwice(s[..32]);
    }
  }
}
