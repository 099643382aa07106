/**
 Models/Address: a header byte and a 20-byte hash, printed in base 58 with a checksum.
 */
module Address {
  import opened Binary
  import opened BitcoinEncoding
  import opened BitcoinDecoding
  import opened Base58

  type Hash160 = s: Bytes | |s| == 20 witness seq(20, _ => 0)

  datatype Address = Address(header: byte, hash160: Hash160)

  function ChecksumForData(sha: Hash, data: Bytes): (c: Bytes)
    ensures |c| == 4
  {
    sha(sha(data))[..4]
  }

  function Payload(a: Address): (s: Bytes)
    ensures |s| == 21
  {
    [a.header] + a.hash160
  }

  function Checksum(sha: Hash, a: Address): (c: Bytes)
    ensures |c| == 4
  {
    ChecksumForData(sha, Payload(a))
  }

  function Checked(sha: Hash, a: Address): (s: Bytes)
    ensures |s| == 25
  {
    Payload(a) + Checksum(sha, a)
  }

  ghost function Print(sha: Hash, a: Address): string {
    Encode(Checked(sha, a))
  }

  predicate HeaderSupported(supported: Option<seq<byte>>, header: byte) {
    supported.Some? ==> header in supported.value
  }

  ghost function ParseString(sha: Hash, supported: Option<seq<byte>>, s: string): Option<Address> {
    if |s| > 35 || |s| < 26 then None
    else
      var data := Decode(s);
      if data.None? || |data.value| != 25 then None
      else
        var a := Address(data.value[0], data.value[1..21]);
        if Checksum(sha, a) != data.value[21..] then None
        else if !HeaderSupported(supported, a.header) then None
        else Some(a)
  }

  // ---------------------------------------------------------------------------------------
  // The source's form.
  // ---------------------------------------------------------------------------------------

  method StringValue(sha: Hash, a: Address) returns (r: string)
    ensures r == Print(sha, a)
  {
    var data := new MutableData();
    data.AppendUInt8(a.header);
    data.AppendData(a.hash160);
    assert data.bytes == Payload(a);
    data.AppendData(ChecksumForData(sha, data.bytes));
    r := Base58String(data.bytes);
  }

  method FromString(sha: Hash, supported: Option<seq<byte>>, s: string) returns (r: Option<Address>)
    ensures r == ParseString(sha, supported, s)
  {
    if |s| > 35 || |s| < 26 {
      return None;
    }
    var data := FromBase58String(s);
    if data.None? {
      return None;
    }
    if |data.value| != 25 {
      return None;
    }
    var stream := new InputStream(data.value);
    var header := stream.ReadUInt8();
    var hash160 := stream.ReadData(20);
    var checksum := stream.ReadData(4);
    SliceOfRest(data.value, 1, 20);
    SliceOfRest(data.value, 21, 4);
    assert data.value[21..25] == data.value[21..];
    var a := Address(header.value, hash160.value);
    if Checksum(sha, a) != checksum.value {
      return None;
    }
    if supported.Some? && a.header !in supported.value {
      return None;
    }
    return Some(a);
  }

  // ---------------------------------------------------------------------------------------
  // The length window: powers of 58 against powers of 256.
  // ---------------------------------------------------------------------------------------

  /** 5 bytes fit in 7 base-58 digits, so 5k bytes fit in 7k. */
  lemma {:induction false} BytesFit(k: nat)
    ensures Pow(256, 5 * k) <= Pow(58, 7 * k)
  {
    if k == 0 {
    } else {
      BytesFit(k - 1);
      PowAdd(256, 5, 5 * (k - 1));
      PowAdd(58, 7, 7 * (k - 1));
      var a, b := Pow(256, 5 * (k - 1)), Pow(58, 7 * (k - 1));
      assert Pow(256, 5) == 0x100_0000_0000 by {
        assert Pow(256, 3) == 256 * Pow(256, 2);
      }
      assert Pow(58, 7) == 2207984167552 by {
        assert Pow(58, 3) == 195112;
        assert Pow(58, 5) == 58 * 58 * Pow(58, 3);
      }
      MulMonotonic(a, b, 0x100_0000_0000);
      MulMonotonic(0x100_0000_0000, 2207984167552, b);
    }
  }

  /** 25 - z bytes need at most 35 - z digits. */
  lemma {:induction false} UpperWindow(z: nat)
    requires z <= 25
    ensures Pow(256, 25 - z) <= Pow(58, 35 - z)
  {
    if z == 0 {
      BytesFit(5);
    } else {
      UpperWindow(z - 1);
      assert Pow(256, 26 - z) == 256 * Pow(256, 25 - z);
      assert Pow(58, 36 - z) == 58 * Pow(58, 35 - z);
    }
  }

  /** 24 - z bytes, at least 4 of them, are worth more than 25 - z digits. */
  lemma {:induction false} LowerWindow(z: nat)
    requires z <= 20
    ensures Pow(58, 25 - z) <= Pow(256, 24 - z)
    decreases 20 - z
  {
    if z == 20 {
      assert Pow(58, 3) == 195112;
      assert Pow(58, 5) == 58 * 58 * Pow(58, 3);
      assert Pow(256, 2) == 65536;
      assert Pow(256, 4) == 256 * 256 * Pow(256, 2);
    } else {
      LowerWindow(z + 1);
      assert Pow(58, 25 - z) == 58 * Pow(58, 24 - z);
      assert Pow(256, 24 - z) == 256 * Pow(256, 23 - z);
    }
  }

  /** The value of 25 bytes with z leading zeros. */
  lemma ValueWindow(data: Bytes)
    requires |data| == 25
    ensures var z := LeadingZeros(data);
            && 0 <= Value(data, 256) < Pow(256, 25 - z)
            && (z < 25 ==> Pow(256, 24 - z) <= Value(data, 256))
  {
    hide Pow, Value, Zeros, LeadingZeros;
    var z := LeadingZeros(data);
    var t := data[z..];
    assert data == Zeros(z) + t;
    ValueAfterZeros(z, t, 256);
    ValueBounds(t, 256);
  }

  /** 25 bytes print in at most 35 characters, and in at least 26 exactly when the value is not
      too small for the number of leading zeros, which can only fail with 21 or more of them. */
  lemma EncodedLength(data: Bytes)
    requires |data| == 25
    ensures |Encode(data)| <= 35
    ensures Value(data, 256) >= 0
    ensures |Encode(data)| >= 26 <==> Value(data, 256) >= Pow(58, 25 - LeadingZeros(data))
    ensures LeadingZeros(data) <= 20 ==> |Encode(data)| >= 26
  {
    hide Pow, Value, Digits, LeadingZeros;
    var z, v := LeadingZeros(data), Value(data, 256);
    ConvertFacts(data, 256, 58);
    ValueWindow(data);
    UpperWindow(z);
    DigitCount(v, 58, 36 - z);
    DigitCount(v, 58, 26 - z);
    if z <= 20 {
      LowerWindow(z);
    }
  }

  // ---------------------------------------------------------------------------------------
  // Round trips.
  // ---------------------------------------------------------------------------------------

  ghost predicate AllZero(s: Bytes) {
    forall i :: 0 <= i < |s| ==> s[i] == 0
  }

  /** For an all-zero header and hash the length depends on the checksum alone. */
  ghost predicate ChecksumLongEnough(c: Bytes)
    requires |c| == 4
  {
    Value(c, 256) >= Pow(58, 4 - LeadingZeros(c))
  }

  lemma CheckedLength(sha: Hash, a: Address)
    ensures |Print(sha, a)| <= 35
    ensures |Print(sha, a)| >= 26 <==> !AllZero(Payload(a)) || ChecksumLongEnough(Checksum(sha, a))
  {
    var p, c := Payload(a), Checksum(sha, a);
    var data := p + c;
    EncodedLength(data);
    if AllZero(p) {
      assert p == Zeros(21);
      ValueAfterZeros(21, c, 256);
      LeadingZerosUnique(data, 21 + LeadingZeros(c));
    } else {
      var i :| 0 <= i < |p| && p[i] != 0;
      assert data[i] == p[i];
    }
  }

  /** Parsing recovers the printed address exactly when its header is supported and its header
      and hash are not all zero, or else the checksum alone makes the string long enough. */
  lemma ParsePrint(sha: Hash, supported: Option<seq<byte>>, a: Address)
    ensures ParseString(sha, supported, Print(sha, a)) == Some(a)
       <==> && HeaderSupported(supported, a.header)
            && (!AllZero(Payload(a)) || ChecksumLongEnough(Checksum(sha, a)))
  {
    var data := Checked(sha, a);
    CheckedLength(sha, a);
    DecodeEncode(data);
    assert data[1..21] == a.hash160 && data[21..] == Checksum(sha, a) && data[0] == a.header;
  }

  /** Every accepted string is the one its address prints, so an address has one string. */
  lemma PrintParse(sha: Hash, supported: Option<seq<byte>>, s: string)
    requires ParseString(sha, supported, s).Some?
    ensures Print(sha, ParseString(sha, supported, s).value) == s
    ensures HeaderSupported(supported, ParseString(sha, supported, s).value.header)
  {
    var data := Decode(s).value;
    EncodeDecode(s);
    assert data == [data[0]] + data[1..21] + data[21..];
  }

  /** Header and hash, followed by the first four bytes of their double hash. */
  ghost function CheckedBytes(sha: Hash, a: Address): Bytes {
    [a.header] + a.hash160 + sha(sha([a.header] + a.hash160))[..4]
  }

  /** What is printed is the base-58 form of those 25 bytes, and a string is accepted exactly if it
      has 26 to 35 characters, stands for such bytes, and has a supported header. */
  lemma AcceptsExactly(sha: Hash, supported: Option<seq<byte>>, a: Address, s: string)
    ensures Decode(Print(sha, a)) == Some(CheckedBytes(sha, a))
    ensures ParseString(sha, supported, s) == Some(a) <==>
              && 26 <= |s| <= 35
              && Decode(s) == Some(CheckedBytes(sha, a))
              && (supported.None? || a.header in supported.value)
  {
    DecodeEncode(Checked(sha, a));
    assert Checked(sha, a) == CheckedBytes(sha, a);
    var data := CheckedBytes(sha, a);
    assert data[0] == a.header && data[1..21] == a.hash160 && data[21..] == Checksum(sha, a);
    if ParseString(sha, supported, s) == Some(a) {
      var d := Decode(s).value;
      assert d == [d[0]] + d[1..21] + d[21..];
    }
  }
}
