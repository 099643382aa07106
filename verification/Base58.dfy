/**
 NSData+StringEncoding: conversion between base 256 and base 58.

 A big integer is a natural number; its `data` is its bytes without leading zeros.
 */
module Base58 {
  import opened Binary

  // The alphabet: the digits without 0, then the letters without I, O and l. The source lists
  // it twice, entry by entry, as two dictionaries; here each run of consecutive characters is
  // one case.

  function CharToValue(c: char): Option<int> {
    if '1' <= c <= '9' then Some(c as int - '1' as int)
    else if 'A' <= c <= 'H' then Some(c as int - 'A' as int + 9)
    else if 'J' <= c <= 'N' then Some(c as int - 'J' as int + 17)
    else if 'P' <= c <= 'Z' then Some(c as int - 'P' as int + 22)
    else if 'a' <= c <= 'k' then Some(c as int - 'a' as int + 33)
    else if 'm' <= c <= 'z' then Some(c as int - 'm' as int + 44)
    else None
  }

  function ValueToChar(v: int): Option<char> {
    if 0 <= v < 9 then Some((v + '1' as int) as char)
    else if 9 <= v < 17 then Some((v - 9 + 'A' as int) as char)
    else if 17 <= v < 22 then Some((v - 17 + 'J' as int) as char)
    else if 22 <= v < 33 then Some((v - 22 + 'P' as int) as char)
    else if 33 <= v < 44 then Some((v - 33 + 'a' as int) as char)
    else if 44 <= v < 58 then Some((v - 44 + 'm' as int) as char)
    else None
  }

  const ALPHABET := "123456789" + "ABCDEFGH" + "JKLMN" + "PQRSTUVWXYZ" + "abcdefghijk" + "mnopqrstuvwxyz"

  /** A string of consecutive characters. */
  ghost predicate IsRun(s: string, first: char) {
    forall k :: 0 <= k < |s| ==> s[k] as int == first as int + k
  }

  lemma Runs()
    ensures IsRun("123456789", '1') && IsRun("ABCDEFGH", 'A') && IsRun("JKLMN", 'J')
    ensures IsRun("PQRSTUVWXYZ", 'P') && IsRun("abcdefghijk", 'a') && IsRun("mnopqrstuvwxyz", 'm')
  {}

  /** The two maps list the alphabet in order. */
  lemma MapsListTheAlphabet(v: int)
    requires 0 <= v < 58
    ensures |ALPHABET| == 58
    ensures ValueToChar(v) == Some(ALPHABET[v]) && CharToValue(ALPHABET[v]) == Some(v)
  {
    Runs();
  }

  lemma ValueToCharDomain(v: int)
    ensures ValueToChar(v).Some? <==> 0 <= v < 58
  {}

  lemma CharOfValue(v: int)
    requires 0 <= v < 58
    ensures ValueToChar(v).Some? && CharToValue(ValueToChar(v).value) == Some(v)
  {}

  lemma ValueOfChar(c: char)
    requires CharToValue(c).Some?
    ensures 0 <= CharToValue(c).value < 58 && ValueToChar(CharToValue(c).value) == Some(c)
  {}

  // ---------------------------------------------------------------------------------------
  // Changing the base of a digit string, keeping its leading zeros.
  // ---------------------------------------------------------------------------------------

  function Zeros(n: nat): (s: Bytes)
    ensures |s| == n && forall i :: 0 <= i < n ==> s[i] == 0
  {
    seq(n, _ => 0)
  }

  function LeadingZeros(s: seq<int>): (n: nat)
    ensures n <= |s|
    ensures forall i :: 0 <= i < n ==> s[i] == 0
    ensures n < |s| ==> s[n] != 0
  {
    if s == [] || s[0] != 0 then 0 else 1 + LeadingZeros(s[1..])
  }

  /** The three properties of LeadingZeros leave no choice. */
  lemma LeadingZerosUnique(s: seq<int>, n: nat)
    requires n <= |s|
    requires forall i :: 0 <= i < n ==> s[i] == 0
    requires n < |s| ==> s[n] != 0
    ensures LeadingZeros(s) == n
  {}

  function Convert(s: seq<int>, b: nat, c: nat): seq<int>
    requires b >= 2 && c >= 2 && AreDigits(s, b)
  {
    ValueBounds(s, b);
    Zeros(LeadingZeros(s)) + Digits(Value(s, b), c)
  }

  lemma ValueAfterZeros(z: nat, t: seq<int>, b: nat)
    ensures Value(Zeros(z) + t, b) == Value(t, b)
  {
    ValueConcat(Zeros(z), t, b);
    ValueOfZeros(Zeros(z), b);
  }

  /** The digits after the leading zeros are the digits of the value. */
  lemma StripZeros(s: seq<int>, b: nat)
    requires b >= 2 && AreDigits(s, b)
    ensures Value(s, b) >= 0
    ensures s == Zeros(LeadingZeros(s)) + Digits(Value(s, b), b)
  {
    var z := LeadingZeros(s);
    var t := s[z..];
    assert s == Zeros(z) + t;
    ValueAfterZeros(z, t, b);
    DigitsOfValue(t, b);
  }

  lemma ConvertFacts(s: seq<int>, b: nat, c: nat)
    requires b >= 2 && c >= 2 && AreDigits(s, b)
    ensures AreDigits(Convert(s, b, c), c)
    ensures LeadingZeros(Convert(s, b, c)) == LeadingZeros(s)
    ensures Value(Convert(s, b, c), c) == Value(s, b)
  {
    ValueBounds(s, b);
    var z, v := LeadingZeros(s), Value(s, b);
    ValueOfDigits(v, c);
    ValueAfterZeros(z, Digits(v, c), c);
    LeadingZerosUnique(Convert(s, b, c), z);
  }

  /** Changing the base and back is the identity, for digits with and without leading zeros. */
  lemma ConvertTwice(s: seq<int>, b: nat, c: nat)
    requires b >= 2 && c >= 2 && AreDigits(s, b)
    ensures AreDigits(Convert(s, b, c), c)
    ensures Convert(Convert(s, b, c), c, b) == s
  {
    ConvertFacts(s, b, c);
    StripZeros(s, b);
  }

  // ---------------------------------------------------------------------------------------
  // Strings.
  // ---------------------------------------------------------------------------------------

  ghost predicate IsBase58(s: string) {
    forall i :: 0 <= i < |s| ==> CharToValue(s[i]).Some?
  }

  ghost function ValuesOf(s: string): (ds: seq<int>)
    requires IsBase58(s)
    ensures |ds| == |s| && forall i :: 0 <= i < |s| ==> CharToValue(s[i]) == Some(ds[i])
    ensures AreDigits(ds, 58)
  {
    assert forall i :: 0 <= i < |s| ==> 0 <= CharToValue(s[i]).value < 58 by {
      forall i | 0 <= i < |s| ensures 0 <= CharToValue(s[i]).value < 58 { ValueOfChar(s[i]); }
    }
    seq(|s|, i requires 0 <= i < |s| => CharToValue(s[i]).value)
  }

  ghost function CharsOf(ds: seq<int>): (s: string)
    requires AreDigits(ds, 58)
    ensures |s| == |ds| && forall i :: 0 <= i < |ds| ==> ValueToChar(ds[i]) == Some(s[i])
  {
    assert forall i :: 0 <= i < |ds| ==> ValueToChar(ds[i]).Some? by {
      forall i | 0 <= i < |ds| ensures ValueToChar(ds[i]).Some? { ValueToCharDomain(ds[i]); }
    }
    seq(|ds|, i requires 0 <= i < |ds| => ValueToChar(ds[i]).value)
  }

  lemma ValuesOfChars(ds: seq<int>)
    requires AreDigits(ds, 58)
    ensures IsBase58(CharsOf(ds)) && ValuesOf(CharsOf(ds)) == ds
  {
    forall i | 0 <= i < |ds|
      ensures CharToValue(CharsOf(ds)[i]) == Some(ds[i])
    {
      CharOfValue(ds[i]);
    }
  }

  lemma CharsOfValues(s: string)
    requires IsBase58(s)
    ensures CharsOf(ValuesOf(s)) == s
  {
    forall i | 0 <= i < |s|
      ensures CharsOf(ValuesOf(s))[i] == s[i]
    {
      ValueOfChar(s[i]);
    }
  }

  /** BigInteger.data. */
  function MinimalBytes(v: nat): (data: Bytes)
    ensures data == Digits(v, 256)
  {
    ValueOfDigits(v, 256);
    Digits(v, 256)
  }

  ghost function Decode(s: string): Option<Bytes> {
    if IsBase58(s) then
      ConvertFacts(ValuesOf(s), 58, 256);
      Some(Convert(ValuesOf(s), 58, 256))
    else None
  }

  ghost function Encode(data: Bytes): string {
    ConvertFacts(data, 256, 58);
    CharsOf(Convert(data, 256, 58))
  }

  lemma ValuesOfFirst(c: char, s: string)
    requires CharToValue(c).Some? && IsBase58(s)
    ensures IsBase58([c] + s)
    ensures ValuesOf([c] + s) == [CharToValue(c).value] + ValuesOf(s)
  {
    var t := [c] + s;
    forall i | 0 <= i < |t|
      ensures CharToValue(t[i]).Some?
    {
      if i > 0 {
        assert t[i] == s[i - 1];
      }
    }
    var ds, es := ValuesOf(t), [CharToValue(c).value] + ValuesOf(s);
    forall i | 0 <= i < |t|
      ensures ds[i] == es[i]
    {
      if i > 0 {
        assert t[i] == s[i - 1] && es[i] == ValuesOf(s)[i - 1];
      }
    }
  }

  /** The loop over the characters in reverse, least significant first. */
  method ValueOfString(base58String: string) returns (r: Option<nat>)
    ensures r.Some? <==> IsBase58(base58String)
    ensures r.Some? ==> r.value == Value(ValuesOf(base58String), 58)
  {
    hide CharToValue, Value, Pow;
    var multiplier, value: int := 1, 0;
    ValueSnoc([], 0, 58);
    PowStep(58, 0);
    for i := |base58String| downto 0
      invariant IsBase58(base58String[i..])
      invariant value == Value(ValuesOf(base58String[i..]), 58)
      invariant multiplier == Pow(58, |base58String| - i)
    {
      var charValue := CharToValue(base58String[i]);
      if charValue.None? {
        return None;
      }
      assert base58String[i..] == [base58String[i]] + base58String[i + 1..];
      ValuesOfFirst(base58String[i], base58String[i + 1..]);
      ValueCons(charValue.value, ValuesOf(base58String[i + 1..]), 58);
      PowStep(58, |base58String| - i - 1);
      value := value + charValue.value * multiplier;
      multiplier := multiplier * 58;
    }
    assert base58String[0..] == base58String;
    ValueBounds(ValuesOf(base58String), 58);
    return Some(value);
  }

  method FromBase58String(base58String: string) returns (r: Option<Bytes>)
    ensures r == Decode(base58String)
  {
    var value := ValueOfString(base58String);
    if value.None? {
      return None;
    }
    var prefixBytes: Bytes := [];
    ghost var values := ValuesOf(base58String);
    for i := 0 to |base58String|
      invariant prefixBytes == Zeros(i)
      invariant forall k :: 0 <= k < i ==> values[k] == 0
    {
      ValueOfChar(base58String[i]);
      if base58String[i] != '1' {
        break;
      }
      prefixBytes := prefixBytes + [0];
    }
    LeadingZerosUnique(values, |prefixBytes|);
    return Some(prefixBytes + MinimalBytes(value.value));
  }

  /** A string built backwards: character k from the end stands for digit k. */
  ghost predicate Backwards(s: string, ds: seq<int>) {
    |s| == |ds| && forall k :: 0 <= k < |ds| ==> ValueToChar(ds[k]) == Some(s[|ds| - 1 - k])
  }

  lemma BackwardsStep(s: string, ds: seq<int>, c: char, d: int)
    requires Backwards(s, ds) && ValueToChar(d) == Some(c)
    ensures Backwards(s + [c], [d] + ds)
  {}

  /** The division loop. */
  method AppendDigits(number: nat) returns (base58String: string)
    ensures Backwards(base58String, Digits(number, 58))
  {
    var value := number;
    ghost var digits: seq<int> := [];
    base58String := [];
    while value > 0
      invariant Digits(number, 58) == Digits(value, 58) + digits
      invariant Backwards(base58String, digits)
    {
      var remainder := value % 58;
      DivSmaller(value, 58);
      value := value / 58;
      ValueToCharDomain(remainder);
      var digitChar := ValueToChar(remainder);
      if digitChar.Some? {
        BackwardsStep(base58String, digits, digitChar.value, remainder);
        base58String := base58String + [digitChar.value];
      }
      digits := [remainder] + digits;
    }
  }

  method Base58String(data: Bytes) returns (r: string)
    ensures r == Encode(data)
  {
    hide CharToValue, ValueToChar, Digits, Value;
    ValueBounds(data, 256);
    var base58String := AppendDigits(Value(data, 256));
    ghost var digits := Digits(Value(data, 256), 58);
    ghost var zeros := 0;
    CharOfValue(0);
    for i := 0 to |data|
      invariant zeros == i && forall k :: 0 <= k < i ==> data[k] == 0
      invariant Backwards(base58String, digits)
      invariant digits == Zeros(zeros) + Digits(Value(data, 256), 58)
    {
      if data[i] != 0 {
        break;
      }
      BackwardsStep(base58String, digits, ValueToChar(0).value, 0);
      base58String := base58String + [ValueToChar(0).value];
      digits := [0] + digits;
      zeros := i + 1;
    }
    LeadingZerosUnique(data, zeros);
    ConvertFacts(data, 256, 58);
    r := Reverse(base58String);
    BackwardsReversed(base58String, digits);
  }

  lemma BackwardsReversed(s: string, ds: seq<int>)
    requires AreDigits(ds, 58) && Backwards(s, ds)
    ensures Reverse(s) == CharsOf(ds)
  {
    var r, chars := Reverse(s), CharsOf(ds);
    forall i | 0 <= i < |r|
      ensures r[i] == chars[i]
    {
      assert Some(r[i]) == ValueToChar(ds[i]) == Some(chars[i]);
    }
  }

  // ---------------------------------------------------------------------------------------
  // A bijection between byte strings and strings over the alphabet.
  // ---------------------------------------------------------------------------------------

  lemma DecodeEncode(data: Bytes)
    ensures Decode(Encode(data)) == Some(data)
  {
    ConvertTwice(data, 256, 58);
    ValuesOfChars(Convert(data, 256, 58));
  }

  lemma EncodeDecode(s: string)
    ensures Decode(s).Some? <==> forall i :: 0 <= i < |s| ==> CharToValue(s[i]).Some?
    ensures Decode(s).Some? ==> Encode(Decode(s).value) == s
  {
    if IsBase58(s) {
      ConvertTwice(ValuesOf(s), 58, 256);
      CharsOfValues(s);
    }
  }

  /** The string is the number of the bytes written in base 58, most significant digit first, with
      one '1' for every leading zero byte and no other leading '1'. */
  lemma EncodeIsTheNumber(data: Bytes)
    ensures IsBase58(Encode(data))
    ensures Value(ValuesOf(Encode(data)), 58) == Value(data, 256)
    ensures LeadingZeros(ValuesOf(Encode(data))) == LeadingZeros(data)
  {
    ConvertFacts(data, 256, 58);
    ValuesOfChars(Convert(data, 256, 58));
  }

  /** The value of digits by their weights. */
  lemma {:induction false} ValueByWeights(s: seq<int>, b: nat)
    requires s != []
    ensures Value(s, b) == s[0] * Pow(b, |s| - 1) + Value(s[1..], b)
  {
    assert s == [s[0]] + s[1..];
    ValueCons(s[0], s[1..], b);
  }
}
