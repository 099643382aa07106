/**
 NSInputStream+BitcoinDecoding: readers over a stream of bytes.

 A reader is specified by a function on the bytes that remain. Besides a value or nil, a reader
 may stop the program: a Swift precondition or a narrowing conversion that fails is `Trap`.
 */
module BitcoinDecoding {
  import opened Binary
  import opened BitcoinEncoding

  datatype Parse<+T> = Ok(value: T, rest: Bytes) | Nil | Trap {
    predicate IsFailure() { !Ok? }

    function PropagateFailure<U>(): Parse<U>
      requires IsFailure()
    {
      if Nil? then Parse<U>.Nil else Parse<U>.Trap
    }

    function Extract(): (T, Bytes)
      requires Ok?
    {
      (value, rest)
    }
  }

  datatype Outcome<+T> = Got(value: T) | GotNil | Trapped {
    predicate IsFailure() { !Got? }

    function PropagateFailure<U>(): Outcome<U>
      requires IsFailure()
    {
      if GotNil? then Outcome<U>.GotNil else Outcome<U>.Trapped
    }

    function Extract(): T
      requires Got?
    {
      value
    }
  }

  function IntOf(s: Bytes, order: Endianness): int {
    match order
    case LittleEndianOrder => FromLittleEndian(s)
    case BigEndianOrder => FromBigEndian(s)
  }

  /** The w-byte two's complement reading of the bit pattern u. */
  function ToSigned(w: nat, u: int): int {
    if 2 * u < Pow(256, w) then u else u - Pow(256, w)
  }

  function ParseUInt8(s: Bytes): Parse<byte> {
    if s == [] then Nil else Ok(s[0], s[1..])
  }

  function ParseUInt(w: nat, order: Endianness, s: Bytes): Parse<int> {
    if |s| < w then Nil else Ok(IntOf(s[..w], order), s[w..])
  }

  function ParseUInt32(s: Bytes): Parse<uint32> {
    if |s| < 4 then Nil
    else
      FromLittleEndianBounds(s[..4]);
      WidthPowers();
      Ok(FromLittleEndian(s[..4]), s[4..])
  }

  function ParseInt(w: nat, order: Endianness, s: Bytes): Parse<int> {
    var (u, s1) :- ParseUInt(w, order, s);
    Ok(ToSigned(w, u), s1)
  }

  function TrimZeros(s: Bytes): Bytes {
    if s != [] && s[|s| - 1] == 0 then TrimZeros(s[..|s| - 1]) else s
  }

  /** The string is kept as its ASCII bytes. */
  function ParseASCII(n: nat, s: Bytes): Parse<Bytes> {
    if |s| < n then Nil else Ok(TrimZeros(s[..n]), s[n..])
  }

  function NatOf(s: Bytes): nat {
    FromLittleEndianBounds(s);
    FromLittleEndian(s)
  }

  function ParseVarInt(s: Bytes): (r: Parse<nat>)
    ensures !r.Trap?
  {
    if s == [] then Nil
    else if s[0] < 0xfd then Ok(s[0], s[1..])
    else
      var w := if s[0] == 0xfd then 2 else if s[0] == 0xfe then 4 else 8;
      if |s| < 1 + w then Nil else Ok(NatOf(s[1..1 + w]), s[1 + w..])
  }

  /** Asking for 0 bytes means all the rest. Asking for more than there is fails, except
      that a rest of a whole number of 256-byte chunks is returned short. */
  function ParseData(n: nat, s: Bytes): Parse<Bytes> {
    if n == 0 then Ok(s, [])
    else if n <= |s| then Ok(s[..n], s[n..])
    else if |s| % 256 == 0 then Ok(s, [])
    else Nil
  }

  const MAX_INT64: nat := 0x7fff_ffff_ffff_ffff

  /** `readData(Int(count))`: the conversion of a UInt64 over the signed range stops the program. */
  function ParseCountedData(s: Bytes): Parse<Bytes> {
    var (count, s1) :- ParseVarInt(s);
    if count > MAX_INT64 then Trap else ParseData(count, s1)
  }

  /** `for _ in 0..<count`: one element after the other, failing as soon as one fails. */
  function Repeat<T>(parse: Bytes -> Parse<T>, count: nat, s: Bytes): Parse<seq<T>> {
    if count == 0 then Ok([], s)
    else
      var (x, s1) :- parse(s);
      var (xs, s2) :- Repeat(parse, count - 1, s1);
      Ok([x] + xs, s2)
  }

  /** What is left of a repetition after its first elements have been read. */
  function Prepend<T>(xs: seq<T>, p: Parse<seq<T>>): Parse<seq<T>> {
    var (ys, rest) :- p;
    Ok(xs + ys, rest)
  }

  lemma PrependOne<T>(xs: seq<T>, x: T, p: Parse<seq<T>>)
    ensures Prepend(xs, Prepend([x], p)) == Prepend(xs + [x], p)
  {
    if p.Ok? {
      assert xs + ([x] + p.value) == xs + [x] + p.value;
    }
  }

  lemma PrependEmpty<T>(xs: seq<T>, p: Parse<seq<T>>, rest: Bytes)
    ensures Prepend([], p) == p
    ensures Prepend(xs, Ok([], rest)) == Ok(xs, rest)
  {
    assert xs + [] == xs;
    if p.Ok? {
      assert [] + p.value == p.value;
    }
  }

  /** One round of a reading loop. */
  lemma RepeatStep<T>(parse: Bytes -> Parse<T>, count: nat, xs: seq<T>, s: Bytes)
    requires count > 0
    ensures Prepend(xs, Repeat(parse, count, s))
         == match parse(s)
            case Ok(x, s1) => Prepend(xs + [x], Repeat(parse, count - 1, s1))
            case Nil => Nil
            case Trap => Trap
  {
    match parse(s)
    case Ok(x, s1) => PrependOne(xs, x, Repeat(parse, count - 1, s1));
    case Nil =>
    case Trap =>
  }

  /** A reader that undoes a writer on every element undoes it on a list. */
  lemma {:induction false} RepeatRoundTrip<T(!new)>(
      parse: Bytes -> Parse<T>, encode: T -> Bytes, xs: seq<T>, rest: Bytes)
    requires forall x, r :: x in xs ==> parse(encode(x) + r) == Ok(x, r)
    ensures Repeat(parse, |xs|, EncodeAll(encode, xs) + rest) == Ok(xs, rest)
  {
    if xs == [] {
      assert EncodeAll(encode, xs) + rest == rest;
    } else {
      EncodeAllFirst(encode, xs);
      var tail := EncodeAll(encode, xs[1..]) + rest;
      assert EncodeAll(encode, xs) + rest == encode(xs[0]) + tail;
      assert xs[0] in xs && parse(encode(xs[0]) + tail) == Ok(xs[0], tail);
      RepeatRoundTrip(parse, encode, xs[1..], rest);
      assert [xs[0]] + xs[1..] == xs;
    }
  }

  /** A stream is the bytes it has not delivered yet. */
  class InputStream {
    var rest: Bytes

    constructor (data: Bytes)
      ensures rest == data
    {
      rest := data;
    }

    /** The outcome r and the bytes now left are those of p. */
    ghost predicate Agrees<T>(p: Parse<T>, r: Outcome<T>)
      reads this
    {
      match p
      case Ok(v, rest) => r == Got(v) && this.rest == rest
      case Nil => r == GotNil
      case Trap => r == Trapped
    }

    method HasBytesAvailable() returns (r: bool)
      ensures r <==> rest != []
    {
      r := rest != [];
    }

    method Read(maxLength: nat) returns (buffer: Bytes)
      modifies this
      ensures |buffer| == if maxLength <= |old(rest)| then maxLength else |old(rest)|
      ensures buffer == old(rest)[..|buffer|] && rest == old(rest)[|buffer|..]
    {
      var n := if maxLength <= |rest| then maxLength else |rest|;
      buffer := rest[..n];
      rest := rest[n..];
    }

    method ReadUInt8() returns (r: Outcome<byte>)
      modifies this
      ensures Agrees(ParseUInt8(old(rest)), r)
    {
      var buffer := Read(1);
      if |buffer| != 1 {
        return GotNil;
      }
      return Got(buffer[0]);
    }

    method ReadUInt(w: nat, order: Endianness := LittleEndianOrder) returns (r: Outcome<int>)
      modifies this
      ensures Agrees(ParseUInt(w, order, old(rest)), r)
    {
      var buffer := Read(w);
      if |buffer| != w {
        return GotNil;
      }
      var value := Assemble(buffer, order);
      return Got(value);
    }

    /** The accumulator loop of the integer readers. */
    static method Assemble(buffer: Bytes, order: Endianness) returns (acc: nat)
      ensures acc == IntOf(buffer, order)
    {
      acc := 0;
      AccumulatedBounds(buffer, order);
      for i := 0 to |buffer|
        invariant acc == Accumulated(buffer, i, order)
      {
        AccumulatedStep(buffer, i, order);
        acc := BitOr(acc, Shifted(buffer, i, order));
      }
    }

    method ReadUInt32() returns (r: Outcome<uint32>)
      modifies this
      ensures Agrees(ParseUInt32(old(rest)), r)
    {
      ghost var s := rest;
      var v :- ReadUInt(4);
      FromLittleEndianBounds(s[..4]);
      WidthPowers();
      return Got(v);
    }

    method ReadASCIIStringWithLength(n: nat) returns (r: Outcome<Bytes>)
      modifies this
      ensures Agrees(ParseASCII(n, old(rest)), r)
    {
      var buffer := Read(n);
      if |buffer| != n {
        return GotNil;
      }
      var length := n;
      assert buffer[..n] == buffer;
      for i := n downto 0
        invariant length == i
        invariant TrimZeros(buffer[..length]) == TrimZeros(buffer)
      {
        assert buffer[..length][..length - 1] == buffer[..length - 1];
        if buffer[i] != 0 {
          break;
        }
        length := length - 1;
      }
      return Got(buffer[..length]);
    }

    method ReadInt(w: nat, order: Endianness := LittleEndianOrder) returns (r: Outcome<int>)
      modifies this
      ensures Agrees(ParseInt(w, order, old(rest)), r)
    {
      var pattern :- ReadUInt(w, order);
      return Got(ToSigned(w, pattern));
    }

    method ReadVarInt() returns (r: Outcome<nat>)
      modifies this
      ensures Agrees(ParseVarInt(old(rest)), r)
    {
      var marker :- ReadUInt8();
      if marker < 0xfd {
        return Got(marker);
      }
      var w := if marker == 0xfd then 2 else if marker == 0xfe then 4 else 8;
      ghost var s := rest;
      var v := ReadUInt(w);
      if v.Got? {
        FromLittleEndianBounds(s[..w]);
        assert s[..w] == old(rest)[1..1 + w];
        return Got(v.value);
      }
      return GotNil;
    }

    method ReadData(n: nat) returns (r: Outcome<Bytes>)
      modifies this
      ensures Agrees(ParseData(n, old(rest)), r)
    {
      if n == 0 {
        r := ReadRemaining();
      } else {
        r := ReadChunks(n);
      }
    }

    /** The loop of `readData` for length 0. */
    method ReadRemaining() returns (r: Outcome<Bytes>)
      modifies this
      ensures rest == [] && r == Got(old(rest))
    {
      ghost var s := rest;
      var collected: Bytes := [];
      var more := HasBytesAvailable();
      while more
        invariant collected + rest == s
        invariant more <==> rest != []
        decreases |rest|
      {
        var buffer := Read(256);
        if |buffer| == 0 {
          return GotNil;
        }
        collected := collected + buffer;
        more := HasBytesAvailable();
      }
      assert collected == s;
      return Got(collected);
    }

    /** The loop of `readData` for a given length, in chunks of at most 256 bytes. */
    method ReadChunks(n: nat) returns (r: Outcome<Bytes>)
      requires n > 0
      modifies this
      ensures Agrees(ParseData(n, old(rest)), r)
    {
      ghost var s := rest;
      var collected: Bytes := [];
      var length := n;
      var more := HasBytesAvailable();
      while more && length > 0
        invariant |collected| <= |s|
        invariant collected == s[..|collected|] && rest == s[|collected|..]
        invariant |collected| + length == n && length >= 0
        invariant length > 0 ==> |collected| % 256 == 0
        invariant more <==> rest != []
        decreases length
      {
        var numberOfBytesToRead := if length < 256 then length else 256;
        var buffer := Read(numberOfBytesToRead);
        if |buffer| != numberOfBytesToRead {
          return GotNil;
        }
        collected := collected + buffer;
        length := length - |buffer|;
        more := HasBytesAvailable();
      }
      if length > 0 {
        assert |collected| == |s| && collected == s;
      }
      return Got(collected);
    }

    /** `readVarInt()` followed by `readData(Int(count))`. */
    method ReadCountedData() returns (r: Outcome<Bytes>)
      modifies this
      ensures Agrees(ParseCountedData(old(rest)), r)
    {
      var count :- ReadVarInt();
      if count > MAX_INT64 {
        return Trapped;
      }
      r := ReadData(count);
    }
  }

  lemma OneByte(s: Bytes)
    requires |s| == 1
    ensures FromLittleEndian(s) == FromBigEndian(s) == s[0]
  {
    assert Reverse(s) == s;
    assert Value(s[..0], 256) == 0;
  }

  /** The accumulator of the reading loop after i bytes. */
  ghost function Accumulated(s: Bytes, i: nat, order: Endianness): int
    requires i <= |s|
  {
    match order
    case LittleEndianOrder => FromLittleEndian(s[..i])
    case BigEndianOrder => FromBigEndian(s[..i]) * Pow(2, (|s| - i) * 8)
  }

  /** Byte i of the buffer, shifted to its place. */
  function Shifted(s: Bytes, i: nat, order: Endianness): nat
    requires i < |s|
  {
    match order
    case LittleEndianOrder => s[i] * Pow(2, i * 8)
    case BigEndianOrder => s[i] * Pow(2, (|s| - 1 - i) * 8)
  }

  lemma AccumulatedBounds(s: Bytes, order: Endianness)
    ensures Accumulated(s, 0, order) == 0
    ensures Accumulated(s, |s|, order) == IntOf(s, order) >= 0
  {
    assert s[..|s|] == s;
    FromLittleEndianBounds(s);
    ValueBounds(s, 256);
  }

  /** One round of the loop: or-ing in the shifted byte extends the accumulator by it. */
  lemma AccumulatedStep(s: Bytes, i: nat, order: Endianness)
    requires i < |s|
    ensures var acc := Accumulated(s, i, order);
            && acc >= 0
            && Accumulated(s, i + 1, order) >= 0
            && BitOr(acc, Shifted(s, i, order)) == Accumulated(s, i + 1, order)
  {
    match order
    case LittleEndianOrder => LittleEndianStep(s, i);
    case BigEndianOrder => BigEndianStep(s, i);
  }

  /** The new byte lands above all the earlier ones. */
  lemma LittleEndianStep(s: Bytes, i: nat)
    requires i < |s|
    ensures FromLittleEndian(s[..i]) >= 0
    ensures BitOr(FromLittleEndian(s[..i]), s[i] * Pow(2, i * 8)) == FromLittleEndian(s[..i + 1])
  {
    ByteWeight(i);
    FromLittleEndianBounds(s[..i]);
    BitOrDisjoint(FromLittleEndian(s[..i]), s[i], i * 8);
    assert Reverse(s[..i + 1]) == [s[i]] + Reverse(s[..i]);
    ValueConcat([s[i]], Reverse(s[..i]), 256);
    OneByte([s[i]]);
  }

  /** The new byte lands below all the earlier ones. */
  lemma BigEndianStep(s: Bytes, i: nat)
    requires i < |s|
    ensures var k := (|s| - 1 - i) * 8;
            && FromBigEndian(s[..i]) >= 0
            && BitOr(FromBigEndian(s[..i]) * Pow(2, (|s| - i) * 8), s[i] * Pow(2, k))
                 == FromBigEndian(s[..i + 1]) * Pow(2, k)
  {
    var acc := FromBigEndian(s[..i]);
    var k := (|s| - 1 - i) * 8;
    ValueBounds(s[..i], 256);
    assert s[..i + 1][..i] == s[..i];
    PowAdd(2, 8, k);
    ByteWeight(1);
    assert Pow(256, 1) == 256;
    PowPositive(2, k);
    MulMonotonic(s[i], 255, Pow(2, k));
    BitOrDisjoint(s[i] * Pow(2, k), acc, k + 8);
    MulDistributes(acc * 256, s[i], Pow(2, k));
    MulAssociative(acc, 256, Pow(2, k));
  }

  // ---------------------------------------------------------------------------------------
  // What is written is what is read.
  // ---------------------------------------------------------------------------------------

  lemma IntOfIntBytes(w: nat, v: int, order: Endianness)
    ensures Pow(256, w) > 0 && IntOf(IntBytes(w, v, order), order) == v % Pow(256, w)
  {
    FromBigEndianBigEndian(w, v);
    FromLittleEndianLittleEndian(w, v);
  }

  lemma SmallMod(v: int, m: int)
    requires m > 0
    ensures 0 <= v < m ==> v % m == v
    ensures -m <= v < 0 ==> v % m == v + m
  {
    if 0 <= v < m {
      DivModUnique(m, 0, v);
    } else if -m <= v < 0 {
      DivModUnique(m, -1, v + m);
    }
  }

  lemma UIntRoundTrip(w: nat, v: int, order: Endianness, rest: Bytes)
    requires 0 <= v < Pow(256, w)
    ensures ParseUInt(w, order, IntBytes(w, v, order) + rest) == Ok(v, rest)
  {
    var s := IntBytes(w, v, order) + rest;
    assert s[..w] == IntBytes(w, v, order) && s[w..] == rest;
    IntOfIntBytes(w, v, order);
    SmallMod(v, Pow(256, w));
  }

  lemma IntRoundTrip(w: nat, v: int, order: Endianness, rest: Bytes)
    requires 0 - Pow(256, w) <= 2 * v < Pow(256, w)
    ensures ParseInt(w, order, IntBytes(w, v, order) + rest) == Ok(v, rest)
  {
    var s := IntBytes(w, v, order) + rest;
    assert s[..w] == IntBytes(w, v, order) && s[w..] == rest;
    IntOfIntBytes(w, v, order);
    SmallMod(v, Pow(256, w));
  }

  lemma WidthPowers()
    ensures Pow(256, 2) == 0x1_0000
    ensures Pow(256, 4) == 0x1_0000_0000
    ensures Pow(256, 8) == MAX_UINT64 + 1
  {
    assert Pow(256, 1) == 256;
    PowAdd(256, 2, 2);
    PowAdd(256, 4, 4);
  }

  lemma UInt32RoundTrip(v: uint32, rest: Bytes)
    ensures ParseUInt32(UInt32Bytes(v) + rest) == Ok(v, rest)
  {
    WidthPowers();
    UIntRoundTrip(4, v, LittleEndianOrder, rest);
  }

  /** Four bytes read and written again are the same four bytes. */
  lemma UInt32Bytes4(s: Bytes)
    requires |s| >= 4
    ensures ParseUInt32(s).Ok?
    ensures UInt32Bytes(ParseUInt32(s).value) == s[..4]
  {
    LittleEndianFromLittleEndian(s[..4]);
  }

  lemma VarIntRoundTrip(v: nat, rest: Bytes)
    requires v <= MAX_UINT64
    ensures ParseVarInt(VarIntBytes(v) + rest) == Ok(v, rest)
  {
    var s := VarIntBytes(v) + rest;
    var w := VarIntWidth(v);
    if w == 0 {
      assert s[1..] == rest;
    } else {
      WidthPowers();
      UIntRoundTrip(w, v, LittleEndianOrder, rest);
      assert (IntBytes(w, v, LittleEndianOrder) + rest)[..w] == IntBytes(w, v, LittleEndianOrder);
      assert s[1..1 + w] == IntBytes(w, v, LittleEndianOrder);
      assert s[1 + w..] == rest;
    }
  }

  /** No prefix that reads as v is shorter than what the writer produces. */
  lemma VarIntShortest(v: nat, p: Bytes, rest: Bytes)
    requires v <= MAX_UINT64
    requires ParseVarInt(p + rest) == Ok(v, rest)
    ensures |VarIntBytes(v)| <= |p|
  {
    var s := p + rest;
    WidthPowers();
    if s[0] < 0xfd {
      assert |rest| == |s| - 1;
    } else {
      var w := if s[0] == 0xfd then 2 else if s[0] == 0xfe then 4 else 8;
      assert |rest| == |s| - 1 - w;
      FromLittleEndianBounds(s[1..1 + w]);
    }
  }

  /** The reader ignores the byte order the writer was given: the value comes back exactly when
      its bytes read the same in both directions. */
  lemma VarIntByteOrder(v: nat, rest: Bytes)
    requires v <= MAX_UINT64
    ensures ParseVarInt(VarIntBytes(v, BigEndianOrder) + rest) == Ok(v, rest)
       <==> BigEndian(VarIntWidth(v), v) == Reverse(BigEndian(VarIntWidth(v), v))
  {
    var w := VarIntWidth(v);
    var s := VarIntBytes(v, BigEndianOrder) + rest;
    if w == 0 {
      assert s[1..] == rest;
      assert BigEndian(0, v) == Reverse(BigEndian(0, v));
    } else {
      var bytes := BigEndian(w, v);
      assert s[1..1 + w] == bytes && s[1 + w..] == rest;
      WidthPowers();
      FromBigEndianBigEndian(w, v);
      SmallMod(v, Pow(256, w));
      assert ParseVarInt(s) == Ok(FromLittleEndian(bytes), rest);
      if FromLittleEndian(bytes) == v {
        BigEndianFromBigEndian(Reverse(bytes));
      }
    }
  }
}
