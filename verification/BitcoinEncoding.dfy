/**
 NSMutableData+BitcoinEncoding: integers appended to a growing buffer.

 The source has one appender per width and signedness with the same loop; here the width in
 bytes is a parameter, and the value may be negative (two's complement).
 */
module BitcoinEncoding {
  import opened Binary

  datatype Endianness = LittleEndianOrder | BigEndianOrder

  function IntBytes(w: nat, v: int, order: Endianness): (s: Bytes)
    ensures |s| == w
  {
    match order
    case LittleEndianOrder => LittleEndian(w, v)
    case BigEndianOrder => BigEndian(w, v)
  }

  function UInt32Bytes(v: uint32): (s: Bytes)
    ensures |s| == 4
  {
    IntBytes(4, v, LittleEndianOrder)
  }

  const MAX_UINT64: nat := 0xffff_ffff_ffff_ffff

  /** The width that follows the marker byte of a variable-length integer; 0 for no marker. */
  function VarIntWidth(v: nat): nat {
    if v < 0xfd then 0 else if v <= 0xffff then 2 else if v <= 0xffff_ffff then 4 else 8
  }

  function VarIntMarker(w: nat): byte {
    if w == 2 then 0xfd else if w == 4 then 0xfe else 0xff
  }

  function VarIntBytes(v: nat, order: Endianness := LittleEndianOrder): Bytes {
    var w := VarIntWidth(v);
    if w == 0 then [v % 256] else [VarIntMarker(w)] + IntBytes(w, v, order)
  }

  /** The encodings of the elements, one after the other. */
  function EncodeAll<T>(encode: T -> Bytes, xs: seq<T>): Bytes {
    if xs == [] then [] else EncodeAll(encode, xs[..|xs| - 1]) + encode(xs[|xs| - 1])
  }

  lemma {:induction false} EncodeAllConcat<T>(encode: T -> Bytes, xs: seq<T>, ys: seq<T>)
    ensures EncodeAll(encode, xs + ys) == EncodeAll(encode, xs) + EncodeAll(encode, ys)
  {
    if ys == [] {
      assert xs + ys == xs;
    } else {
      var zs := ys[..|ys| - 1];
      EncodeAllConcat(encode, xs, zs);
      assert (xs + ys)[..|xs + ys| - 1] == xs + zs;
    }
  }

  lemma EncodeAllEmpty<T>(encode: T -> Bytes)
    ensures EncodeAll(encode, []) == []
  {}

  /** One round of a printing loop. */
  lemma EncodeAllStep<T>(encode: T -> Bytes, xs: seq<T>, i: nat)
    requires i < |xs|
    ensures EncodeAll(encode, xs[..i + 1]) == EncodeAll(encode, xs[..i]) + encode(xs[i])
  {
    assert xs[..i + 1][..i] == xs[..i];
  }

  lemma EncodeAllFirst<T>(encode: T -> Bytes, xs: seq<T>)
    requires xs != []
    ensures EncodeAll(encode, xs) == encode(xs[0]) + EncodeAll(encode, xs[1..])
  {
    EncodeAllConcat(encode, xs[..1], xs[1..]);
    assert xs == xs[..1] + xs[1..];
    assert xs[..1][..0] == [];
  }

  class MutableData {
    var bytes: Bytes

    constructor ()
      ensures bytes == []
    {
      bytes := [];
    }

    method AppendData(data: Bytes)
      modifies this
      ensures bytes == old(bytes) + data
    {
      bytes := bytes + data;
    }

    method AppendUInt8(value: byte)
      modifies this
      ensures bytes == old(bytes) + [value]
    {
      bytes := bytes + [value];
    }

    method AppendInteger(w: nat, value: int, order: Endianness := LittleEndianOrder)
      modifies this
      ensures bytes == old(bytes) + IntBytes(w, value, order)
    {
      hide Pow, BigEndian;
      var buffer: Bytes := [];
      for i := 0 to w
        invariant |buffer| == i
        invariant buffer == IntBytes(w, value, order)[..i]
        invariant bytes == old(bytes)
      {
        match order {
          case LittleEndianOrder =>
            BigEndianIndex(w, value, i);
            buffer := buffer + [value / Pow(2, i * 8) % 256];
          case BigEndianOrder =>
            BigEndianIndex(w, value, w - 1 - i);
            buffer := buffer + [value / Pow(2, (w - 1 - i) * 8) % 256];
        }
      }
      AppendData(buffer);
    }

    method AppendVarInt(value: nat, order: Endianness := LittleEndianOrder)
      requires value <= MAX_UINT64
      modifies this
      ensures bytes == old(bytes) + VarIntBytes(value, order)
    {
      if value < 0xfd {
        AppendUInt8(value);
      } else if value <= 0xffff {
        AppendUInt8(0xfd);
        AppendInteger(2, value, order);
      } else if value <= 0xffff_ffff {
        AppendUInt8(0xfe);
        AppendInteger(4, value, order);
      } else {
        AppendUInt8(0xff);
        AppendInteger(8, value, order);
      }
    }
  }

  // ---------------------------------------------------------------------------------------
  // NSData+BitcoinDecoding: reversedData.
  // ---------------------------------------------------------------------------------------

  /** The swap loop over a copy of the data, up to the middle. */
  method ReversedData(data: Bytes) returns (r: Bytes)
    ensures r == Reverse(data)
  {
    var bytes := new byte[|data|](i requires 0 <= i < |data| => data[i]);
    var n := bytes.Length;
    for i := 0 to n / 2
      invariant forall k :: 0 <= k < i ==> bytes[k] == data[n - 1 - k] && bytes[n - 1 - k] == data[k]
      invariant forall k :: i <= k < n - i ==> bytes[k] == data[k]
    {
      var tmp := bytes[i];
      bytes[i] := bytes[n - i - 1];
      bytes[n - i - 1] := tmp;
    }
    r := bytes[..];
  }
}
