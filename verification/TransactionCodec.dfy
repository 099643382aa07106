/**
 Which transactions survive the wire: exactly the canonical ones, and nothing else comes out of
 the parser.
 */
module TransactionCodec {
  import opened Binary
  import opened BitcoinEncoding
  import opened BitcoinDecoding
  import Hashes = SHA256Hash
  import opened Transaction

  /** A lock time that its raw value gives back. */
  predicate CanonicalLockTime(t: LockTime) {
    match t
    case AlwaysLocked => true
    case BlockHeight(height) => 0 < height < 500000000
    case Date(seconds) => seconds >= 500000000
  }

  lemma LockTimeRoundTrip(t: LockTime, raw: uint32)
    ensures LockTimeFromRaw(LockTimeRaw(t)) == t <==> CanonicalLockTime(t)
    ensures LockTimeRaw(LockTimeFromRaw(raw)) == raw && CanonicalLockTime(LockTimeFromRaw(raw))
  {}

  /** At least one input and one output, no empty script, and a canonical lock time. */
  ghost predicate Canonical(t: Transaction) {
    && t.inputs != [] && t.outputs != []
    && (forall i :: i in t.inputs ==> i.scriptSignature != [])
    && (forall o :: o in t.outputs ==> o.script != [])
    && CanonicalLockTime(t.lockTime)
  }

  // ---------------------------------------------------------------------------------------
  // Printing and parsing back.
  // ---------------------------------------------------------------------------------------

  lemma OutPointRoundTrip(o: OutPoint, rest: Bytes)
    ensures ParseOutPoint(OutPointBytes(o) + rest) == Ok(o, rest)
  {
    hide Hashes.HashBytes, Hashes.ParseHash, UInt32Bytes, ParseUInt32;
    var s1 := UInt32Bytes(o.index) + rest;
    assert OutPointBytes(o) + rest == Hashes.HashBytes(o.transactionHash) + s1;
    Hashes.HashRoundTrip(o.transactionHash, s1);
    UInt32RoundTrip(o.index, rest);
  }

  /** Nonempty data comes back; empty data swallows everything that follows it. */
  lemma CountedRoundTrip(data: Bytes, rest: Bytes)
    requires |data| <= MAX_INT64
    ensures ParseCountedData(CountedBytes(data) + rest) == if data == [] then Ok(rest, []) else Ok(data, rest)
  {
    hide VarIntBytes, ParseVarInt;
    var s1 := data + rest;
    assert CountedBytes(data) + rest == VarIntBytes(|data|) + s1;
    VarIntRoundTrip(|data|, s1);
    assert s1[..|data|] == data && s1[|data|..] == rest;
  }

  lemma InputRoundTrip(i: Input, rest: Bytes)
    requires 0 < |i.scriptSignature| <= MAX_INT64
    ensures ParseInput(InputBytes(i) + rest) == Ok(i, rest)
  {
    hide OutPointBytes, ParseOutPoint, CountedBytes, ParseCountedData, UInt32Bytes, ParseUInt32;
    var s2 := UInt32Bytes(i.sequence) + rest;
    var s1 := CountedBytes(i.scriptSignature) + s2;
    assert InputBytes(i) + rest == OutPointBytes(i.outPoint) + s1;
    OutPointRoundTrip(i.outPoint, s1);
    CountedRoundTrip(i.scriptSignature, s2);
    UInt32RoundTrip(i.sequence, rest);
  }

  lemma ValueRoundTrip(value: int64, rest: Bytes)
    ensures ParseValue(ValueBytes(value) + rest) == Ok(value, rest)
  {
    WidthPowers();
    IntRoundTrip(8, value, LittleEndianOrder, rest);
  }

  lemma OutputRoundTrip(o: Output, rest: Bytes)
    requires 0 < |o.script| <= MAX_INT64
    ensures ParseOutput(OutputBytes(o) + rest) == Ok(o, rest)
  {
    hide ValueBytes, ParseValue, CountedBytes, ParseCountedData;
    var s1 := CountedBytes(o.script) + rest;
    assert OutputBytes(o) + rest == ValueBytes(o.value) + s1;
    ValueRoundTrip(o.value, s1);
    CountedRoundTrip(o.script, rest);
  }

  lemma CanonicalRoundTrip(t: Transaction, rest: Bytes)
    requires Canonical(t) && Fits(t)
    ensures ParseTransaction(TransactionBytes(t) + rest) == Ok(t, rest)
  {
    hide InputBytes, OutputBytes, ParseInput, ParseOutput, VarIntBytes, ParseVarInt;
    hide UInt32Bytes, ParseUInt32, EncodeAll, Repeat;
    var s5 := UInt32Bytes(LockTimeRaw(t.lockTime)) + rest;
    var s4 := EncodeAll(OutputBytes, t.outputs) + s5;
    var s3 := VarIntBytes(|t.outputs|) + s4;
    var s2 := EncodeAll(InputBytes, t.inputs) + s3;
    var s1 := VarIntBytes(|t.inputs|) + s2;
    assert TransactionBytes(t) + rest == UInt32Bytes(t.version) + s1;
    UInt32RoundTrip(t.version, s1);
    VarIntRoundTrip(|t.inputs|, s2);
    forall x, r | x in t.inputs ensures ParseInput(InputBytes(x) + r) == Ok(x, r) {
      InputRoundTrip(x, r);
    }
    RepeatRoundTrip(ParseInput, InputBytes, t.inputs, s3);
    VarIntRoundTrip(|t.outputs|, s4);
    forall x, r | x in t.outputs ensures ParseOutput(OutputBytes(x) + r) == Ok(x, r) {
      OutputRoundTrip(x, r);
    }
    RepeatRoundTrip(ParseOutput, OutputBytes, t.outputs, s5);
    UInt32RoundTrip(LockTimeRaw(t.lockTime), rest);
    LockTimeRoundTrip(t.lockTime, 0);
  }

  // ---------------------------------------------------------------------------------------
  // What the parser can return.
  // ---------------------------------------------------------------------------------------

  /** An input is never parsed with an empty or cut-off script: nothing would be left for the
      sequence number. */
  lemma ParsedInput(s: Bytes)
    requires ParseInput(s).Ok?
    ensures 0 < |ParseInput(s).value.scriptSignature| <= MAX_INT64
  {
    hide ParseOutPoint, ParseVarInt;
  }

  /** An output is only parsed with an empty script at the very end of the stream. */
  lemma ParsedOutput(s: Bytes)
    requires ParseOutput(s).Ok? && ParseOutput(s).rest != []
    ensures 0 < |ParseOutput(s).value.script| <= MAX_INT64
  {
    hide ParseValue, ParseVarInt;
  }

  lemma {:induction false} ParsedInputs(count: nat, s: Bytes)
    requires Repeat(ParseInput, count, s).Ok?
    ensures |Repeat(ParseInput, count, s).value| == count
    ensures forall i :: i in Repeat(ParseInput, count, s).value ==> 0 < |i.scriptSignature| <= MAX_INT64
  {
    hide ParseInput;
    if count > 0 {
      ParsedInput(s);
      ParsedInputs(count - 1, ParseInput(s).rest);
    }
  }

  lemma NoOutputAtEnd()
    ensures ParseOutput([]) == Nil
  {}

  lemma {:induction false} ParsedOutputs(count: nat, s: Bytes)
    requires Repeat(ParseOutput, count, s).Ok? && Repeat(ParseOutput, count, s).rest != []
    ensures |Repeat(ParseOutput, count, s).value| == count
    ensures forall o :: o in Repeat(ParseOutput, count, s).value ==> 0 < |o.script| <= MAX_INT64
  {
    hide ParseOutput;
    if count > 0 {
      NoOutputAtEnd();
      assert count == 1 ==> Repeat(ParseOutput, 0, ParseOutput(s).rest) == Ok([], ParseOutput(s).rest);
      assert ParseOutput(s).rest != [];
      ParsedOutput(s);
      ParsedOutputs(count - 1, ParseOutput(s).rest);
    }
  }

  lemma ParsedVarInt(s: Bytes)
    requires ParseVarInt(s).Ok?
    ensures ParseVarInt(s).value <= MAX_UINT64
  {
    WidthPowers();
    if s[0] >= 0xfd {
      var w := if s[0] == 0xfd then 2 else if s[0] == 0xfe then 4 else 8;
      FromLittleEndianBounds(s[1..1 + w]);
    }
  }

  /** Every transaction that comes out of the parser is canonical. */
  lemma ParsedIsCanonical(s: Bytes)
    requires ParseTransaction(s).Ok?
    ensures Canonical(ParseTransaction(s).value) && Fits(ParseTransaction(s).value)
  {
    hide ParseInput, ParseOutput, ParseVarInt, ParseUInt32, Repeat;
    var s1 := ParseUInt32(s).rest;
    var inputCount, s2 := ParseVarInt(s1).value, ParseVarInt(s1).rest;
    ParsedVarInt(s1);
    ParsedInputs(inputCount, s2);
    var s3 := Repeat(ParseInput, inputCount, s2).rest;
    var outputCount, s4 := ParseVarInt(s3).value, ParseVarInt(s3).rest;
    ParsedVarInt(s3);
    var s5 := Repeat(ParseOutput, outputCount, s4).rest;
    UInt32NeedsBytes(s5);
    ParsedOutputs(outputCount, s4);
    LockTimeRoundTrip(AlwaysLocked, ParseUInt32(s5).value);
  }

  lemma UInt32NeedsBytes(s: Bytes)
    ensures if |s| >= 4 then ParseUInt32(s).Ok? else ParseUInt32(s).Nil?
  {}

  /** Parsing what is printed, whatever follows it, gives the transaction and leaves exactly what
      followed, precisely for the canonical transactions. */
  lemma TransactionRoundTrip(t: Transaction, rest: Bytes)
    requires Fits(t)
    ensures ParseTransaction(TransactionBytes(t) + rest) == Ok(t, rest) <==> Canonical(t)
  {
    hide ParseTransaction, TransactionBytes;
    if Canonical(t) {
      CanonicalRoundTrip(t, rest);
    } else if ParseTransaction(TransactionBytes(t) + rest).Ok? {
      ParsedIsCanonical(TransactionBytes(t) + rest);
    }
  }

  /** Parsing, printing and parsing again changes nothing, although a parsed transaction may have
      been longer on the wire than it is when printed. */
  lemma ReparseIsStable(s: Bytes, rest: Bytes)
    requires ParseTransaction(s).Ok?
    ensures ParseTransaction(TransactionBytes(ParseTransaction(s).value) + rest)
         == Ok(ParseTransaction(s).value, rest)
  {
    hide ParseTransaction, TransactionBytes;
    ParsedIsCanonical(s);
    CanonicalRoundTrip(ParseTransaction(s).value, rest);
  }

  /** No canonical encoding is a proper prefix of another, and none stands for two transactions. */
  lemma PrefixFree(t: Transaction, u: Transaction, r: Bytes, r': Bytes)
    requires Canonical(t) && Fits(t) && Canonical(u) && Fits(u)
    requires TransactionBytes(t) + r == TransactionBytes(u) + r'
    ensures t == u && r == r'
  {
    hide ParseTransaction, TransactionBytes;
    CanonicalRoundTrip(t, r);
    CanonicalRoundTrip(u, r');
  }
}
