/**
 Models/Transaction and its parts: printers and parsers of the wire format.

 Dates are whole seconds since 1970 that fit the wire. Lengths are machine integers.
 */
module Transaction {
  import opened Binary
  import opened BitcoinEncoding
  import opened BitcoinDecoding
  import Hashes = SHA256Hash

  datatype OutPoint = OutPoint(transactionHash: Digest, index: uint32)

  datatype Input = Input(outPoint: OutPoint, scriptSignature: Bytes, sequence: uint32)

  datatype Output = Output(value: int64, script: Bytes)

  datatype LockTime = AlwaysLocked | BlockHeight(height: uint32) | Date(seconds: uint32)

  datatype Transaction =
    Transaction(version: uint32, inputs: seq<Input>, outputs: seq<Output>, lockTime: LockTime)

  function LockTimeFromRaw(raw: uint32): LockTime {
    if raw == 0 then AlwaysLocked else if raw < 500000000 then BlockHeight(raw) else Date(raw)
  }

  function LockTimeRaw(t: LockTime): uint32 {
    match t
    case AlwaysLocked => 0
    case BlockHeight(height) => height
    case Date(seconds) => seconds
  }

  // ---------------------------------------------------------------------------------------
  // Printers and parsers.
  // ---------------------------------------------------------------------------------------

  function OutPointBytes(o: OutPoint): Bytes {
    Hashes.HashBytes(o.transactionHash) + UInt32Bytes(o.index)
  }

  function ParseOutPoint(s: Bytes): Parse<OutPoint> {
    var (hash, s1) :- Hashes.ParseHash(s);
    var (index, s2) :- ParseUInt32(s1);
    Ok(OutPoint(hash, index), s2)
  }

  /** A length followed by that many bytes. */
  function CountedBytes(data: Bytes): Bytes {
    VarIntBytes(|data|) + data
  }

  function InputBytes(i: Input): Bytes {
    OutPointBytes(i.outPoint) + CountedBytes(i.scriptSignature) + UInt32Bytes(i.sequence)
  }

  function ParseInput(s: Bytes): Parse<Input> {
    var (outPoint, s1) :- ParseOutPoint(s);
    var (script, s2) :- ParseCountedData(s1);
    var (sequence, s3) :- ParseUInt32(s2);
    Ok(Input(outPoint, script, sequence), s3)
  }

  function ValueBytes(value: int64): (s: Bytes)
    ensures |s| == 8
  {
    IntBytes(8, value, LittleEndianOrder)
  }

  function ParseValue(s: Bytes): Parse<int64> {
    var (value, s1) :- ParseInt(8, LittleEndianOrder, s);
    SignedRange(s[..8]);
    Ok(value, s1)
  }

  lemma SignedRange(s: Bytes)
    requires |s| == 8
    ensures -0x8000_0000_0000_0000 <= ToSigned(8, FromLittleEndian(s)) < 0x8000_0000_0000_0000
  {
    FromLittleEndianBounds(s);
    WidthPowers();
  }

  function OutputBytes(o: Output): Bytes {
    ValueBytes(o.value) + CountedBytes(o.script)
  }

  function ParseOutput(s: Bytes): Parse<Output> {
    var (value, s1) :- ParseValue(s);
    var (script, s2) :- ParseCountedData(s1);
    Ok(Output(value, script), s2)
  }

  function TransactionBytes(t: Transaction): Bytes {
    UInt32Bytes(t.version)
      + VarIntBytes(|t.inputs|) + EncodeAll(InputBytes, t.inputs)
      + VarIntBytes(|t.outputs|) + EncodeAll(OutputBytes, t.outputs)
      + UInt32Bytes(LockTimeRaw(t.lockTime))
  }

  function ParseTransaction(s: Bytes): Parse<Transaction> {
    var (version, s1) :- ParseUInt32(s);
    var (inputCount, s2) :- ParseVarInt(s1);
    var (inputs, s3) :- Repeat(ParseInput, inputCount, s2);
    if |inputs| == 0 then Nil
    else
      var (outputCount, s4) :- ParseVarInt(s3);
      var (outputs, s5) :- Repeat(ParseOutput, outputCount, s4);
      if |outputs| == 0 then Nil
      else
        var (lockTime, s6) :- ParseUInt32(s5);
        Ok(Transaction(version, inputs, outputs, LockTimeFromRaw(lockTime)), s6)
  }

  // ---------------------------------------------------------------------------------------
  // The source's form.
  // ---------------------------------------------------------------------------------------

  method OutPointData(o: OutPoint) returns (r: Bytes)
    ensures r == OutPointBytes(o)
  {
    var data := new MutableData();
    var hash := Hashes.BitcoinData(o.transactionHash);
    data.AppendData(hash);
    data.AppendInteger(4, o.index);
    r := data.bytes;
  }

  method OutPointFromStream(stream: InputStream) returns (r: Outcome<OutPoint>)
    modifies stream
    ensures stream.Agrees(ParseOutPoint(old(stream.rest)), r)
  {
    var transactionHash :- Hashes.FromBitcoinStream(stream);
    var index :- stream.ReadUInt32();
    return Got(OutPoint(transactionHash, index));
  }

  method InputData(i: Input) returns (r: Bytes)
    requires |i.scriptSignature| <= MAX_INT64
    ensures r == InputBytes(i)
  {
    var data := new MutableData();
    var outPoint := OutPointData(i.outPoint);
    data.AppendData(outPoint);
    data.AppendVarInt(|i.scriptSignature|);
    data.AppendData(i.scriptSignature);
    data.AppendInteger(4, i.sequence);
    r := data.bytes;
  }

  method InputFromStream(stream: InputStream) returns (r: Outcome<Input>)
    modifies stream
    ensures stream.Agrees(ParseInput(old(stream.rest)), r)
  {
    var outPoint :- OutPointFromStream(stream);
    var scriptSignature :- stream.ReadCountedData();
    var sequence :- stream.ReadUInt32();
    return Got(Input(outPoint, scriptSignature, sequence));
  }

  method OutputData(o: Output) returns (r: Bytes)
    requires |o.script| <= MAX_INT64
    ensures r == OutputBytes(o)
  {
    var data := new MutableData();
    data.AppendInteger(8, o.value);
    data.AppendVarInt(|o.script|);
    data.AppendData(o.script);
    r := data.bytes;
  }

  method OutputFromStream(stream: InputStream) returns (r: Outcome<Output>)
    modifies stream
    ensures stream.Agrees(ParseOutput(old(stream.rest)), r)
  {
    ghost var s := stream.rest;
    var value :- stream.ReadInt(8);
    SignedRange(s[..8]);
    var script :- stream.ReadCountedData();
    return Got(Output(value, script));
  }

  method InputsFromStream(stream: InputStream, count: nat) returns (r: Outcome<seq<Input>>)
    modifies stream
    ensures stream.Agrees(Repeat(ParseInput, count, old(stream.rest)), r)
  {
    hide ParseInput;
    var inputs: seq<Input> := [];
    PrependEmpty(inputs, Repeat(ParseInput, count, stream.rest), []);
    for i := 0 to count
      invariant Prepend(inputs, Repeat(ParseInput, count - i, stream.rest))
             == Repeat(ParseInput, count, old(stream.rest))
    {
      RepeatStep(ParseInput, count - i, inputs, stream.rest);
      var input :- InputFromStream(stream);
      inputs := inputs + [input];
    }
    PrependEmpty(inputs, Repeat(ParseInput, 0, stream.rest), stream.rest);
    return Got(inputs);
  }

  method OutputsFromStream(stream: InputStream, count: nat) returns (r: Outcome<seq<Output>>)
    modifies stream
    ensures stream.Agrees(Repeat(ParseOutput, count, old(stream.rest)), r)
  {
    hide ParseOutput;
    var outputs: seq<Output> := [];
    PrependEmpty(outputs, Repeat(ParseOutput, count, stream.rest), []);
    for i := 0 to count
      invariant Prepend(outputs, Repeat(ParseOutput, count - i, stream.rest))
             == Repeat(ParseOutput, count, old(stream.rest))
    {
      RepeatStep(ParseOutput, count - i, outputs, stream.rest);
      var output :- OutputFromStream(stream);
      outputs := outputs + [output];
    }
    PrependEmpty(outputs, Repeat(ParseOutput, 0, stream.rest), stream.rest);
    return Got(outputs);
  }

  /** Counts and lengths that the source can hold. */
  ghost predicate Fits(t: Transaction) {
    && |t.inputs| <= MAX_UINT64 && |t.outputs| <= MAX_UINT64
    && (forall i :: i in t.inputs ==> |i.scriptSignature| <= MAX_INT64)
    && (forall o :: o in t.outputs ==> |o.script| <= MAX_INT64)
  }

  method AppendInputs(data: MutableData, inputs: seq<Input>)
    requires forall i :: i in inputs ==> |i.scriptSignature| <= MAX_INT64
    modifies data
    ensures data.bytes == old(data.bytes) + EncodeAll(InputBytes, inputs)
  {
    hide InputBytes, EncodeAll;
    EncodeAllEmpty(InputBytes);
    for i := 0 to |inputs|
      invariant data.bytes == old(data.bytes) + EncodeAll(InputBytes, inputs[..i])
    {
      EncodeAllStep(InputBytes, inputs, i);
      var input := InputData(inputs[i]);
      data.AppendData(input);
    }
    assert inputs[..|inputs|] == inputs;
  }

  method AppendOutputs(data: MutableData, outputs: seq<Output>)
    requires forall o :: o in outputs ==> |o.script| <= MAX_INT64
    modifies data
    ensures data.bytes == old(data.bytes) + EncodeAll(OutputBytes, outputs)
  {
    hide OutputBytes, EncodeAll;
    EncodeAllEmpty(OutputBytes);
    for i := 0 to |outputs|
      invariant data.bytes == old(data.bytes) + EncodeAll(OutputBytes, outputs[..i])
    {
      EncodeAllStep(OutputBytes, outputs, i);
      var output := OutputData(outputs[i]);
      data.AppendData(output);
    }
    assert outputs[..|outputs|] == outputs;
  }

  method TransactionData(t: Transaction) returns (r: Bytes)
    requires Fits(t)
    ensures r == TransactionBytes(t)
  {
    hide InputBytes, OutputBytes, VarIntBytes, UInt32Bytes, EncodeAll;
    var data := new MutableData();
    AppendUInt32(data, t.version);
    data.AppendVarInt(|t.inputs|);
    AppendInputs(data, t.inputs);
    data.AppendVarInt(|t.outputs|);
    AppendOutputs(data, t.outputs);
    AppendUInt32(data, LockTimeRaw(t.lockTime));
    r := data.bytes;
  }

  method AppendUInt32(data: MutableData, value: uint32)
    modifies data
    ensures data.bytes == old(data.bytes) + UInt32Bytes(value)
  {
    data.AppendInteger(4, value);
  }

  method TransactionFromStream(stream: InputStream) returns (r: Outcome<Transaction>)
    modifies stream
    ensures stream.Agrees(ParseTransaction(old(stream.rest)), r)
  {
    hide ParseInput, ParseOutput, ParseVarInt, ParseUInt32, Repeat;
    var version :- stream.ReadUInt32();
    var inputCount :- stream.ReadVarInt();
    var inputs :- InputsFromStream(stream, inputCount);
    if |inputs| == 0 {
      return GotNil;
    }
    var outputCount :- stream.ReadVarInt();
    var outputs :- OutputsFromStream(stream, outputCount);
    if |outputs| == 0 {
      return GotNil;
    }
    var lockTimeRaw :- stream.ReadUInt32();
    return Got(Transaction(version, inputs, outputs, LockTimeFromRaw(lockTimeRaw)));
  }
}
