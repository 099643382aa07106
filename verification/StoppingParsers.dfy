/**
 Exactly when the wire parsers stop the program where they should return nil, and what happens to
 a transaction that is cut off.
 */
module StoppingParsers {
  import opened Binary
  import opened BitcoinEncoding
  import opened BitcoinDecoding
  import Hashes = SHA256Hash
  import opened Transaction
  import opened TransactionCodec
  import opened Block
  import opened PartialMerkleTree
  import PrunedTrees
  import opened FilteredBlock
  import opened PeerController

  // ---------------------------------------------------------------------------------------
  // Lists.
  // ---------------------------------------------------------------------------------------

  /** Element k is reached, and what is left of the stream there satisfies the guard. */
  ghost predicate StopsAt<T>(parse: Bytes -> Parse<T>, stops: Bytes -> bool, s: Bytes, k: nat) {
    Repeat(parse, k, s).Ok? && stops(Repeat(parse, k, s).rest)
  }

  ghost predicate SomeElementStops<T>(parse: Bytes -> Parse<T>, stops: Bytes -> bool, count: nat, s: Bytes) {
    exists k: nat :: k < count && StopsAt(parse, stops, s, k)
  }

  /** A list of elements stops the program exactly where the first element to fail stops it. */
  lemma {:induction false} RepeatTraps<T>(parse: Bytes -> Parse<T>, stops: Bytes -> bool, count: nat, s: Bytes)
    requires forall r :: parse(r).Trap? <==> stops(r)
    ensures Repeat(parse, count, s).Trap? <==> SomeElementStops(parse, stops, count, s)
  {
    if count > 0 && parse(s).Ok? {
      var s1 := parse(s).rest;
      RepeatTraps(parse, stops, count - 1, s1);
      if k: nat :| k < count - 1 && StopsAt(parse, stops, s1, k) {
        assert StopsAt(parse, stops, s, k + 1);
      }
      if k: nat :| k < count && StopsAt(parse, stops, s, k) {
        assert k > 0;
        assert StopsAt(parse, stops, s1, k - 1);
      }
    } else if count > 0 && parse(s).Trap? {
      assert StopsAt(parse, stops, s, 0);
    }
  }

  // ---------------------------------------------------------------------------------------
  // Transactions.
  // ---------------------------------------------------------------------------------------

  /** A length that does not fit the signed range stands here. */
  predicate HugeLength(s: Bytes) {
    ParseVarInt(s).Ok? && ParseVarInt(s).value > MAX_INT64
  }

  predicate InputStops(s: Bytes) {
    s == [] || (|s| >= 36 && HugeLength(s[36..]))
  }

  predicate OutputStops(s: Bytes) {
    |s| >= 8 && HugeLength(s[8..])
  }

  /** An input stops the program exactly on an exhausted stream, where its hash is empty data, and
      on a script length above the signed range. */
  lemma InputTraps(s: Bytes)
    ensures ParseInput(s).Trap? <==> InputStops(s)
  {
    hide ParseVarInt;
    if |s| >= 36 {
      SliceOfRest(s, 32, 4);
    }
  }

  /** An output does so exactly on a script length above the signed range. */
  lemma OutputTraps(s: Bytes)
    ensures ParseOutput(s).Trap? <==> OutputStops(s)
  {
    hide ParseVarInt;
  }

  /** The counted list at the start of s stops. */
  ghost predicate ListStops<T>(parse: Bytes -> Parse<T>, stops: Bytes -> bool, s: Bytes) {
    ParseVarInt(s).Ok? && SomeElementStops(parse, stops, ParseVarInt(s).value, ParseVarInt(s).rest)
  }

  /** The counted list at the start of s is read completely; what follows it is the rest. */
  function ParseList<T>(parse: Bytes -> Parse<T>, s: Bytes): Parse<seq<T>> {
    var (count, s1) :- ParseVarInt(s);
    Repeat(parse, count, s1)
  }

  /** After the version, an input of the first list stops; or that list is read and has inputs,
      and an output of the second one stops. */
  ghost predicate TransactionStops(s: Bytes) {
    && |s| >= 4
    && var inputs := ParseList(ParseInput, s[4..]);
       || ListStops(ParseInput, InputStops, s[4..])
       || (inputs.Ok? && inputs.value != [] && ListStops(ParseOutput, OutputStops, inputs.rest))
  }

  lemma TransactionTraps(s: Bytes)
    ensures ParseTransaction(s).Trap? <==> TransactionStops(s)
  {
    hide ParseInput, ParseOutput, ParseVarInt, InputStops, OutputStops, SomeElementStops, Repeat;
    forall r ensures ParseInput(r).Trap? <==> InputStops(r) { InputTraps(r); }
    forall r ensures ParseOutput(r).Trap? <==> OutputStops(r) { OutputTraps(r); }
    if |s| >= 4 && ParseVarInt(s[4..]).Ok? {
      var p := ParseVarInt(s[4..]);
      RepeatTraps(ParseInput, InputStops, p.value, p.rest);
      var inputs := Repeat(ParseInput, p.value, p.rest);
      if inputs.Ok? && ParseVarInt(inputs.rest).Ok? {
        var q := ParseVarInt(inputs.rest);
        RepeatTraps(ParseOutput, OutputStops, q.value, q.rest);
      }
    }
  }

  // ---------------------------------------------------------------------------------------
  // Headers, blocks, trees.
  // ---------------------------------------------------------------------------------------

  /** A stream that ends before one of the two hashes. */
  predicate HeaderStops(s: Bytes) {
    |s| == 4 || |s| == 36
  }

  lemma BlockHeaderTraps(s: Bytes)
    ensures ParseBlockHeader(s).Trap? <==> HeaderStops(s)
    ensures ParseBlockHeader(s).Ok? <==> |s| >= 80
    ensures |s| >= 80 ==> ParseBlockHeader(s).rest == s[80..]
  {
  }

  ghost predicate BlockStops(s: Bytes) {
    HeaderStops(s) || (|s| >= 80 && ListStops(ParseTransaction, TransactionStops, s[80..]))
  }

  /** A block stops the program exactly in its header, or at a transaction that is reached. */
  lemma BlockTraps(s: Bytes)
    ensures ParseBlock(s).Trap? <==> BlockStops(s)
  {
    hide ParseBlockHeader, ParseVarInt, ParseTransaction, TransactionStops, SomeElementStops, Repeat;
    BlockHeaderTraps(s);
    forall r ensures ParseTransaction(r).Trap? <==> TransactionStops(r) { TransactionTraps(r); }
    if |s| >= 80 && ParseVarInt(s[80..]).Ok? {
      var p := ParseVarInt(s[80..]);
      RepeatTraps(ParseTransaction, TransactionStops, p.value, p.rest);
    }
  }

  ghost predicate HeadersStop(s: Bytes) {
    ListStops(ParseEntry, HeaderStops, s)
  }

  /** A headers message does so exactly at a header that is reached with just its version, or its
      version and its first hash, left in the stream. */
  lemma HeadersTrap(s: Bytes)
    ensures ParseHeaders(s).Trap? <==> HeadersStop(s)
  {
    hide ParseBlockHeader, ParseVarInt, SomeElementStops, HeaderStops;
    forall r ensures ParseEntry(r).Trap? <==> HeaderStops(r) { BlockHeaderTraps(r); }
    if ParseVarInt(s).Ok? {
      var p := ParseVarInt(s);
      RepeatTraps(ParseEntry, HeaderStops, p.value, p.rest);
    }
  }

  /** Hashes have a fixed size, so the length of the stream decides how a list of them is read. */
  lemma {:induction false} HashesTrap(count: nat, s: Bytes)
    ensures var p := Repeat(Hashes.ParseHash, count, s);
            && (p.Trap? <==> |s| < 32 * count && |s| % 32 == 0)
            && (p.Ok? <==> |s| >= 32 * count)
            && (p.Ok? ==> p.rest == s[32 * count..])
  {
    hide Hashes.ParseHash;
    Hashes.ParseHashCases(s);
    if count > 0 && |s| >= 32 {
      HashesTrap(count - 1, s[32..]);
      if |s| >= 32 * count {
        SliceOfRest(s, 32, 32 * (count - 1));
      }
    }
  }

  lemma {:induction false} FlagBytesParse(count: nat, s: Bytes)
    ensures var p := Repeat(ParseUInt8, count, s); if |s| >= count then p.Ok? else p.Nil?
  {
    if count > 0 && s != [] {
      FlagBytesParse(count - 1, s[1..]);
    }
  }

  /** The number of leaves is followed by a list of hashes whose stream ends right before one of
      them, or it is zero and both lists are complete. */
  predicate TreeStops(s: Bytes) {
    && |s| >= 4 && ParseVarInt(s[4..]).Ok?
    && var n, r := ParseVarInt(s[4..]).value, ParseVarInt(s[4..]).rest;
       if |r| < 32 * n then |r| % 32 == 0
       else
         && s[..4] == [0, 0, 0, 0]
         && ParseVarInt(r[32 * n..]).Ok?
         && ParseVarInt(r[32 * n..]).value <= |ParseVarInt(r[32 * n..]).rest|
  }

  lemma ZeroBytes(s: Bytes)
    requires |s| >= 4
    ensures ParseUInt32(s).Ok? && ParseUInt32(s).rest == s[4..]
    ensures ParseUInt32(s).value == 0 <==> s[..4] == [0, 0, 0, 0]
  {
    hide UInt32Bytes, FromLittleEndian;
    UInt32Bytes4(s);
    Zero();
    if s[..4] == [0, 0, 0, 0] {
      assert s == UInt32Bytes(0) + s[4..];
      UInt32RoundTrip(0, s[4..]);
    }
  }

  lemma Zero()
    ensures UInt32Bytes(0) == [0, 0, 0, 0]
  {
  }

  lemma TreeTraps(sha: Hash, s: Bytes)
    ensures ParseTree(sha, s).Trap? <==> TreeStops(s)
  {
    hide ParseUInt32, ParseVarInt, Init, Repeat, ParseUInt8, Hashes.ParseHash;
    UInt32NeedsBytes(s);
    if |s| >= 4 {
      ZeroBytes(s);
    }
    if |s| >= 4 && ParseVarInt(s[4..]).Ok? {
      var n, r := ParseVarInt(s[4..]).value, ParseVarInt(s[4..]).rest;
      HashesTrap(n, r);
      if |r| >= 32 * n && ParseVarInt(r[32 * n..]).Ok? {
        var m, q := ParseVarInt(r[32 * n..]).value, ParseVarInt(r[32 * n..]).rest;
        FlagBytesParse(m, q);
        var hashes, flags := Repeat(Hashes.ParseHash, n, r), Repeat(ParseUInt8, m, q);
        if |q| >= m {
          PrunedTrees.AcceptsExactlyEncodings(sha, ParseUInt32(s).value, hashes.value, flags.value);
        }
      }
    }
  }

  predicate FilteredBlockStops(s: Bytes) {
    HeaderStops(s) || (|s| >= 80 && TreeStops(s[80..]))
  }

  /** A filtered block: in its header, or in its tree. */
  lemma FilteredBlockTraps(sha: Hash, s: Bytes)
    ensures ParseFilteredBlock(sha, s).Trap? <==> FilteredBlockStops(s)
  {
    hide ParseBlockHeader, ParseTree, TreeStops;
    BlockHeaderTraps(s);
    if |s| >= 80 {
      TreeTraps(sha, s[80..]);
    }
  }

  // ---------------------------------------------------------------------------------------
  // A transaction that is cut off.
  // ---------------------------------------------------------------------------------------

  /** What is cut off two consecutive pieces ends in the first one or in the second one. */
  lemma CutSplit(p: Bytes, a: Bytes, b: Bytes)
    requires p < a + b
    ensures p < a || (|p| >= |a| && p == a + p[|a|..] && p[|a|..] < b)
  {
    if |p| < |a| {
      assert p == (a + b)[..|p|] == a[..|p|];
    } else {
      assert p == (a + b)[..|p|];
      assert p[|a|..] == b[..|p| - |a|];
    }
  }

  lemma CutVarInt(v: nat, p: Bytes)
    requires v <= MAX_UINT64 && p < VarIntBytes(v)
    ensures ParseVarInt(p) == Nil
  {}

  /** Of data of which the length is known but not all is there, nothing is left. */
  lemma CutCounted(data: Bytes, p: Bytes)
    requires 0 < |data| <= MAX_INT64 && p < CountedBytes(data)
    ensures ParseCountedData(p).Nil? || (ParseCountedData(p).Ok? && ParseCountedData(p).rest == [])
  {
    hide VarIntBytes, ParseVarInt;
    CutSplit(p, VarIntBytes(|data|), data);
    if p < VarIntBytes(|data|) {
      CutVarInt(|data|, p);
    } else {
      VarIntRoundTrip(|data|, p[|VarIntBytes(|data|)|..]);
    }
  }

  lemma CutOutPoint(o: OutPoint, p: Bytes)
    requires p < OutPointBytes(o)
    ensures ParseOutPoint(p) == if p == [] then Trap else Nil
  {
    hide Hashes.ParseHash, ParseUInt32;
    Hashes.ParseHashCases(p);
    if |p| >= 32 {
      UInt32NeedsBytes(p[32..]);
    }
  }

  lemma CutInput(i: Input, p: Bytes)
    requires 0 < |i.scriptSignature| <= MAX_INT64 && p < InputBytes(i)
    ensures ParseInput(p) == if p == [] then Trap else Nil
  {
    hide OutPointBytes, ParseOutPoint, CountedBytes, ParseCountedData, UInt32Bytes, ParseUInt32;
    var a, b, c := OutPointBytes(i.outPoint), CountedBytes(i.scriptSignature), UInt32Bytes(i.sequence);
    assert InputBytes(i) == a + (b + c);
    CutSplit(p, a, b + c);
    if p < a {
      CutOutPoint(i.outPoint, p);
    } else {
      var p1 := p[|a|..];
      OutPointRoundTrip(i.outPoint, p1);
      CutSplit(p1, b, c);
      if p1 < b {
        CutCounted(i.scriptSignature, p1);
        UInt32NeedsBytes([]);
      } else {
        CountedRoundTrip(i.scriptSignature, p1[|b|..]);
        UInt32NeedsBytes(p1[|b|..]);
      }
      OutPointSize(i.outPoint);
    }
  }

  lemma OutPointSize(o: OutPoint)
    ensures |OutPointBytes(o)| == 36
  {}

  lemma CutOutput(o: Output, p: Bytes)
    requires 0 < |o.script| <= MAX_INT64 && p < OutputBytes(o)
    ensures ParseOutput(p).Nil? || (ParseOutput(p).Ok? && ParseOutput(p).rest == [])
  {
    hide ValueBytes, ParseValue, CountedBytes, ParseCountedData;
    CutSplit(p, ValueBytes(o.value), CountedBytes(o.script));
    if p < ValueBytes(o.value) {
      ShortValue(p);
    } else {
      ValueRoundTrip(o.value, p[8..]);
      CutCounted(o.script, p[8..]);
    }
  }

  lemma ShortValue(p: Bytes)
    requires |p| < 8
    ensures ParseValue(p) == Nil
  {}

  /** The stream ends right before one of the inputs. */
  ghost predicate EndsBeforeInput(inputs: seq<Input>, p: Bytes) {
    exists k :: 0 <= k < |inputs| && p == EncodeAll(InputBytes, inputs[..k])
  }

  lemma EndsInFirst(inputs: seq<Input>, p: Bytes)
    requires inputs != []
    ensures |p| < |InputBytes(inputs[0])| ==> (EndsBeforeInput(inputs, p) <==> p == [])
    ensures var a := InputBytes(inputs[0]);
            |p| >= |a| && p == a + p[|a|..] ==>
              (EndsBeforeInput(inputs, p) <==> EndsBeforeInput(inputs[1..], p[|a|..]))
  {
    hide InputBytes, EncodeAll;
    var a := InputBytes(inputs[0]);
    EncodeAllEmpty(InputBytes);
    InputSize(inputs[0]);
    forall k | 1 <= k <= |inputs|
      ensures EncodeAll(InputBytes, inputs[..k]) == a + EncodeAll(InputBytes, inputs[1..][..k - 1])
    {
      EncodeAllFirst(InputBytes, inputs[..k]);
      assert inputs[..k][1..] == inputs[1..][..k - 1];
    }
    assert inputs[..0] == [];
    if |p| >= |a| && p == a + p[|a|..] {
      if k :| 0 <= k < |inputs[1..]| && p[|a|..] == EncodeAll(InputBytes, inputs[1..][..k]) {
        assert p == EncodeAll(InputBytes, inputs[..k + 1]);
      }
      if k :| 0 <= k < |inputs| && p == EncodeAll(InputBytes, inputs[..k]) {
        assert k > 0;
        assert p[|a|..] == EncodeAll(InputBytes, inputs[1..][..k - 1]);
      }
    }
  }

  lemma InputSize(i: Input)
    ensures |InputBytes(i)| >= 36
  {}

  lemma {:induction false} CutInputs(inputs: seq<Input>, p: Bytes)
    requires forall i :: i in inputs ==> 0 < |i.scriptSignature| <= MAX_INT64
    requires p < EncodeAll(InputBytes, inputs)
    ensures Repeat(ParseInput, |inputs|, p) == if EndsBeforeInput(inputs, p) then Trap else Nil
  {
    hide InputBytes, ParseInput, EncodeAll, EndsBeforeInput;
    EncodeAllEmpty(InputBytes);
    assert inputs != [];
    var a := InputBytes(inputs[0]);
    EncodeAllFirst(InputBytes, inputs);
    CutSplit(p, a, EncodeAll(InputBytes, inputs[1..]));
    EndsInFirst(inputs, p);
    if p < a {
      CutInput(inputs[0], p);
    } else {
      InputRoundTrip(inputs[0], p[|a|..]);
      CutInputs(inputs[1..], p[|a|..]);
    }
  }

  lemma {:induction false} CutOutputs(outputs: seq<Output>, p: Bytes)
    requires forall o :: o in outputs ==> 0 < |o.script| <= MAX_INT64
    requires p < EncodeAll(OutputBytes, outputs)
    ensures var r := Repeat(ParseOutput, |outputs|, p); r.Nil? || (r.Ok? && r.rest == [])
  {
    hide OutputBytes, ParseOutput, EncodeAll;
    EncodeAllEmpty(OutputBytes);
    var a := OutputBytes(outputs[0]);
    EncodeAllFirst(OutputBytes, outputs);
    CutSplit(p, a, EncodeAll(OutputBytes, outputs[1..]));
    if p < a {
      CutOutput(outputs[0], p);
      NoOutputAtEnd();
    } else {
      OutputRoundTrip(outputs[0], p[|a|..]);
      CutOutputs(outputs[1..], p[|a|..]);
    }
  }

  function InputsPart(t: Transaction): Bytes {
    VarIntBytes(|t.inputs|) + EncodeAll(InputBytes, t.inputs)
  }

  function OutputsPart(t: Transaction): Bytes {
    VarIntBytes(|t.outputs|) + EncodeAll(OutputBytes, t.outputs)
  }

  /** The list of inputs ends right before an input. */
  ghost predicate ListCut(t: Transaction, p: Bytes) {
    var n := |VarIntBytes(|t.inputs|)|;
    |p| >= n && EndsBeforeInput(t.inputs, p[n..])
  }

  lemma CutInputsPart(t: Transaction, p: Bytes)
    requires Canonical(t) && Fits(t) && p < InputsPart(t)
    ensures ParseList(ParseInput, p) == if ListCut(t, p) then Trap else Nil
  {
    hide VarIntBytes, ParseVarInt, EncodeAll, Repeat, ParseInput, EndsBeforeInput;
    var a := VarIntBytes(|t.inputs|);
    CutSplit(p, a, EncodeAll(InputBytes, t.inputs));
    if p < a {
      CutVarInt(|t.inputs|, p);
    } else {
      VarIntRoundTrip(|t.inputs|, p[|a|..]);
      CutInputs(t.inputs, p[|a|..]);
    }
  }

  lemma CutOutputsPart(t: Transaction, p: Bytes)
    requires Canonical(t) && Fits(t) && p < OutputsPart(t)
    ensures var r := ParseList(ParseOutput, p); r.Nil? || (r.Ok? && r.rest == [])
  {
    hide VarIntBytes, ParseVarInt, EncodeAll, Repeat, ParseOutput;
    var a := VarIntBytes(|t.outputs|);
    CutSplit(p, a, EncodeAll(OutputBytes, t.outputs));
    if p < a {
      CutVarInt(|t.outputs|, p);
    } else {
      VarIntRoundTrip(|t.outputs|, p[|a|..]);
      CutOutputs(t.outputs, p[|a|..]);
    }
  }

  lemma InputsPartRead(t: Transaction, rest: Bytes)
    requires Canonical(t) && Fits(t)
    ensures ParseList(ParseInput, InputsPart(t) + rest) == Ok(t.inputs, rest)
  {
    hide VarIntBytes, ParseVarInt, EncodeAll, Repeat, ParseInput, InputBytes;
    var s1 := EncodeAll(InputBytes, t.inputs) + rest;
    assert InputsPart(t) + rest == VarIntBytes(|t.inputs|) + s1;
    VarIntRoundTrip(|t.inputs|, s1);
    forall x, r | x in t.inputs ensures ParseInput(InputBytes(x) + r) == Ok(x, r) {
      InputRoundTrip(x, r);
    }
    RepeatRoundTrip(ParseInput, InputBytes, t.inputs, rest);
  }

  lemma OutputsPartRead(t: Transaction, rest: Bytes)
    requires Canonical(t) && Fits(t)
    ensures ParseList(ParseOutput, OutputsPart(t) + rest) == Ok(t.outputs, rest)
  {
    hide VarIntBytes, ParseVarInt, EncodeAll, Repeat, ParseOutput, OutputBytes;
    var s1 := EncodeAll(OutputBytes, t.outputs) + rest;
    assert OutputsPart(t) + rest == VarIntBytes(|t.outputs|) + s1;
    VarIntRoundTrip(|t.outputs|, s1);
    forall x, r | x in t.outputs ensures ParseOutput(OutputBytes(x) + r) == Ok(x, r) {
      OutputRoundTrip(x, r);
    }
    RepeatRoundTrip(ParseOutput, OutputBytes, t.outputs, rest);
  }

  /** Cut off after its inputs, a transaction has no lock time. */
  lemma CutAfterInputs(t: Transaction, p: Bytes)
    requires Canonical(t) && Fits(t) && p < OutputsPart(t) + UInt32Bytes(LockTimeRaw(t.lockTime))
    ensures var r := ParseList(ParseOutput, p); r.Nil? || (r.Ok? && ParseUInt32(r.rest).Nil?)
  {
    hide OutputsPart, ParseList, UInt32Bytes, ParseUInt32, ParseOutput;
    var a := OutputsPart(t);
    CutSplit(p, a, UInt32Bytes(LockTimeRaw(t.lockTime)));
    if p < a {
      CutOutputsPart(t, p);
      UInt32NeedsBytes([]);
    } else {
      OutputsPartRead(t, p[|a|..]);
      UInt32NeedsBytes(p[|a|..]);
    }
  }

  lemma EndsBeforeAll(inputs: seq<Input>, p: Bytes)
    requires EndsBeforeInput(inputs, p)
    ensures |p| < |EncodeAll(InputBytes, inputs)|
  {
    hide EncodeAll, InputBytes;
    var k :| 0 <= k < |inputs| && p == EncodeAll(InputBytes, inputs[..k]);
    assert inputs == inputs[..k] + inputs[k..];
    EncodeAllConcat(InputBytes, inputs[..k], inputs[k..]);
    EncodeAllFirst(InputBytes, inputs[k..]);
    InputSize(inputs[k]);
  }

  lemma WholeListNotCut(t: Transaction, p: Bytes)
    requires |p| >= |InputsPart(t)|
    ensures !ListCut(t, p)
  {
    hide VarIntBytes, EncodeAll, EndsBeforeInput;
    var n := |VarIntBytes(|t.inputs|)|;
    if ListCut(t, p) {
      EndsBeforeAll(t.inputs, p[n..]);
    }
  }

  /** The stream ends right before an input of the transaction. */
  ghost predicate CutBeforeInput(t: Transaction, p: Bytes) {
    |p| >= 4 && ListCut(t, p[4..])
  }

  lemma Parts(t: Transaction)
    ensures TransactionBytes(t)
         == UInt32Bytes(t.version) + (InputsPart(t) + (OutputsPart(t) + UInt32Bytes(LockTimeRaw(t.lockTime))))
    ensures |UInt32Bytes(t.version)| == 4
  {
    hide VarIntBytes, EncodeAll, UInt32Bytes;
  }

  /** A transaction fails with its inputs, or because nothing is left for its lock time. */
  lemma ParseByParts(version: uint32, s: Bytes)
    ensures var r, inputs := ParseTransaction(UInt32Bytes(version) + s), ParseList(ParseInput, s);
            && (inputs.Trap? ==> r.Trap?)
            && (inputs.Nil? ==> r.Nil?)
            && (inputs.Ok? ==>
                  var outputs := ParseList(ParseOutput, inputs.rest);
                  outputs.Nil? || (outputs.Ok? && ParseUInt32(outputs.rest).Nil?) ==> r.Nil?)
  {
    hide ParseInput, ParseOutput, ParseVarInt, Repeat, UInt32Bytes, ParseUInt32;
    UInt32RoundTrip(version, s);
  }

  /** A canonical transaction that is cut off anywhere is rejected, never read as another one; but
      right before an input it stops the program instead of yielding nil, and nowhere else. */
  lemma TruncatedTransaction(t: Transaction, p: Bytes)
    requires Canonical(t) && Fits(t) && p < TransactionBytes(t)
    ensures ParseTransaction(p) == if CutBeforeInput(t, p) then Trap else Nil
  {
    hide ParseInput, ParseOutput, InputsPart, OutputsPart, ListCut, ParseList;
    hide UInt32Bytes, ParseUInt32, TransactionBytes, Repeat, ParseVarInt;
    var a, b, c := UInt32Bytes(t.version), InputsPart(t), OutputsPart(t) + UInt32Bytes(LockTimeRaw(t.lockTime));
    Parts(t);
    UInt32NeedsBytes(p);
    CutSplit(p, a, b + c);
    if |p| >= 4 {
      var p1 := p[4..];
      ParseByParts(t.version, p1);
      CutSplit(p1, b, c);
      if p1 < b {
        CutInputsPart(t, p1);
      } else {
        InputsPartRead(t, p1[|b|..]);
        CutAfterInputs(t, p1[|b|..]);
        WholeListNotCut(t, p1);
      }
    }
  }
}
