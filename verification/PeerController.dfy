/**
 PeerController: downloads block headers in batches of 2000, each request naming the last header
 of the batch before, with the wire format of HeadersMessage.
 */
module PeerController {
  import opened Binary
  import opened BitcoinEncoding
  import opened BitcoinDecoding
  import opened Block

  // ---------------------------------------------------------------------------------------
  // HeadersMessage.
  // ---------------------------------------------------------------------------------------

  /** A header followed by a transaction count, which has to be 0. */
  function ParseEntry(s: Bytes): Parse<BlockHeader> {
    var (header, s1) :- ParseBlockHeader(s);
    var (transactionCount, s2) :- ParseVarInt(s1);
    if transactionCount != 0 then Nil else Ok(header, s2)
  }

  function ParseHeaders(s: Bytes): Parse<seq<BlockHeader>> {
    var (count, s1) :- ParseVarInt(s);
    if count == 0 then Nil else Repeat(ParseEntry, count, s1)
  }

  /** What a peer sends. (The printer of the source leaves the transaction counts out.) */
  function EntryBytes(h: BlockHeader): Bytes {
    BlockHeaderBytes(h) + VarIntBytes(0)
  }

  function HeadersBytes(hs: seq<BlockHeader>): Bytes {
    VarIntBytes(|hs|) + EncodeAll(EntryBytes, hs)
  }

  method HeadersFromStream(stream: InputStream) returns (r: Outcome<seq<BlockHeader>>)
    modifies stream
    ensures stream.Agrees(ParseHeaders(old(stream.rest)), r)
  {
    hide ParseVarInt, ParseBlockHeader;
    var count :- stream.ReadVarInt();
    if count == 0 {
      return GotNil;
    }
    ghost var start := stream.rest;
    var headers: seq<BlockHeader> := [];
    PrependEmpty(headers, Repeat(ParseEntry, count, start), []);
    for i := 0 to count
      invariant Prepend(headers, Repeat(ParseEntry, count - i, stream.rest)) == Repeat(ParseEntry, count, start)
    {
      RepeatStep(ParseEntry, count - i, headers, stream.rest);
      var header :- BlockHeaderFromStream(stream);
      var transactionCount :- stream.ReadVarInt();
      if transactionCount != 0 {
        return GotNil;
      }
      headers := headers + [header];
    }
    PrependEmpty(headers, Repeat(ParseEntry, 0, stream.rest), stream.rest);
    return Got(headers);
  }

  lemma EntryRoundTrip(h: BlockHeader, rest: Bytes)
    ensures ParseEntry(EntryBytes(h) + rest) == Ok(h, rest)
  {
    hide BlockHeaderBytes, ParseBlockHeader, VarIntBytes, ParseVarInt;
    assert EntryBytes(h) + rest == BlockHeaderBytes(h) + (VarIntBytes(0) + rest);
    BlockHeaderRoundTrip(h, VarIntBytes(0) + rest);
    VarIntRoundTrip(0, rest);
  }

  /** A peer's answer is understood, unless it has no headers in it. */
  lemma HeadersRoundTrip(hs: seq<BlockHeader>, rest: Bytes)
    requires |hs| <= MAX_UINT64
    ensures ParseHeaders(HeadersBytes(hs) + rest) == if hs == [] then Nil else Ok(hs, rest)
  {
    hide VarIntBytes, ParseVarInt, ParseEntry, EntryBytes;
    var s1 := EncodeAll(EntryBytes, hs) + rest;
    assert HeadersBytes(hs) + rest == VarIntBytes(|hs|) + s1;
    VarIntRoundTrip(|hs|, s1);
    forall h, r | h in hs ensures ParseEntry(EntryBytes(h) + r) == Ok(h, r) {
      EntryRoundTrip(h, r);
    }
    RepeatRoundTrip(ParseEntry, EntryBytes, hs, rest);
  }

  // ---------------------------------------------------------------------------------------
  // The controller.
  // ---------------------------------------------------------------------------------------

  const BATCH: nat := 2000

  /** `locator` is the hash in the request the peer has not answered yet; `received` is the log of
      all headers seen. */
  datatype Sync = Sync(
    headersDownloaded: nat,
    blockStartHeight: Option<int>,
    locator: Option<Digest>,
    completions: nat,
    stopped: bool,
    received: seq<BlockHeader>)

  const IDLE := Sync(0, None, None, 0, false, [])

  function OnConnect(s: Sync, genesis: Digest, blockStartHeight: int): Sync {
    s.(blockStartHeight := Some(blockStartHeight), locator := Some(genesis))
  }

  /** After a full batch the progress is computed for the log: without a version the unwrapping
      stops the program, and with a height of 0 the conversion of an infinite quotient does. */
  function OnHeaders(s: Sync, sha: Hash, headers: seq<BlockHeader>): Sync {
    var s1 := s.(headersDownloaded := s.headersDownloaded + |headers|, received := s.received + headers);
    if |headers| == BATCH then
      if s.blockStartHeight.None? || s.blockStartHeight.value == 0 then s1.(stopped := true)
      else s1.(locator := Some(HeaderHash(sha, headers[|headers| - 1])))
    else s1.(completions := s.completions + 1)
  }

  class PeerController {
    const sha: Hash
    const genesisBlockHash: Digest
    var headersDownloaded: nat
    var peerVersion: Option<int>
    // What surrounds the object: the request on its way, what the delegate was told, whether the
    // program stopped, and the headers seen.
    var request: Option<Digest>
    var completions: nat
    var stopped: bool
    ghost var received: seq<BlockHeader>

    constructor (sha: Hash, genesisBlockHash: Digest)
      ensures this.sha == sha && this.genesisBlockHash == genesisBlockHash && State() == IDLE
    {
      this.sha, this.genesisBlockHash := sha, genesisBlockHash;
      headersDownloaded, peerVersion, request, completions, stopped, received := 0, None, None, 0, false, [];
    }

    ghost function State(): Sync
      reads this
    {
      Sync(headersDownloaded, peerVersion, request, completions, stopped, received)
    }

    method DidConnectWithPeerVersion(blockStartHeight: int)
      modifies this
      ensures State() == OnConnect(old(State()), genesisBlockHash, blockStartHeight)
    {
      peerVersion := Some(blockStartHeight);
      request := Some(genesisBlockHash);
    }

    method DidReceiveHeaders(headers: seq<BlockHeader>)
      modifies this
      ensures State() == OnHeaders(old(State()), sha, headers)
    {
      headersDownloaded := headersDownloaded + |headers|;
      received := received + headers;
      if |headers| == BATCH {
        if peerVersion.None? || peerVersion.value == 0 {
          stopped := true;
          return;
        }
        var lastHeaderHash := HeaderHash(sha, headers[|headers| - 1]);
        request := Some(lastHeaderHash);
      } else {
        completions := completions + 1;
      }
    }
  }

  // ---------------------------------------------------------------------------------------
  // An honest peer.
  // ---------------------------------------------------------------------------------------

  /** How many headers of the chain come up to and including the one with the given hash; none if
      there is no such header. */
  function Position(sha: Hash, chain: seq<BlockHeader>, locator: Digest): (n: nat)
    ensures n <= |chain|
  {
    if chain == [] then 0
    else if HeaderHash(sha, chain[|chain| - 1]) == locator then |chain|
    else Position(sha, chain[..|chain| - 1], locator)
  }

  /** The next headers after the locator, at most a batch of them. */
  function Reply(sha: Hash, chain: seq<BlockHeader>, locator: Digest): seq<BlockHeader> {
    var from := Position(sha, chain, locator);
    if |chain| - from <= BATCH then chain[from..] else chain[from..from + BATCH]
  }

  /** One request and its answer. An answer that does not parse never reaches the controller. */
  function Exchange(sha: Hash, chain: seq<BlockHeader>, s: Sync): Sync {
    if s.stopped || s.locator.None? then s
    else
      var waiting := s.(locator := None);
      match ParseHeaders(HeadersBytes(Reply(sha, chain, s.locator.value)))
      case Ok(headers, _) => OnHeaders(waiting, sha, headers)
      case Nil => waiting
      case Trap => waiting.(stopped := true)
  }

  function After(sha: Hash, genesis: Digest, chain: seq<BlockHeader>, height: int, k: nat): Sync {
    if k == 0 then OnConnect(IDLE, genesis, height)
    else Exchange(sha, chain, After(sha, genesis, chain, height, k - 1))
  }

  /** No two headers have the same hash, and none has the genesis hash. */
  ghost predicate DistinctHashes(sha: Hash, genesis: Digest, chain: seq<BlockHeader>) {
    && (forall i :: 0 <= i < |chain| ==> HeaderHash(sha, chain[i]) != genesis)
    && (forall i, j :: 0 <= i < j < |chain| ==> HeaderHash(sha, chain[i]) != HeaderHash(sha, chain[j]))
  }

  lemma {:induction false} PositionOfGenesis(sha: Hash, genesis: Digest, chain: seq<BlockHeader>)
    requires DistinctHashes(sha, genesis, chain)
    ensures Position(sha, chain, genesis) == 0
  {
    hide HeaderHash;
    if chain != [] {
      PositionOfGenesis(sha, genesis, chain[..|chain| - 1]);
    }
  }

  lemma {:induction false} PositionOfHeader(sha: Hash, genesis: Digest, chain: seq<BlockHeader>, i: nat)
    requires DistinctHashes(sha, genesis, chain) && i < |chain|
    ensures Position(sha, chain, HeaderHash(sha, chain[i])) == i + 1
  {
    hide HeaderHash;
    if i < |chain| - 1 {
      PositionOfHeader(sha, genesis, chain[..|chain| - 1], i);
    }
  }

  /** The locator from which the peer continues after n headers. */
  function LocatorAt(sha: Hash, genesis: Digest, chain: seq<BlockHeader>, n: nat): Digest
    requires n <= |chain|
  {
    if n == 0 then genesis else HeaderHash(sha, chain[n - 1])
  }

  lemma ExchangeAt(sha: Hash, genesis: Digest, chain: seq<BlockHeader>, s: Sync, n: nat)
    requires DistinctHashes(sha, genesis, chain) && n <= |chain|
    requires !s.stopped && s.locator == Some(LocatorAt(sha, genesis, chain, n))
    ensures var m := if |chain| - n <= BATCH then |chain| else n + BATCH;
            Exchange(sha, chain, s)
              == (if m == n then s.(locator := None) else OnHeaders(s.(locator := None), sha, chain[n..m]))
  {
    hide HeaderHash, HeadersBytes, ParseHeaders, Position;
    if n == 0 {
      PositionOfGenesis(sha, genesis, chain);
    } else {
      PositionOfHeader(sha, genesis, chain, n - 1);
    }
    var m := if |chain| - n <= BATCH then |chain| else n + BATCH;
    var reply := Reply(sha, chain, s.locator.value);
    assert reply == chain[n..m];
    HeadersRoundTrip(reply, []);
    assert HeadersBytes(reply) + [] == HeadersBytes(reply);
  }

  /** Nothing happens without a request. */
  lemma {:induction false} Quiet(sha: Hash, genesis: Digest, chain: seq<BlockHeader>, height: int, k: nat, j: nat)
    requires k <= j
    requires var s := After(sha, genesis, chain, height, k); s.stopped || s.locator.None?
    ensures After(sha, genesis, chain, height, j) == After(sha, genesis, chain, height, k)
    decreases j
  {
    hide ParseHeaders, HeadersBytes, Reply;
    if k < j {
      Quiet(sha, genesis, chain, height, k, j - 1);
    }
  }

  /** While full batches last, the headers received are the chain so far, without gap or repeat. */
  lemma {:induction false} FullBatches(sha: Hash, genesis: Digest, chain: seq<BlockHeader>, height: int, k: nat)
    requires DistinctHashes(sha, genesis, chain) && k * BATCH <= |chain|
    requires height != 0 || k == 0
    ensures After(sha, genesis, chain, height, k)
         == Sync(k * BATCH, Some(height), Some(LocatorAt(sha, genesis, chain, k * BATCH)), 0, false,
                 chain[..k * BATCH])
  {
    hide HeaderHash, Exchange;
    if k == 0 {
      assert chain[..0] == [];
    } else {
      var n := (k - 1) * BATCH;
      FullBatches(sha, genesis, chain, height, k - 1);
      ExchangeAt(sha, genesis, chain, After(sha, genesis, chain, height, k - 1), n);
      assert chain[..n] + chain[n..n + BATCH] == chain[..n + BATCH];
    }
  }

  /** The exchange after the last full batch: it completes the download if some headers are left,
      and otherwise the empty answer is dropped and nothing more is asked. */
  lemma LastExchange(sha: Hash, genesis: Digest, chain: seq<BlockHeader>, height: int)
    requires DistinctHashes(sha, genesis, chain)
    requires height != 0 || |chain| < BATCH
    ensures After(sha, genesis, chain, height, |chain| / BATCH + 1)
         == Sync(|chain|, Some(height), None, if |chain| % BATCH == 0 then 0 else 1, false, chain)
  {
    hide HeaderHash, Exchange;
    var k := |chain| / BATCH;
    var n := k * BATCH;
    FullBatches(sha, genesis, chain, height, k);
    ExchangeAt(sha, genesis, chain, After(sha, genesis, chain, height, k), n);
    assert chain[..n] + chain[n..] == chain;
    assert chain[n..|chain|] == chain[n..];
    if n == |chain| {
      assert chain[..n] == chain;
    }
  }

  /** The first full batch stops the program if the peer announced height 0. */
  lemma FullBatchWithoutHeight(sha: Hash, genesis: Digest, chain: seq<BlockHeader>)
    requires DistinctHashes(sha, genesis, chain) && |chain| >= BATCH
    ensures After(sha, genesis, chain, 0, 1) == Sync(BATCH, Some(0), None, 0, true, chain[..BATCH])
  {
    hide HeaderHash, Exchange;
    FullBatches(sha, genesis, chain, 0, 0);
    ExchangeAt(sha, genesis, chain, After(sha, genesis, chain, 0, 0), 0);
    assert chain[..0] + chain[0..BATCH] == chain[..BATCH];
  }

  /** At every moment the count is the number of headers received, and those are the chain up to
      that point. Completion is reported, once and with every header counted, exactly when the
      number of headers is not a multiple of the batch size and the peer did not announce height 0
      with a full batch to send; it is then reported after floor(N / 2000) + 1 exchanges. */
  lemma SyncCompletes(sha: Hash, genesis: Digest, chain: seq<BlockHeader>, height: int, k: nat)
    requires DistinctHashes(sha, genesis, chain)
    ensures var s := After(sha, genesis, chain, height, k);
            && s.headersDownloaded == |s.received| && s.received <= chain
            && s.completions <= 1
            && (s.completions == 1 <==>
                  && |chain| % BATCH != 0
                  && (height != 0 || |chain| < BATCH)
                  && k >= |chain| / BATCH + 1)
            && (s.completions == 1 ==> s.headersDownloaded == |chain| && s.received == chain)
  {
    hide Exchange, HeaderHash;
    var last := |chain| / BATCH + 1;
    if height != 0 || |chain| < BATCH {
      if k < last {
        FullBatches(sha, genesis, chain, height, k);
      } else {
        LastExchange(sha, genesis, chain, height);
        Quiet(sha, genesis, chain, height, last, k);
      }
    } else if k == 0 {
      FullBatches(sha, genesis, chain, height, 0);
    } else {
      FullBatchWithoutHeight(sha, genesis, chain);
      Quiet(sha, genesis, chain, height, 1, k);
    }
  }
}
