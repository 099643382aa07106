# Verified model of BitcoinSwift

A Dafny model of the parts of BitcoinSwift, an SPV wallet library, whose correctness is not
visible from one function at a time: the partial Merkle tree parser and what it proves, the
framing of the peer-to-peer byte stream, base 58 and addresses, the wire format of transactions
and blocks, the version handshake, key derivation along paths, and header synchronisation.

`dafny verify dfyconfig.toml` checks the whole project.

## How the model is laid out

| file | models |
|---|---|
| `Binary.dfy` | bytes, positional notation, fixed-width integers, bitwise or |
| `BitcoinEncoding.dfy`, `BitcoinDecoding.dfy` | the growing buffer and the stream readers |
| `SHA256Hash.dfy`, `Transaction.dfy`, `Block.dfy` | printers and parsers of the wire format |
| `TransactionCodec.dfy` | which transactions survive the wire |
| `WireLayout.dfy` | the wire format by offsets and weights of bytes |
| `StoppingParsers.dfy` | exactly when a parser stops the program, and transactions that are cut off |
| `PartialMerkleTree.dfy`, `PrunedTrees.dfy`, `MerkleProofs.dfy`, `FilteredBlock.dfy` | the Merkle parser, the trees it parses, what an accepted proof means |
| `Message.dfy`, `MessageParser.dfy`, `Framing.dfy` | the message envelope and the streaming parser |
| `Payloads.dfy` | what parsing a received payload can do to the program |
| `SendPump.dfy`, `Handshake.dfy`, `PeerConnection.dfy`, `EndToEnd.dfy` | the connection, and what a transport delivers to the other end |
| `VersionExchange.dfy`, `HandshakeCompletion.dfy` | the version handshake between two ends, and when it can still be completed |
| `Base58.dfy`, `Address.dfy` | base 58 with leading zeros, addresses with a checksum |
| `ExtendedECKey.dfy`, `PeerController.dfy` | key derivation, header synchronisation |

Code of the source that changes things step by step is a method, with a loop where the source
has one, proved equal to a function on values; the properties are lemmas about those functions.
Readers are specified by a function from the bytes that remain to a value and the bytes then
left, or nil, or `Trap`: a Swift precondition, forced unwrapping or narrowing conversion that
stops the program.

- SHA-256, HMAC-SHA512, the map from private to public keys and the order of the curve are
  parameters. Nothing is assumed about a hash beyond the length of its result; where a conclusion
  needs more, a function computes two 64-byte strings from the tree and the leaves, and the
  conclusion holds or those two strings differ and have the same double hash.
- Big integers are natural numbers and their `data` is the bytes without leading zeros.
- The logarithm in `treeHeightWithtotalLeafNodes` is the least h with n <= 2^h.
- A stream is the bytes not yet read; ASCII strings are kept as bytes, so that a byte above 127
  never becomes part of a known command; dates are whole seconds that fit 32 bits.
- The integer readers and appenders exist once in the source per width and signedness; here the
  width is a parameter. A signed reader collects the bit pattern and reinterprets it at the end.
- Every received payload is parsed. The parsers of transactions, blocks, headers and filtered blocks
  are those of this model; what the parser of version messages yields, and on which payloads the
  remaining parsers stop the program, are parameters (`Payloads.Parsers`).
- Socket results (`hasSpaceAvailable`, the number of bytes written) are arguments. Each block that
  runs on the network thread is one atomic step.

## Where the code does less than its documentation says

- `readData` is documented to return nil when nothing remains, but returns empty data, and returns
  short data when a whole number of 256-byte chunks remains (`BitcoinDecoding.ParseData`). An
  exhausted stream therefore stops the program in `SHA256Hash.init(data:)`, and so does a script
  length above the signed range in the narrowing conversion before `readData`. Which transactions,
  blocks, headers messages and filtered blocks stop the program is stated exactly by
  `StoppingParsers.TransactionTraps`, `BlockTraps`, `HeadersTrap` and `FilteredBlockTraps`; a
  transaction cut off by its sender does so exactly right before an input
  (`StoppingParsers.TruncatedTransaction`).
- An empty script reads as "the rest of the stream", so only canonical transactions round trip:
  `TransactionCodec.TransactionRoundTrip` says exactly which.
- `appendVarInt` takes a byte order that `readVarInt` ignores: `BitcoinDecoding.VarIntByteOrder`.
- An address with an all-zero header and hash may print too short to be parsed, depending on its
  checksum: `Address.ParsePrint`.
- The assertion in the version case fails when a second version message follows one that did not
  parse: `Handshake.VersionAssertionExactly`, `Handshake.SecondVersionAfterBadOneStops`.
- A received payload that stops its parser stops the program, also while the connection is being
  opened and before any version message: `EndToEnd.HandshakeOverWire` says exactly when, and
  `HandshakeCompletion.CanCompleteIff` what that means for an exchange under way.
- `sendMessageWithPayload` is documented to queue the message until the connection is established,
  but stops the program unless the network thread executes; a disconnect or timeout does so while
  the thread is starting: `Handshake.NoRunLoopExactly`. (A cancelled thread is taken to have no run
  loop at once; the source clears it when the run loop returns, so a send in between may still be
  scheduled, on a loop that no longer serves it.)
- Header synchronisation never reports completion when the number of headers is a multiple of
  2000, because an empty headers message does not parse, and it stops the program when the peer
  announced height 0 and sends a full batch: `PeerController.SyncCompletes`.
- Resynchronisation after junk depends on the magic having no self-overlap; the three networks
  qualify: `Framing.ResynchronisationIff`, `Framing.KnownNetworks`.
- Zero leaves stop the program in the tree height: `PrunedTrees.AcceptsExactlyEncodings`.
- The parser takes flag bytes last byte first and has no rule for a missing right child, so the
  Merkle results are about perfect trees, and no conformance with BIP 37 is claimed.

## Model

| member | source | states |
|---|---|---|
| `PartialMerkleTree.TreeHeight` | BitcoinSwift/PartialMerkleTree.swift:76-78 | the height is the least h with n <= 2^h |
| `PartialMerkleTree.NodeWithHeight` | BitcoinSwift/PartialMerkleTree.swift:80-131 | the recursion with its three advancing parameters computes the parsing function, parsing the right child even when the left one failed |
| `PartialMerkleTree.FromParts` | BitcoinSwift/PartialMerkleTree.swift:34-72 | the initializer, with the padding loop, yields nil, a value or a stopped program as specified |
| `PrunedTrees.Counting` | BitcoinSwift/PartialMerkleTree.swift:86-129 | a tree of height h with k hashes has 2k-1 flags, and k <= 2^h |
| `PrunedTrees.ParsePrinted` | BitcoinSwift/PartialMerkleTree.swift:80-131 | on the preorder of any tree, whatever follows it, the recursion rebuilds that tree, appends its matched leaves left to right and advances both positions by its size |
| `PrunedTrees.ParsedIsPrinted` | BitcoinSwift/PartialMerkleTree.swift:80-131 | every successful run has consumed the preorder of some tree of that height |
| `PrunedTrees.PrintedUnique` | BitcoinSwift/PartialMerkleTree.swift:80-131 | the flags and hashes at a position are the preorder of at most one tree |
| `PrunedTrees.BitsInjective` | BitcoinSwift/PartialMerkleTree.swift:133-137 | flag bytes are determined by the bits read from them |
| `PrunedTrees.BitsOfPack` | BitcoinSwift/PartialMerkleTree.swift:23-27 | bits packed eight to a byte are read back in order, followed by zero bits only |
| `PrunedTrees.AcceptsExactlyEncodings` | BitcoinSwift/PartialMerkleTree.swift:34-72 | the initializer accepts exactly the encodings of trees of its height, each of one tree, yields that tree's root and matches, and stops the program exactly for zero leaves |
| `PrunedTrees.AcceptedLengths` | BitcoinSwift/PartialMerkleTree.swift:51-66 | acceptance forces the number of flag bytes, 1 to 7 zero padding bits, and makes the second half of the length test never decide |
| `MerkleProofs.NodeHashInjective` | BitcoinSwift/PartialMerkleTree.swift:124-127 | equal node hashes have equal children or exhibit a collision |
| `MerkleProofs.NodesHashToRoot` | BitcoinSwift/PartialMerkleTree.swift:124-127 | hashing nodes as the parser does gives the prescribed root: the double hash of left half before right half in wire order, held in the opposite order |
| `MerkleProofs.MatchesAreLeaves` | BitcoinSwift/PartialMerkleTree.swift:98-128 | a pruned tree with the prescribed root of a full tree reports the leaves at its matched positions, strictly in order, or the two strings found by walking down both trees collide |
| `MerkleProofs.AcceptedMatchesAreLeaves` | BitcoinSwift/PartialMerkleTree.swift:34-72 | if the accepted root is the prescribed root of 2^h leaves, the matching hashes are a subsequence of the leaves, or the two strings computed from the input and the leaves collide |
| `MerkleProofs.HonestProofIsAccepted` | BitcoinSwift/PartialMerkleTree.swift:34-72 | for any choice of leaves there is an accepted encoding with their prescribed root that reports exactly those |
| `FilteredBlock.TreeData` | BitcoinSwift/PartialMerkleTree.swift:142-154 | the printer's loops produce the specified bytes |
| `FilteredBlock.TreeFromStream` | BitcoinSwift/PartialMerkleTree.swift:156-191 | the parser's loops compute the parsing function and leave the stream where it says |
| `FilteredBlock.TreeRoundTrip` | BitcoinSwift/PartialMerkleTree.swift:142-191 | a tree comes back from the wire exactly when the initializer yields it |
| `FilteredBlock.FilteredBlockData` | BitcoinSwift/Models/FilteredBlock.swift:40-45 | header and tree one after the other |
| `FilteredBlock.FilteredBlockFromStream` | BitcoinSwift/Models/FilteredBlock.swift:47-64 | computes the parsing function, with the check of the Merkle root |
| `FilteredBlock.FilteredBlockRoundTrip` | BitcoinSwift/Models/FilteredBlock.swift:29-64 | a filtered block comes back exactly when its tree is accepted and its header commits to the tree's root |
| `FilteredBlock.AcceptedBlockReportsLeaves` | BitcoinSwift/Models/FilteredBlock.swift:29-64 | an accepted block whose header commits to the leaves of a perfect tree only reports leaves, in order, or the two strings computed from its tree and the leaves collide |
| `FilteredBlock.HonestBlockIsAccepted` | BitcoinSwift/Models/FilteredBlock.swift:47-64 | every choice of leaves can be reported by an accepted block |
| `MessageParser.MessageParser.ParseBytes` | BitcoinSwift/MessageParser.swift:39-99 | the loop over the two fields delivers the messages, and ends in the state, of a run of the step function on the old state and the new bytes |
| `MessageParser.MessageParser.TakeHeader` | BitcoinSwift/MessageParser.swift:42-76 | the header part of the loop is one step, waiting exactly when the step waits, and taking only the magic after a header that does not parse |
| `MessageParser.MessageParser.TakePayload` | BitcoinSwift/MessageParser.swift:77-97 | the payload part of the loop is one step |
| `MessageParser.MessageParser.HeaderStartIndexInBytes` | BitcoinSwift/MessageParser.swift:105-123 | the nested search loops find the start function's index |
| `MessageParser.StartFromFirst` | BitcoinSwift/MessageParser.swift:105-123 | that index is the first occurrence, and -1 means there is none |
| `Framing.RunAppend` | BitcoinSwift/MessageParser.swift:39-99 | from any state, feeding a then b gives the same frames and final state as feeding a + b |
| `Framing.ChunkInvariance` | BitcoinSwift/MessageParser.swift:36-99 | from any state between calls, the messages and final state do not depend on how the stream is cut into calls |
| `Framing.RunSettles` | BitcoinSwift/MessageParser.swift:36-38 | when a call returns, everything that could be done with the bytes has been done |
| `Framing.RunStops` | BitcoinSwift/MessageParser.swift:42-81 | on return: no header and at most 3 bytes, or the magic and fewer than 24 bytes, or a header and less than its payload |
| `Framing.RunConserves` | BitcoinSwift/MessageParser.swift:39-99 | discarded bytes, frames and pending bytes, in order, are the input: each frame re-encodes to its own segment |
| `Framing.RunSound` | BitcoinSwift/MessageParser.swift:85-95 | delivered messages are well formed for this network; dropped ones only fail the checksum, so the wrong-network branch is unreachable |
| `Framing.BadHeaderCostsMagic` | BitcoinSwift/MessageParser.swift:61-71 | a header that does not parse costs the four bytes of its magic and nothing else |
| `Framing.JunkIsSkipped` | BitcoinSwift/MessageParser.swift:42-76 | bytes at whose magics no header parses, read on into what follows, make no difference to what is found behind them |
| `Framing.Resynchronises` | BitcoinSwift/MessageParser.swift:42-97 | from the empty state exactly the messages are found, each delivered or dropped by its checksum, whatever surrounds them, even with magics in it, as long as no header parses at one |
| `Framing.ResynchronisationIff` | BitcoinSwift/MessageParser.swift:42-76 | every message survives every magic-free prefix exactly when the magic has no self-overlap |
| `Framing.KnownNetworks` | BitcoinSwift/Models/Message.swift:39-41 | the magics of the three networks have no self-overlap |
| `Framing.CleanStream` | BitcoinSwift/MessageParser.swift:39-99 | a stream of messages alone is delivered completely and leaves nothing behind, for any magic |
| `Message.CommandRoundTrip` | BitcoinSwift/Models/Message.swift:46-82 | twelve bytes name a command exactly when they are that command's padded encoding |
| `Message.HeaderData` | BitcoinSwift/Models/MessageHeader.swift:45-52 | the appends produce the 24 header bytes |
| `Message.HeaderFromStream` | BitcoinSwift/Models/MessageHeader.swift:54-85 | the reads compute the header parsing function |
| `Message.HeaderRoundTrip` | BitcoinSwift/Models/MessageHeader.swift:45-85 | a printed header parses back, leaving what follows |
| `Message.ParsedHeaderIsEncoded` | BitcoinSwift/Models/MessageHeader.swift:54-85 | a header that parses is the printed form of what it parses to |
| `Message.MessageData` | BitcoinSwift/Models/Message.swift:131-135 | header and payload one after the other |
| `SendPump.Conservation` | BitcoinSwift/PeerConnection.swift:163-169 | in every reachable state bytes written, pending bytes and queued encodings are the encodings of all messages ever enqueued |
| `SendPump.SendExactly` | BitcoinSwift/PeerConnection.swift:405-425 | a send with space moves exactly the bytes the socket took from the front of what it was offered, keeps the others, and schedules another send exactly when something is left |
| `SendPump.WrittenIsTaken` | BitcoinSwift/PeerConnection.swift:405-425 | over every run the bytes written are as many as the socket reported, from the front of the stream of all messages |
| `SendPump.SendGoesOn` | BitcoinSwift/PeerConnection.swift:405-425 | a send with space that leaves work behind schedules another one, makes progress if the socket takes anything, and one that leaves nothing has written everything |
| `PeerConnection.PeerConnection.SendMessageWithPayload` | BitcoinSwift/PeerConnection.swift:163-169 | builds the message and schedules the block that will enqueue it, or stops the program without a run loop |
| `PeerConnection.PeerConnection.RunEnqueueBlock` | BitcoinSwift/PeerConnection.swift:165-168 | the first waiting block is taken and its message goes through the pump's enqueue step |
| `PeerConnection.PeerConnection.NetworkThreadDidStart` | BitcoinSwift/PeerConnection.swift:133-150 | the thread executes and the version message given to connect is scheduled |
| `PeerConnection.PeerConnection.EnqueueAndSend` | BitcoinSwift/PeerConnection.swift:163-169 | the enqueuing block is the pump's enqueue step and leaves the handshake alone |
| `PeerConnection.PeerConnection.SendWithStream` | BitcoinSwift/PeerConnection.swift:405-425 | is the pump's send step |
| `PeerConnection.PeerConnection.ReceiveWithStream` | BitcoinSwift/PeerConnection.swift:438-451 | takes at most 1024 bytes, feeds them to the parser, hands each message to the handshake and schedules another read if bytes remain |
| `PeerConnection.PeerConnection.DidParseMessage` | BitcoinSwift/PeerConnection.swift:199-234 | is the handshake's step for that message, including the stop of its payload's parser, and schedules an ack message exactly when the version is accepted |
| `PeerConnection.PeerConnection.DidConnect` | BitcoinSwift/PeerConnection.swift:483-498 | is the connecting step, with its three preconditions |
| `PeerConnection.PeerConnection.DisconnectWithError` | BitcoinSwift/PeerConnection.swift:453-463 | is the disconnecting step; without a run loop it stops the program |
| `PeerConnection.PeerConnection.RunTeardownBlock` | BitcoinSwift/PeerConnection.swift:463-480 | is the teardown step |
| `PeerConnection.PeerConnection.ConnectionTimerDidTimeout` | BitcoinSwift/PeerConnection.swift:517-523 | is the timeout step |
| `PeerConnection.PeerConnection.ConnectWithVersionMessage` | BitcoinSwift/PeerConnection.swift:119-133 | is the connect step, with its preconditions, and keeps the version message for when the thread has started |
| `Handshake.HandshakeSafety` | BitcoinSwift/PeerConnection.swift:203-234 | over every run: connected implies a stored version, a received ack and one ack sent; didConnect's preconditions never fail; notifications are none, connect, connect then disconnect, or disconnect |
| `Handshake.StepKeepsInvariant` | BitcoinSwift/PeerConnection.swift:453-523 | every step keeps the handshake's invariant and only adds notifications |
| `Handshake.VersionAssertionExactly` | BitcoinSwift/PeerConnection.swift:205-209 | in reachable states the assertion fails exactly while disconnecting without a stored version |
| `Handshake.NoRunLoopExactly` | BitcoinSwift/Thread.swift:33-37 | in reachable states the program stops for want of a run loop exactly when a disconnect or timeout finds the thread starting, or a send finds it not executing |
| `Handshake.ConnectExactly` | BitcoinSwift/PeerConnection.swift:119-133 | in reachable states the preconditions fail exactly on a connection that is open, ending or used; otherwise it waits under a timer |
| `Handshake.DisconnectTakesEffect` | BitcoinSwift/PeerConnection.swift:453-480 | an open connection on an executing thread goes through Disconnecting to NotConnected, with everything reset and one disconnect told |
| `Handshake.DisconnectTwice` | BitcoinSwift/PeerConnection.swift:453-456 | a disconnect changes nothing exactly when the connection is not open |
| `Handshake.DisconnectIsFinal` | BitcoinSwift/PeerConnection.swift:453-480 | whatever follows a disconnect, the connection is never open again, and the delegate is told exactly once, when the teardown has run |
| `Handshake.TimeoutExactly` | BitcoinSwift/PeerConnection.swift:517-523 | in reachable states the timer disconnects exactly a connection that still waits, and changes nothing else |
| `Handshake.SecondVersionAfterBadOneStops` | BitcoinSwift/PeerConnection.swift:205-214 | a concrete run in which it fails |
| `Handshake.ConnectsExactly` | BitcoinSwift/PeerConnection.swift:199-364 | for messages in any order and number: stopped by a payload exactly when one meets the guard before anything else stops the program, by the assertion likewise, and frozen from then on; otherwise connected exactly when the first version parsed and an ack was among them |
| `EndToEnd.Delivery` | BitcoinSwift/PeerConnection.swift:405-451 | for any interleaving of enqueues, partial writes and bounded reads, delivered messages are a prefix of those enqueued, and all of them once drained |
| `EndToEnd.DeliveredExactly` | BitcoinSwift/PeerConnection.swift:405-451 | the first k messages enqueued have been delivered exactly when the bytes of their encodings have arrived |
| `EndToEnd.HandshakeOverWire` | BitcoinSwift/PeerConnection.swift:199-364 | a waiting connection fed with the peer's messages in any pieces: stopped by a payload exactly when the bytes of some message meet its parser's guard and none before it stopped the program; up to there, connected exactly when the first version parsed and an ack arrived |
| `Payloads.Parsers.TrapsExactly` | BitcoinSwift/PeerConnection.swift:264-361 | running the payload's parser stops the program exactly when the bytes meet the guard for that command |
| `Payloads.Parsers.Parse` | BitcoinSwift/PeerConnection.swift:201-361 | the payload is put in a stream of its own and given to the parser of its command |
| `VersionExchange.Agreement` | BitcoinSwift/PeerConnection.swift:116-234 | over every run of two ends, with timeouts and disconnects: a connected end has reported exactly its peer's version, and the peer has accepted this end's version and holds it unless it has given up |
| `VersionExchange.NeverStuck` | BitcoinSwift/PeerConnection.swift:199-234 | when both ends are alive and nothing is left to send or read, both are connected |
| `HandshakeCompletion.CanCompleteIff` | BitcoinSwift/PeerConnection.swift:199-364 | from a reachable state with both ends alive some further run connects both, exactly when each can parse the other's version and no unread payload before an ack stops its reader |
| `HandshakeCompletion.CanConnectIff` | BitcoinSwift/PeerConnection.swift:116-234 | some run connects both ends exactly when each can parse the other's version |
| `Base58.MapsListTheAlphabet` | BitcoinSwift/NSData+StringEncoding.swift:11-29 | both maps list the 58 characters in order |
| `Base58.FromBase58String` | BitcoinSwift/NSData+StringEncoding.swift:35-59 | the two decoding loops compute the change of base with leading zeros kept, or nil on a foreign character |
| `Base58.Base58String` | BitcoinSwift/NSData+StringEncoding.swift:65-86 | the division loop, the zero loop and the reversal compute the change of base the other way |
| `Base58.ConvertTwice` | BitcoinSwift/NSData+StringEncoding.swift:35-86 | changing the base and back is the identity for any two bases and any digits, leading zeros included |
| `Base58.EncodeIsTheNumber` | BitcoinSwift/NSData+StringEncoding.swift:65-86 | the string is the number of the bytes, most significant digit first, with one leading '1' per leading zero byte |
| `Base58.DecodeEncode` | BitcoinSwift/NSData+StringEncoding.swift:35-86 | decoding an encoding gives the bytes back, for all bytes |
| `Base58.EncodeDecode` | BitcoinSwift/NSData+StringEncoding.swift:35-86 | decoding fails exactly on a foreign character, and encoding a decoding gives the string back |
| `Address.StringValue` | BitcoinSwift/Models/Address.swift:33-39 | header, hash and checksum in base 58 |
| `Address.FromString` | BitcoinSwift/Models/Address.swift:60-92 | the checks of the initializer compute the parsing function; none of its forced unwrappings fails |
| `Address.EncodedLength` | BitcoinSwift/Models/Address.swift:60-65 | 25 bytes print in at most 35 characters, and in at least 26 exactly when their value is not too small for their leading zeros |
| `Address.AcceptsExactly` | BitcoinSwift/Models/Address.swift:33-92 | what is printed stands for header, hash and the first four bytes of their double hash, and a string is accepted exactly if its length is 26 to 35, it stands for such bytes and the header is supported |
| `Address.ParsePrint` | BitcoinSwift/Models/Address.swift:33-92 | parsing recovers the printed address exactly when the header is supported and header and hash are not all zero or the checksum is long enough |
| `Address.PrintParse` | BitcoinSwift/Models/Address.swift:60-92 | every accepted string is the one its address prints |
| `BitcoinEncoding.MutableData.AppendInteger` | BitcoinSwift/NSMutableData+BitcoinEncoding.swift:20-96 | the shift-and-mask loop appends the two's complement bytes in the chosen order |
| `BitcoinEncoding.MutableData.AppendVarInt` | BitcoinSwift/NSMutableData+BitcoinEncoding.swift:102-116 | marker and width by size of the value |
| `BitcoinEncoding.ReversedData` | BitcoinSwift/NSData+BitcoinDecoding.swift:23-34 | the in-place swap loop reverses |
| `BitcoinDecoding.InputStream.ReadUInt` | BitcoinSwift/NSInputStream+BitcoinDecoding.swift:25-77 | reads exactly the width, or nil |
| `BitcoinDecoding.InputStream.Assemble` | BitcoinSwift/NSInputStream+BitcoinDecoding.swift:31-39 | or-ing in shifted bytes computes the positional value in either byte order |
| `BitcoinDecoding.InputStream.ReadInt` | BitcoinSwift/NSInputStream+BitcoinDecoding.swift:79-131 | the two's complement value |
| `BitcoinDecoding.InputStream.ReadASCIIStringWithLength` | BitcoinSwift/NSInputStream+BitcoinDecoding.swift:143-157 | the bytes without trailing zeros |
| `BitcoinDecoding.InputStream.ReadData` | BitcoinSwift/NSInputStream+BitcoinDecoding.swift:162-187 | the two chunk loops: all the rest for 0, the requested bytes, short data or nil |
| `BitcoinDecoding.InputStream.ReadVarInt` | BitcoinSwift/NSInputStream+BitcoinDecoding.swift:189-209 | by marker, or nil |
| `BitcoinDecoding.UIntRoundTrip` | BitcoinSwift/NSInputStream+BitcoinDecoding.swift:25-77 | for every width and byte order an unsigned value is read back, consuming exactly its bytes |
| `BitcoinDecoding.IntRoundTrip` | BitcoinSwift/NSInputStream+BitcoinDecoding.swift:79-131 | the same for signed values |
| `BitcoinDecoding.VarIntRoundTrip` | BitcoinSwift/NSInputStream+BitcoinDecoding.swift:189-209 | a variable-length integer is read back, consuming exactly its bytes |
| `BitcoinDecoding.VarIntShortest` | BitcoinSwift/NSMutableData+BitcoinEncoding.swift:102-116 | nothing shorter than what is written reads as the value |
| `BitcoinDecoding.VarIntByteOrder` | BitcoinSwift/NSMutableData+BitcoinEncoding.swift:102-116 | written in big-endian order, the value is read back exactly when its bytes are a palindrome |
| `SHA256Hash.FromBitcoinStream` | BitcoinSwift/Models/SHA256Hash.swift:41-49 | reads 32 bytes and reverses them, or nil, or stops the program |
| `SHA256Hash.HashRoundTrip` | BitcoinSwift/Models/SHA256Hash.swift:36-49 | a printed hash is read back |
| `SHA256Hash.ParseHashCases` | BitcoinSwift/Models/SHA256Hash.swift:41-49 | stops the program exactly on an exhausted stream, is nil exactly on 1 to 31 bytes, and otherwise takes the 32 bytes that would be printed |
| `Transaction.InputData` | BitcoinSwift/Models/TransactionInput.swift:47-54 | the appends produce the specified bytes |
| `Transaction.InputFromStream` | BitcoinSwift/Models/TransactionInput.swift:56-80 | the reads compute the parsing function |
| `Transaction.OutputData` | BitcoinSwift/Models/TransactionOutput.swift:39-45 | the appends produce the specified bytes |
| `Transaction.OutputFromStream` | BitcoinSwift/Models/TransactionOutput.swift:47-65 | the reads compute the parsing function |
| `Transaction.OutPointData` | BitcoinSwift/Models/TransactionOutPoint.swift:36-41 | the appends produce the specified bytes |
| `Transaction.OutPointFromStream` | BitcoinSwift/Models/TransactionOutPoint.swift:43-55 | the reads compute the parsing function |
| `Transaction.TransactionData` | BitcoinSwift/Models/Transaction.swift:59-72 | the printing loops produce the specified bytes |
| `Transaction.TransactionFromStream` | BitcoinSwift/Models/Transaction.swift:74-127 | the reading loops compute the parsing function |
| `WireLayout.PrintedByte` | BitcoinSwift/NSMutableData+BitcoinEncoding.swift:20-96 | byte k of a printed integer by its weight, in either order, also for negative values |
| `WireLayout.VarIntLayout` | BitcoinSwift/NSInputStream+BitcoinDecoding.swift:189-209 | the value and width of a variable-length integer by its first byte |
| `WireLayout.HashLayout` | BitcoinSwift/Models/SHA256Hash.swift:36-49 | a hash is held in the opposite order of its wire bytes |
| `WireLayout.OutPointLayout` | BitcoinSwift/Models/TransactionOutPoint.swift:43-55 | hash at 0, index at 32 |
| `WireLayout.InputLayout` | BitcoinSwift/Models/TransactionInput.swift:56-80 | an input is read exactly if its script is nonempty and complete with four bytes behind it; every field by its offset |
| `WireLayout.OutputLayout` | BitcoinSwift/Models/TransactionOutput.swift:47-65 | an output is read exactly if its script is complete or the rest is a whole number of chunks; every field by its offset |
| `WireLayout.TransactionLayout` | BitcoinSwift/Models/Transaction.swift:74-127 | version first, two nonempty lists, lock time last, exactly |
| `WireLayout.BlockHeaderLayout` | BitcoinSwift/Models/BlockHeader.swift:102-139 | the six fields at offsets 0, 4, 36, 68, 72 and 76 |
| `WireLayout.EntryLayout` | BitcoinSwift/Models/HeadersMessage.swift:51-70 | an entry of a headers message is read exactly if it is 80 bytes followed by a zero count |
| `WireLayout.HeaderHashLayout` | BitcoinSwift/Models/BlockHeader.swift:64-70 | the hash a request names is the double hash of the 80 bytes of a header in the opposite order |
| `WireLayout.MessageLayout` | BitcoinSwift/Models/Message.swift:93-135 | magic, padded command name, length, first four bytes of the payload's double hash, and payload, by offset |
| `WireLayout.TreeLayout` | BitcoinSwift/PartialMerkleTree.swift:156-191 | the number of leaves and the two lists the initializer is given, by offset, exactly |
| `TransactionCodec.LockTimeRoundTrip` | BitcoinSwift/Models/TransactionLockTime.swift:40-60 | a lock time comes back from its raw value exactly when it is canonical; every raw value comes back |
| `TransactionCodec.CanonicalRoundTrip` | BitcoinSwift/Models/Transaction.swift:59-127 | a canonical transaction followed by anything parses back and leaves exactly what followed |
| `TransactionCodec.ParsedIsCanonical` | BitcoinSwift/Models/Transaction.swift:74-127 | whatever bytes are parsed, the transaction that results is canonical |
| `TransactionCodec.TransactionRoundTrip` | BitcoinSwift/Models/Transaction.swift:59-127 | printing and parsing gives the transaction back precisely for the canonical ones |
| `TransactionCodec.ReparseIsStable` | BitcoinSwift/Models/Transaction.swift:59-127 | printing a parsed transaction and parsing again changes nothing |
| `TransactionCodec.PrefixFree` | BitcoinSwift/Models/Transaction.swift:59-72 | encodings of canonical transactions are injective and prefix-free |
| `StoppingParsers.InputTraps` | BitcoinSwift/Models/TransactionInput.swift:56-80 | an input stops the program exactly on an exhausted stream or a script length above the signed range |
| `StoppingParsers.OutputTraps` | BitcoinSwift/Models/TransactionOutput.swift:47-65 | an output stops the program exactly on a script length above the signed range |
| `StoppingParsers.RepeatTraps` | BitcoinSwift/Models/Transaction.swift:86-109 | a reading loop stops the program exactly when all elements before some element parse and that element's bytes meet the guard |
| `StoppingParsers.TransactionTraps` | BitcoinSwift/Models/Transaction.swift:74-127 | a transaction stops the program exactly at an input that is reached and stops, or, with at least one input read, at such an output |
| `StoppingParsers.TruncatedTransaction` | BitcoinSwift/Models/Transaction.swift:74-127 | every proper prefix of a canonical transaction is rejected: with a stopped program exactly if it ends right before an input, with nil otherwise |
| `StoppingParsers.BlockHeaderTraps` | BitcoinSwift/Models/BlockHeader.swift:102-139 | a header stops the program exactly when 4 or 36 bytes are left, and is read exactly when there are 80 |
| `StoppingParsers.BlockTraps` | BitcoinSwift/Models/Block.swift:52-73 | a block stops the program exactly in its header or at a transaction that is reached and stops |
| `StoppingParsers.HeadersTrap` | BitcoinSwift/Models/HeadersMessage.swift:41-72 | a headers message does so exactly at a header that is reached with 4 or 36 bytes left |
| `StoppingParsers.TreeTraps` | BitcoinSwift/PartialMerkleTree.swift:156-191 | a tree does so exactly when the stream ends right before a hash, or everything is read and the number of leaves is zero |
| `StoppingParsers.FilteredBlockTraps` | BitcoinSwift/Models/FilteredBlock.swift:47-64 | a filtered block does so exactly in its header or in its tree |
| `Block.BlockHeaderData` | BitcoinSwift/Models/BlockHeader.swift:91-100 | the appends produce the 80 header bytes |
| `Block.BlockHeaderFromStream` | BitcoinSwift/Models/BlockHeader.swift:102-139 | the reads compute the parsing function |
| `Block.BlockHeaderRoundTrip` | BitcoinSwift/Models/BlockHeader.swift:91-139 | every header comes back, leaving exactly what followed |
| `Block.BlockData` | BitcoinSwift/Models/Block.swift:41-50 | the printing loop produces the specified bytes |
| `Block.BlockFromStream` | BitcoinSwift/Models/Block.swift:52-73 | the reading loop computes the parsing function |
| `Block.BlockRoundTrip` | BitcoinSwift/Models/Block.swift:41-73 | a block, possibly without transactions, comes back precisely when all its transactions are canonical |
| `ExtendedECKey.ChildKeyWithIndex` | BitcoinSwift/ExtendedECKey.swift:52-85 | the buffer code computes the child function; its two assertions never fail |
| `ExtendedECKey.ChildKeyWithHardenedIndex` | BitcoinSwift/ExtendedECKey.swift:87-89 | the child at the offset index; the addition overflows exactly for hardened indices |
| `ExtendedECKey.ChildFacts` | BitcoinSwift/ExtendedECKey.swift:62-84 | there is no child exactly when the tweak is out of range or the sum is zero; otherwise it is a valid key equal to tweak plus parent modulo the order |
| `ExtendedECKey.ChildOfHmac` | BitcoinSwift/ExtendedECKey.swift:52-85 | the child in terms of the HMAC alone: what is authenticated under the parent's chain code, left half added to the key, right half as chain code |
| `ExtendedECKey.MasterOfHmac` | BitcoinSwift/ExtendedECKey.swift:39-50 | the master key and chain code are the halves of the HMAC of the seed, unless the left one is no valid key |
| `ExtendedECKey.PathIsChained` | BitcoinSwift/ExtendedECKey.swift:52-85 | along any successful path every key, with its chain code, is the prescribed child of the one before |
| `ExtendedECKey.PathDerivation` | BitcoinSwift/ExtendedECKey.swift:52-85 | along any successful path the key is the start plus the sum of the tweaks modulo the order, in [1, n-1], in exactly 32 bytes |
| `ExtendedECKey.PathFromSeed` | BitcoinSwift/ExtendedECKey.swift:39-85 | the same from a master key made from a seed, which and each key on the way come from the HMAC as prescribed |
| `ExtendedECKey.ChildDataDistinct` | BitcoinSwift/ExtendedECKey.swift:53-61 | HMAC inputs have 37 bytes, tell indices apart, and hardened ones determine the private key and never equal unhardened ones |
| `ExtendedECKey.HardenedIndexRoundTrip` | BitcoinSwift/ExtendedECKey.swift:87-101 | the hardened index of a hardened child is the index asked for, and an unhardened child has none |
| `PeerController.PeerController.DidConnectWithPeerVersion` | BitcoinSwift/PeerController.swift:87-95 | stores the version and asks from the genesis block |
| `PeerController.PeerController.DidReceiveHeaders` | BitcoinSwift/PeerController.swift:110-129 | counts the batch, asks for more after a full one, reports completion otherwise |
| `PeerController.HeadersFromStream` | BitcoinSwift/Models/HeadersMessage.swift:41-72 | the reading loop computes the parsing function |
| `PeerController.HeadersRoundTrip` | BitcoinSwift/Models/HeadersMessage.swift:41-72 | a peer's answer is understood unless it is empty |
| `PeerController.FullBatches` | BitcoinSwift/PeerController.swift:110-122 | after k full batches the headers received are the first 2000k of the chain, without gap or repeat, and the next request names the last of them |
| `PeerController.SyncCompletes` | BitcoinSwift/PeerController.swift:110-129 | at every moment the count is the number of headers received, a prefix of the chain; completion is reported, once and with all N headers counted, exactly when 2000 does not divide N (and height 0 was not announced with a full batch), after floor(N/2000)+1 exchanges |

## Left out

- SHA-256, RIPEMD-160, HMAC-SHA512 and elliptic-curve operations: calls into OpenSSL, parameters here.
- AcceptedMatchesAreLeaves: speaks of perfect trees only and says nothing about a number of leaves that is not a power of two, because the parser has no rule for a missing right child.
- `ExtendedECKey.masterKey`: a retry loop around a random source.
- `BlockHeader.difficulty` and `work`: they rest on the compact form of big integers, whose code is not part of this model.
- `HeadersMessage.bitcoinData` and a round trip with its own parser: the printer omits the transaction counts the parser requires.
- The failed-socket path of `streamsToPeerWithHostname`, run loops, threads and timers: only the atomic steps they cause, and a thread can be started once. The start of the thread and the block that opens the streams and sends the version are one step.
- The order in which a concurrent delegate queue runs two notifications: they are recorded in the order in which they are queued.
- The parser of version messages: whether it yields a version, nil or a stopped program is an argument, and `isPeerVersionSupported` always says yes.
- The other messages (ping, pong, filters, inventory, locators, peer addresses, alerts, rejects): repeats of the same codec; on which payloads their parsers stop the program is an argument.
- Block chain stores, keychain, logging, DNS discovery.
- Users who send version messages or acks themselves: the two-ended handshake assumes that they leave them to the connection.
