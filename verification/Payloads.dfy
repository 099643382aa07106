/**
 What parsing the payload of a received message can do to the program. The parsers of transactions,
 blocks, headers and filtered blocks are those of this model; the others are parameters.
 */
module Payloads {
  import opened Binary
  import opened BitcoinDecoding
  import opened Message
  import Transactions = Transaction
  import Blocks = Block
  import FilteredBlocks = FilteredBlock
  import Headers = PeerController
  import StoppingParsers

  /** `otherTraps` says on which payloads the remaining parsers stop the program. */
  datatype Parsers = Parsers(
    sha: Hash,
    parseVersion: Bytes -> Outcome<Bytes>,
    otherTraps: (Command, Bytes) -> bool)
  {
    /** Whether the payload of a message that is neither a version nor an ack stops its parser. */
    predicate Traps(command: Command, payload: Bytes) {
      match command
      case Transaction => Transactions.ParseTransaction(payload).Trap?
      case Block => Blocks.ParseBlock(payload).Trap?
      case Headers => Headers.ParseHeaders(payload).Trap?
      case FilteredBlock => FilteredBlocks.ParseFilteredBlock(sha, payload).Trap?
      case _ => otherTraps(command, payload)
    }

    /** The guard of that on the bytes. */
    ghost predicate Stops(command: Command, payload: Bytes) {
      match command
      case Transaction => StoppingParsers.TransactionStops(payload)
      case Block => StoppingParsers.BlockStops(payload)
      case Headers => StoppingParsers.HeadersStop(payload)
      case FilteredBlock => StoppingParsers.FilteredBlockStops(payload)
      case _ => otherTraps(command, payload)
    }

    lemma TrapsExactly(command: Command, payload: Bytes)
      ensures Traps(command, payload) <==> Stops(command, payload)
    {
      hide Transactions.ParseTransaction, Blocks.ParseBlock, Headers.ParseHeaders, FilteredBlocks.ParseFilteredBlock;
      hide StoppingParsers.TransactionStops, StoppingParsers.BlockStops, StoppingParsers.HeadersStop;
      hide StoppingParsers.FilteredBlockStops;
      StoppingParsers.TransactionTraps(payload);
      StoppingParsers.BlockTraps(payload);
      StoppingParsers.HeadersTrap(payload);
      StoppingParsers.FilteredBlockTraps(sha, payload);
    }

    /** The payload is read from a stream of its own. */
    method Parse(command: Command, payload: Bytes) returns (trapped: bool)
      ensures trapped <==> Traps(command, payload)
    {
      hide Transactions.ParseTransaction, Blocks.ParseBlock, Headers.ParseHeaders, FilteredBlocks.ParseFilteredBlock;
      var payloadStream := new InputStream(payload);
      match command {
        case Transaction =>
          var transaction := Transactions.TransactionFromStream(payloadStream);
          trapped := transaction.Trapped?;
        case Block =>
          var block := Blocks.BlockFromStream(payloadStream);
          trapped := block.Trapped?;
        case Headers =>
          var headers := Headers.HeadersFromStream(payloadStream);
          trapped := headers.Trapped?;
        case FilteredBlock =>
          var filteredBlock := FilteredBlocks.FilteredBlockFromStream(sha, payloadStream);
          trapped := filteredBlock.Trapped?;
        case _ =>
          trapped := otherTraps(command, payload);
      }
    }
  }
}
