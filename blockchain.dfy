/**
 * The records the chain source delivers and the feed's own transaction record
 * (lib/blockchain.ts). The RPC client itself is not part of this model: its replies
 * are inputs (see module Poller).
 */
module Blockchain {
  import opened Wrappers
  import Classifier

  /** A transaction as the chain source reports it. */
  datatype RawTransaction = RawTransaction(
    hash: string,
    from: string,
    to: Option<string>,        // None for a contract creation
    value: nat,                // in wei
    input: string,             // hex-encoded call data, "0x" when empty
    blockNumber: Option<nat>)  // None while pending

  /** A block as the chain source reports it; `number` is None for a block not yet final. */
  datatype Block = Block(number: Option<nat>, timestamp: nat, transactions: seq<RawTransaction>)

  /** The transaction record the feed keeps. */
  datatype ClassifiedTransaction = ClassifiedTransaction(
    hash: string,
    from: string,
    to: Option<string>,
    value: nat,
    input: string,
    blockNumber: nat,
    timestamp: nat)            // milliseconds since the epoch

  /** Builds the feed record of `tx` from a block whose timestamp is `blockTimestamp` seconds. */
  function ExtractTransactionData(tx: RawTransaction, blockTimestamp: nat): (r: ClassifiedTransaction)
    ensures r.hash == tx.hash && r.from == tx.from && r.to == tx.to
    ensures r.value == tx.value && r.input == tx.input
    ensures tx.blockNumber.Some? ==> r.blockNumber == tx.blockNumber.value
    ensures tx.blockNumber.None? ==> r.blockNumber == 0
    ensures r.timestamp / 1000 == blockTimestamp && r.timestamp % 1000 == 0
  {
    ClassifiedTransaction(
      tx.hash, tx.from, tx.to, tx.value, tx.input,
      tx.blockNumber.GetOr(0),
      blockTimestamp * 1000)
  }

  /** The records of a block's transactions, in the block's order (`block.transactions.map(...)`). */
  function ExtractAll(txs: seq<RawTransaction>, blockTimestamp: nat): (r: seq<ClassifiedTransaction>)
    ensures |r| == |txs|
    ensures forall i :: 0 <= i < |txs| ==> r[i] == ExtractTransactionData(txs[i], blockTimestamp)
  {
    seq(|txs|, i requires 0 <= i < |txs| => ExtractTransactionData(txs[i], blockTimestamp))
  }

  /** Classifying the extracted record gives the same category as classifying the raw transaction. */
  lemma ExtractPreservesClassification(tx: RawTransaction, blockTimestamp: nat)
    ensures var r := ExtractTransactionData(tx, blockTimestamp);
      Classifier.ClassifyTransaction(r.to, r.input) == Classifier.ClassifyTransaction(tx.to, tx.input)
  {
  }
}
