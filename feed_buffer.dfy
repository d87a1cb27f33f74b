/** The bounded, newest-first transaction feed of components/LiveFeed.tsx. */
module FeedBuffer {
  import opened Blockchain

  /** The feed never holds more than this many transactions. */
  const MaxTransactions: nat := 50

  function Min(a: nat, b: nat): nat { if a < b then a else b }

  /**
   * The feed after a block's records arrive: the new records, in their order, ahead of
   * the old feed, cut to the first MaxTransactions entries (the oldest are dropped).
   */
  function Prepend(newTxs: seq<ClassifiedTransaction>, prev: seq<ClassifiedTransaction>): (r: seq<ClassifiedTransaction>)
    ensures |r| == Min(|newTxs| + |prev|, MaxTransactions)
    ensures forall i :: 0 <= i < |r| && i < |newTxs| ==> r[i] == newTxs[i]
    ensures forall i :: |newTxs| <= i < |r| ==> r[i] == prev[i - |newTxs|]
  {
    var combined := newTxs + prev;
    combined[..Min(|combined|, MaxTransactions)]
  }

  /** Whatever was in the feed and survives, survives in its old relative order, right after the new records. */
  lemma PrependKeepsOrder(newTxs: seq<ClassifiedTransaction>, prev: seq<ClassifiedTransaction>)
    ensures var r := Prepend(newTxs, prev);
      |newTxs| <= |r| ==> r[|newTxs|..] == prev[..|r| - |newTxs|]
    ensures |newTxs| >= MaxTransactions ==> Prepend(newTxs, prev) == newTxs[..MaxTransactions]
  {
  }

  /** The distinct block numbers of the records in the feed (`uniqueBlocks`). */
  function BlockNumbers(txs: seq<ClassifiedTransaction>): (r: set<nat>)
    ensures forall i :: 0 <= i < |txs| ==> txs[i].blockNumber in r
    ensures forall n :: n in r ==> exists i :: 0 <= i < |txs| && txs[i].blockNumber == n
  {
    if txs == [] then {} else {txs[0].blockNumber} + BlockNumbers(txs[1..])
  }

  /** The feed spans at most as many blocks as it has records, and at least one when not empty. */
  lemma {:induction false} BlockCountBounded(txs: seq<ClassifiedTransaction>)
    ensures |BlockNumbers(txs)| <= |txs|
    ensures txs != [] ==> |BlockNumbers(txs)| >= 1
  {
    if txs != [] {
      BlockCountBounded(txs[1..]);
      assert txs[0].blockNumber in BlockNumbers(txs);
    }
  }
}
