/**
 * The feed engine of components/LiveFeed.tsx as an object whose fields the polling
 * transitions update in place. Each method is proved to perform the corresponding pure
 * transition of module Poller, whose properties are proved there.
 */
module LiveFeed {
  import opened Wrappers
  import opened Blockchain
  import opened FeedBuffer
  import opened Poller

  /** The candidate loop of a gap-fill tick: unprocessed numbers above `last`, up to `latest`, at most five. */
  method CollectGapBlocks(processed: set<nat>, last: nat, latest: nat) returns (blocksToFetch: seq<nat>)
    ensures blocksToFetch == GapCandidates(processed, last, latest)
  {
    blocksToFetch := [];
    var i := last + 1;
    while i <= latest && |blocksToFetch| < MaxGapBlocks
      invariant last + 1 <= i
      invariant |blocksToFetch| <= MaxGapBlocks
      invariant blocksToFetch + CandidatesFrom(processed, i, latest, MaxGapBlocks - |blocksToFetch|)
                == GapCandidates(processed, last, latest)
      decreases latest + 1 - i
    {
      if i !in processed {
        ghost var rest := CandidatesFrom(processed, i + 1, latest, MaxGapBlocks - |blocksToFetch| - 1);
        assert blocksToFetch + ([i] + rest) == (blocksToFetch + [i]) + rest;
        blocksToFetch := blocksToFetch + [i];
      }
      i := i + 1;
    }
  }

  class LiveFeedEngine {
    var transactions: seq<ClassifiedTransaction>
    var currentBlock: Option<nat>
    var loading: bool
    var error: Option<string>
    var reconnecting: bool
    var blocksProcessed: nat
    var processed: set<nat>
    var freshHashes: set<string>
    var lastProcessed: Option<nat>
    var backoff: nat
    var mounted: bool

    /** The value of the engine's state. */
    function State(): FeedState
      reads this
    {
      FeedState(transactions, currentBlock, loading, error, reconnecting, blocksProcessed,
                processed, freshHashes, lastProcessed, backoff, mounted)
    }

    ghost predicate Valid()
      reads this
    {
      Inv(State())
    }

    /** The state the component starts in. */
    constructor ()
      ensures State() == Initial() && Valid()
    {
      transactions := [];
      currentBlock := None;
      loading := true;
      error := None;
      reconnecting := false;
      blocksProcessed := 0;
      processed := {};
      freshHashes := {};
      lastProcessed := None;
      backoff := PollInterval;
      mounted := true;
    }

    /** Records block `b` under number `n`, a number not processed before. */
    method ApplyBlockInPlace(n: nat, b: Block)
      requires Valid() && n !in processed
      modifies this
      ensures State() == ApplyBlock(old(State()), n, b) && Valid()
    {
      ApplyFreshKeepsInv(State(), n, b);
      var newTxs := ExtractAll(b.transactions, b.timestamp);
      MarkFresh(newTxs);
      processed := processed + {n};
      currentBlock := Some(n);
      blocksProcessed := blocksProcessed + 1;
      transactions := Prepend(newTxs, transactions);
      lastProcessed := Some(n);
    }

    /** Highlights the hashes of `newTxs`, one record at a time. */
    method MarkFresh(newTxs: seq<ClassifiedTransaction>)
      requires Valid()
      modifies this
      ensures State() == old(State()).(freshHashes := old(freshHashes) + HashesOf(newTxs)) && Valid()
    {
      var marked := freshHashes;
      for k := 0 to |newTxs|
        invariant marked == freshHashes + set j | 0 <= j < k :: newTxs[j].hash
      {
        marked := marked + {newTxs[k].hash};
      }
      assert marked == freshHashes + HashesOf(newTxs);
      freshHashes := marked;
    }

    /** `fetchLatestBlock` with the chain tip `tip` already fetched. */
    method FetchLatestBlock(tip: Reply, unmountAt: Option<nat>)
      requires Valid()
      modifies this
      ensures State() == Bootstrap(old(State()), tip, unmountAt).feed && Valid()
    {
      BootstrapKeepsInv(State(), tip, unmountAt);
      mounted := mounted && unmountAt != Some(0);
      match tip
      case Failed =>
        error := Some(FetchErrorMessage);
        reconnecting := true;
        backoff := NextBackoff(backoff);
      case Delivered(block) =>
        if block.number.None? {
          return;
        }
        var blockNumber := block.number.value;
        if blockNumber in processed {
          return;
        }
        AcceptTip(blockNumber, block);
    }

    /** The bootstrap path's success: record the tip and clear the failure and loading flags. */
    method AcceptTip(n: nat, b: Block)
      requires Valid() && n !in processed
      modifies this
      ensures State() == Recovered(ApplyBlock(old(State()), n, b)).(loading := false) && Valid()
    {
      ApplyBlockInPlace(n, b);
      MarkRecovered();
      loading := false;
    }

    /** A completed successful path: back to the base delay, no error, not reconnecting. */
    method MarkRecovered()
      requires Valid()
      modifies this
      ensures State() == Recovered(old(State())) && Valid()
    {
      backoff := PollInterval;
      error := None;
      reconnecting := false;
    }

    /**
     * `fetchMissedBlocks` with the chain tip `tip` already fetched and `replies(n)` the
     * reply to the fetch of block `n`.
     */
    method FetchMissedBlocks(tip: Reply, replies: nat -> Reply, unmountAt: Option<nat>)
      requires Valid()
      modifies this
      ensures State() == GapFill(old(State()), tip, replies, unmountAt).feed && Valid()
    {
      GapFillKeepsInv(State(), tip, replies, unmountAt);
      if !Truthy(lastProcessed) {
        return;
      }
      mounted := mounted && unmountAt != Some(0);
      match tip
      case Failed =>
        reconnecting := true;
        backoff := NextBackoff(backoff);
      case Delivered(latestBlock) =>
        if latestBlock.number.None? || latestBlock.number.value <= lastProcessed.value {
          return;
        }
        var blocksToFetch := CollectGapBlocks(processed, lastProcessed.value, latestBlock.number.value);
        var end := WalkInPlace(blocksToFetch, replies, unmountAt);
        if end == Finished {
          MarkRecovered();
        }
    }

    /**
     * The walk of a gap-fill tick over `blocksToFetch`; `end` says whether it ran to the
     * end, stopped on an unmount, or ended on a failed fetch (then the failure handler ran).
     */
    method WalkInPlace(blocksToFetch: seq<nat>, replies: nat -> Reply, unmountAt: Option<nat>) returns (end: WalkEnd)
      requires Valid()
      modifies this
      ensures var w := Walk(old(State()), blocksToFetch, 0, replies, unmountAt);
        State() == w.feed && end == w.end
      ensures Valid()
    {
      ghost var walked := Walk(State(), blocksToFetch, 0, replies, unmountAt);
      var i := 0;
      while i < |blocksToFetch|
        invariant i <= |blocksToFetch| && Valid()
        invariant Walk(State(), blocksToFetch, i, replies, unmountAt).feed == walked.feed
        invariant Walk(State(), blocksToFetch, i, replies, unmountAt).end == walked.end
      {
        if !mounted {
          return Unmounted;
        }
        var stop := WalkStep(blocksToFetch, i, replies, unmountAt);
        if stop.Some? {
          return stop.value;
        }
        i := i + 1;
      }
      return Finished;
    }

    /**
     * One iteration of the walk, at candidate `i` while mounted: the unmount may land during
     * the fetch; a failed fetch runs the failure handler and stops the walk (`Some`), a block
     * with a null or already processed number is skipped, any other is applied.
     */
    method WalkStep(blocksToFetch: seq<nat>, i: nat, replies: nat -> Reply, unmountAt: Option<nat>)
      returns (stop: Option<WalkEnd>)
      requires i < |blocksToFetch| && Valid() && mounted
      modifies this
      ensures Valid()
      ensures stop.Some? ==>
        var w := Walk(old(State()), blocksToFetch, i, replies, unmountAt);
        stop == Some(FetchFailed) && w.end == FetchFailed && State() == w.feed
      ensures stop.None? ==>
        var w := Walk(old(State()), blocksToFetch, i, replies, unmountAt);
        && Walk(State(), blocksToFetch, i + 1, replies, unmountAt).feed == w.feed
        && Walk(State(), blocksToFetch, i + 1, replies, unmountAt).end == w.end
    {
      ghost var before := State();
      mounted := mounted && unmountAt != Some(i + 1);
      ghost var suspended := State();
      assert suspended == UnmountIf(before, unmountAt, i + 1);
      match replies(blocksToFetch[i])
      case Failed =>
        reconnecting := true;
        backoff := NextBackoff(backoff);
        return Some(FetchFailed);
      case Delivered(block) =>
        if block.number.Some? && block.number.value !in processed {
          ApplyBlockInPlace(block.number.value, block);
          assert Walk(before, blocksToFetch, i, replies, unmountAt).feed
            == Walk(ApplyBlock(suspended, block.number.value, block), blocksToFetch, i + 1, replies, unmountAt).feed;
        } else {
          assert Walk(before, blocksToFetch, i, replies, unmountAt)
            == Walk(suspended, blocksToFetch, i + 1, replies, unmountAt);
        }
        return None;
    }

    /**
     * One `poll` tick: nothing once unmounted; otherwise gap-fill when the pointer is truthy,
     * bootstrap when not. Returns the delay before the next tick, or None when nothing is
     * rescheduled.
     */
    method Poll(tip: Reply, replies: nat -> Reply, unmountAt: Option<nat>) returns (next: Option<nat>)
      requires Valid()
      modifies this
      ensures State() == Tick(old(State()), tip, replies, unmountAt).outcome.feed && Valid()
      ensures next == Tick(old(State()), tip, replies, unmountAt).next
    {
      if !mounted {
        return None;
      }
      if Truthy(lastProcessed) {
        FetchMissedBlocks(tip, replies, unmountAt);
      } else {
        FetchLatestBlock(tip, unmountAt);
      }
      next := if mounted then Some(backoff) else None;
    }

    /** The effect's cleanup: from now on nothing is rescheduled. */
    method Unmount()
      requires Valid()
      modifies this
      ensures State() == old(State()).(mounted := false) && Valid()
    {
      mounted := false;
    }

    /** The timer that clears one hash's highlight has fired. */
    method ExpireFreshHash(hash: string)
      requires Valid()
      modifies this
      ensures State() == old(State()).(freshHashes := old(freshHashes) - {hash}) && Valid()
    {
      freshHashes := freshHashes - {hash};
    }

    /** Whether the row of the transaction with this hash is highlighted as new. */
    predicate IsFresh(hash: string)
      reads this
    {
      hash in freshHashes
    }

    /** `uniqueBlocks.size`: how many distinct blocks the feed's records come from. */
    function UniqueBlocks(): (r: nat)
      reads this
      ensures r <= |transactions|
      ensures transactions != [] ==> r >= 1
    {
      BlockCountBounded(transactions);
      |BlockNumbers(transactions)|
    }
  }
}
