/**
 * The reconciling poller of components/LiveFeed.tsx, as pure transitions over the value
 * of its state. The chain source is an oracle: each fetch is an input `Reply`.
 * Class LiveFeed.LiveFeedEngine performs these transitions in place.
 */
module Poller {
  import opened Wrappers
  import opened Blockchain
  import opened FeedBuffer

  /** The base polling delay and the initial backoff, in milliseconds. */
  const PollInterval: nat := 2000
  /** The backoff delay never grows beyond this, in milliseconds. */
  const MaxBackoffDelay: nat := 10000
  /** At most this many missed blocks are fetched per tick. */
  const MaxGapBlocks: nat := 5
  /** The message shown after a failed bootstrap fetch. */
  const FetchErrorMessage: string := "Failed to fetch blockchain data"

  /** What one fetch from the chain source produced. */
  datatype Reply = Delivered(block: Block) | Failed

  /** Everything the feed engine keeps between ticks. */
  datatype FeedState = FeedState(
    transactions: seq<ClassifiedTransaction>,  // the feed, newest first
    currentBlock: Option<nat>,                 // the block number shown in the header
    loading: bool,
    error: Option<string>,
    reconnecting: bool,
    blocksProcessed: nat,
    processed: set<nat>,                       // numbers of the blocks already applied
    freshHashes: set<string>,                  // hashes highlighted as newly arrived
    lastProcessed: Option<nat>,                // the last-processed pointer
    backoff: nat,                              // the delay before the next tick
    mounted: bool)

  /** The state when the component mounts. */
  function Initial(): (s: FeedState)
    ensures Inv(s) && s.mounted && s.backoff == PollInterval
    ensures s.transactions == [] && s.processed == {} && s.lastProcessed.None?
  {
    FeedState([], None, true, None, false, 0, {}, {}, None, PollInterval, true)
  }

  /**
   * Whether the pointer counts as set. A bigint 0n is falsy, so a pointer at block 0
   * counts as "no last block".
   */
  predicate Truthy(p: Option<nat>) {
    p.Some? && p.value != 0
  }

  /** The backoff after a failure: doubled, capped at MaxBackoffDelay. */
  function NextBackoff(d: nat): nat {
    Min(2 * d, MaxBackoffDelay)
  }

  /** The invariant every tick preserves. */
  predicate Inv(s: FeedState) {
    && PollInterval <= s.backoff <= MaxBackoffDelay
    && s.blocksProcessed == |s.processed|
    && |s.transactions| <= MaxTransactions
    && s.currentBlock == s.lastProcessed
    && (s.lastProcessed.Some? ==> s.lastProcessed.value in s.processed)
  }

  function HashesOf(txs: seq<ClassifiedTransaction>): set<string> {
    set i | 0 <= i < |txs| :: txs[i].hash
  }

  function Elems(xs: seq<nat>): set<nat> {
    set x | x in xs
  }

  predicate Distinct(xs: seq<nat>) {
    forall j, k :: 0 <= j < k < |xs| ==> xs[j] != xs[k]
  }

  predicate StrictlyAscending(xs: seq<nat>) {
    forall j, k :: 0 <= j < k < |xs| ==> xs[j] < xs[k]
  }

  /** Records block `b` under number `n`: marks it processed, counts it, prepends its records, moves the pointer. */
  function ApplyBlock(s: FeedState, n: nat, b: Block): FeedState {
    var newTxs := ExtractAll(b.transactions, b.timestamp);
    s.(processed := s.processed + {n},
       currentBlock := Some(n),
       blocksProcessed := s.blocksProcessed + 1,
       freshHashes := s.freshHashes + HashesOf(newTxs),
       transactions := Prepend(newTxs, s.transactions),
       lastProcessed := Some(n))
  }

  /** A completed successful path: base backoff, no error, not reconnecting. */
  function Recovered(s: FeedState): FeedState {
    s.(backoff := PollInterval, error := None, reconnecting := false)
  }

  /** The bootstrap path's failure handler. */
  function BootstrapFailed(s: FeedState): FeedState {
    s.(error := Some(FetchErrorMessage), reconnecting := true, backoff := NextBackoff(s.backoff))
  }

  /** The gap-fill path's failure handler; it leaves the error message alone. */
  function GapFailed(s: FeedState): FeedState {
    s.(reconnecting := true, backoff := NextBackoff(s.backoff))
  }

  /**
   * `unmountAt == Some(k)`: the component unmounts while the tick waits at its k-th fetch
   * (0 is the chain-tip fetch, j + 1 the fetch of the j-th missed block).
   */
  function UnmountIf(s: FeedState, unmountAt: Option<nat>, k: nat): FeedState {
    if unmountAt == Some(k) then s.(mounted := false) else s
  }

  /** The new state and the numbers of the blocks applied, in the order applied. */
  datatype Outcome = Outcome(feed: FeedState, applied: seq<nat>)

  /** `fetchLatestBlock`: apply the chain tip if it has a number not seen before. */
  function Bootstrap(s: FeedState, tip: Reply, unmountAt: Option<nat>): Outcome {
    var s := UnmountIf(s, unmountAt, 0);
    match tip
    case Failed => Outcome(BootstrapFailed(s), [])
    case Delivered(b) =>
      if b.number.None? || b.number.value in s.processed then Outcome(s, [])
      else Outcome(Recovered(ApplyBlock(s, b.number.value, b)).(loading := false), [b.number.value])
  }

  /** The unprocessed numbers from `i` up to `latest`, at most `room` of them, in ascending order. */
  function CandidatesFrom(processed: set<nat>, i: nat, latest: nat, room: nat): seq<nat>
    decreases latest + 1 - i
  {
    if i > latest || room == 0 then []
    else if i in processed then CandidatesFrom(processed, i + 1, latest, room)
    else [i] + CandidatesFrom(processed, i + 1, latest, room - 1)
  }

  /** The blocks a gap-fill tick fetches (`blocksToFetch`). */
  function GapCandidates(processed: set<nat>, last: nat, latest: nat): seq<nat> {
    CandidatesFrom(processed, last + 1, latest, MaxGapBlocks)
  }

  /** How the walk over the missed blocks ended. */
  datatype WalkEnd = Finished | Unmounted | FetchFailed

  datatype Walked = Walked(feed: FeedState, end: WalkEnd, applied: seq<nat>)

  /**
   * The walk over `blocks[i..]`: before each fetch, stop if unmounted; a failed fetch ends
   * the walk in the failure handler; a block with a null or already processed number is
   * skipped; any other is applied. `replies(n)` is what fetching block `n` produced.
   */
  function Walk(s: FeedState, blocks: seq<nat>, i: nat, replies: nat -> Reply, unmountAt: Option<nat>): Walked
    requires i <= |blocks|
    decreases |blocks| - i
  {
    if i == |blocks| then Walked(s, Finished, [])
    else if !s.mounted then Walked(s, Unmounted, [])
    else
      var s' := UnmountIf(s, unmountAt, i + 1);
      match replies(blocks[i])
      case Failed => Walked(GapFailed(s'), FetchFailed, [])
      case Delivered(b) =>
        if b.number.None? || b.number.value in s'.processed then Walk(s', blocks, i + 1, replies, unmountAt)
        else
          var w := Walk(ApplyBlock(s', b.number.value, b), blocks, i + 1, replies, unmountAt);
          Walked(w.feed, w.end, [b.number.value] + w.applied)
  }

  /** `fetchMissedBlocks`: fetch the tip, then walk the unprocessed blocks above the pointer. */
  function GapFill(s: FeedState, tip: Reply, replies: nat -> Reply, unmountAt: Option<nat>): Outcome {
    if !Truthy(s.lastProcessed) then Outcome(s, [])
    else
      var s1 := UnmountIf(s, unmountAt, 0);
      match tip
      case Failed => Outcome(GapFailed(s1), [])
      case Delivered(b) =>
        if b.number.None? || b.number.value <= s.lastProcessed.value then Outcome(s1, [])
        else
          var w := Walk(s1, GapCandidates(s.processed, s.lastProcessed.value, b.number.value), 0, replies, unmountAt);
          Outcome(if w.end == Finished then Recovered(w.feed) else w.feed, w.applied)
  }

  /** The result of a tick and the delay before the next one (None: nothing is rescheduled). */
  datatype Ticked = Ticked(outcome: Outcome, next: Option<nat>)

  /** `poll`: gap-fill when the pointer is set, bootstrap otherwise; reschedule while mounted. */
  function Tick(s: FeedState, tip: Reply, replies: nat -> Reply, unmountAt: Option<nat>): Ticked {
    if !s.mounted then Ticked(Outcome(s, []), None)
    else
      var o := if Truthy(s.lastProcessed) then GapFill(s, tip, replies, unmountAt) else Bootstrap(s, tip, unmountAt);
      Ticked(o, if o.feed.mounted then Some(o.feed.backoff) else None)
  }

  // ===== the bounded feed =====

  /** Applying a block puts its records, in their order, ahead of the old feed, cut to 50 entries. */
  lemma ApplyBlockFeed(s: FeedState, n: nat, b: Block)
    ensures var t := ApplyBlock(s, n, b).transactions;
      var newTxs := ExtractAll(b.transactions, b.timestamp);
      && |t| <= MaxTransactions
      && t == (newTxs + s.transactions)[..Min(|newTxs| + |s.transactions|, MaxTransactions)]
      && (forall k :: 0 <= k < |t| && k < |b.transactions| ==> t[k] == ExtractTransactionData(b.transactions[k], b.timestamp))
  {
  }

  // ===== the gap-fill candidates =====

  lemma {:induction false} CandidatesFromBounds(processed: set<nat>, i: nat, latest: nat, room: nat)
    ensures var c := CandidatesFrom(processed, i, latest, room);
      && |c| <= room
      && (forall k :: 0 <= k < |c| ==> i <= c[k] <= latest && c[k] !in processed)
    decreases latest + 1 - i
  {
    if i > latest || room == 0 {
    } else if i in processed {
      CandidatesFromBounds(processed, i + 1, latest, room);
    } else {
      CandidatesFromBounds(processed, i + 1, latest, room - 1);
      var rest := CandidatesFrom(processed, i + 1, latest, room - 1);
      assert forall k :: 1 <= k < |[i] + rest| ==> ([i] + rest)[k] == rest[k - 1];
    }
  }

  lemma {:induction false} CandidatesFromAscending(processed: set<nat>, i: nat, latest: nat, room: nat)
    ensures StrictlyAscending(CandidatesFrom(processed, i, latest, room))
    decreases latest + 1 - i
  {
    if i > latest || room == 0 {
    } else if i in processed {
      CandidatesFromAscending(processed, i + 1, latest, room);
    } else {
      CandidatesFromAscending(processed, i + 1, latest, room - 1);
      CandidatesFromBounds(processed, i + 1, latest, room - 1);
      var rest := CandidatesFrom(processed, i + 1, latest, room - 1);
      var c := [i] + rest;
      forall j, k | 0 <= j < k < |c| ensures c[j] < c[k] {
        assert c[k] == rest[k - 1];
        if j > 0 { assert c[j] == rest[j - 1]; }
      }
    }
  }

  lemma {:induction false} CandidatesFromComplete(processed: set<nat>, i: nat, latest: nat, room: nat, n: nat)
    requires i <= n <= latest && n !in processed
    ensures var c := CandidatesFrom(processed, i, latest, room);
      n !in c ==> |c| == room && (c == [] || c[|c| - 1] < n)
    decreases latest + 1 - i
  {
    if room == 0 {
    } else if i in processed {
      CandidatesFromComplete(processed, i + 1, latest, room, n);
    } else if i < n {
      CandidatesFromComplete(processed, i + 1, latest, room - 1, n);
      var rest := CandidatesFrom(processed, i + 1, latest, room - 1);
      assert n !in [i] + rest ==> n !in rest;
      if rest != [] {
        assert ([i] + rest)[|rest|] == rest[|rest| - 1];
      }
    }
  }

  /**
   * The gap-fill candidates are strictly ascending, at most five, unprocessed, within
   * (last, latest], and they are the lowest such numbers: any unprocessed number in the
   * range that is left out lies above all of them, and then five were taken.
   */
  lemma GapCandidatesFacts(processed: set<nat>, last: nat, latest: nat)
    ensures var c := GapCandidates(processed, last, latest);
      && |c| <= MaxGapBlocks
      && StrictlyAscending(c)
      && (forall k :: 0 <= k < |c| ==> last < c[k] <= latest && c[k] !in processed)
      && (forall n :: last < n <= latest && n !in processed && n !in c ==> |c| == MaxGapBlocks && c[|c| - 1] < n)
  {
    CandidatesFromBounds(processed, last + 1, latest, MaxGapBlocks);
    CandidatesFromAscending(processed, last + 1, latest, MaxGapBlocks);
    forall n | last < n <= latest && n !in processed
      ensures var c := GapCandidates(processed, last, latest);
        n !in c ==> |c| == MaxGapBlocks && c[|c| - 1] < n
    {
      CandidatesFromComplete(processed, last + 1, latest, MaxGapBlocks, n);
    }
  }

  // ===== bookkeeping and health of a walk =====

  /** A walk keeps the invariant and, when it applies nothing, the feed. */
  lemma {:induction false} WalkKeepsInv(s: FeedState, blocks: seq<nat>, i: nat, replies: nat -> Reply, unmountAt: Option<nat>)
    requires i <= |blocks| && Inv(s)
    ensures var w := Walk(s, blocks, i, replies, unmountAt);
      Inv(w.feed) && (w.applied == [] ==> w.feed.transactions == s.transactions)
    decreases |blocks| - i
  {
    if i == |blocks| || !s.mounted {
    } else {
      var s' := UnmountIf(s, unmountAt, i + 1);
      match replies(blocks[i])
      case Failed =>
      case Delivered(b) =>
        if b.number.None? || b.number.value in s'.processed {
          WalkKeepsInv(s', blocks, i + 1, replies, unmountAt);
        } else {
          ApplyFreshKeepsInv(s', b.number.value, b);
          WalkKeepsInv(ApplyBlock(s', b.number.value, b), blocks, i + 1, replies, unmountAt);
        }
    }
  }

  /** Putting a fresh block in front of a list of fresh, distinct blocks applied after it. */
  lemma ConsNewBlock(base: set<nat>, n: nat, rest: seq<nat>, after: set<nat>)
    requires n !in base
    requires after == base + {n} + Elems(rest)
    requires forall k :: 0 <= k < |rest| ==> rest[k] !in base + {n}
    requires Distinct(rest)
    ensures after == base + Elems([n] + rest)
    ensures forall k :: 0 <= k < |[n] + rest| ==> ([n] + rest)[k] !in base
    ensures Distinct([n] + rest)
  {
    var c := [n] + rest;
    assert Elems(c) == {n} + Elems(rest);
    forall j, k | 0 <= j < k < |c| ensures c[j] != c[k] {
      assert c[k] == rest[k - 1];
      if j > 0 { assert c[j] == rest[j - 1]; }
    }
  }

  /** A walk only ever adds blocks not yet processed, each once. */
  lemma {:induction false} WalkProcessed(s: FeedState, blocks: seq<nat>, i: nat, replies: nat -> Reply, unmountAt: Option<nat>)
    requires i <= |blocks|
    ensures var w := Walk(s, blocks, i, replies, unmountAt);
      && w.feed.processed == s.processed + Elems(w.applied)
      && (forall k :: 0 <= k < |w.applied| ==> w.applied[k] !in s.processed)
      && Distinct(w.applied)
    decreases |blocks| - i
  {
    if i == |blocks| || !s.mounted {
    } else {
      var s' := UnmountIf(s, unmountAt, i + 1);
      match replies(blocks[i])
      case Failed =>
      case Delivered(b) =>
        if b.number.None? || b.number.value in s'.processed {
          WalkProcessed(s', blocks, i + 1, replies, unmountAt);
        } else {
          var n := b.number.value;
          var s'' := ApplyBlock(s', n, b);
          WalkProcessed(s'', blocks, i + 1, replies, unmountAt);
          var w' := Walk(s'', blocks, i + 1, replies, unmountAt);
          var applied := [n] + w'.applied;
          ConsNewBlock(s.processed, n, w'.applied, w'.feed.processed);
        }
    }
  }

  /** A walk counts each block it applies. */
  lemma {:induction false} WalkCount(s: FeedState, blocks: seq<nat>, i: nat, replies: nat -> Reply, unmountAt: Option<nat>)
    requires i <= |blocks|
    ensures var w := Walk(s, blocks, i, replies, unmountAt);
      w.feed.blocksProcessed == s.blocksProcessed + |w.applied|
    decreases |blocks| - i
  {
    if i == |blocks| || !s.mounted {
    } else {
      var s' := UnmountIf(s, unmountAt, i + 1);
      match replies(blocks[i])
      case Failed =>
      case Delivered(b) =>
        if b.number.None? || b.number.value in s'.processed {
          WalkCount(s', blocks, i + 1, replies, unmountAt);
        } else {
          var n := b.number.value;
          var s'' := ApplyBlock(s', n, b);
          WalkCount(s'', blocks, i + 1, replies, unmountAt);
          var w' := Walk(s'', blocks, i + 1, replies, unmountAt);
          var applied := [n] + w'.applied;
          assert |applied| == 1 + |w'.applied|;
        }
    }
  }

  /** After a walk the pointer is on the last block applied, or where it was. */
  lemma {:induction false} WalkPointer(s: FeedState, blocks: seq<nat>, i: nat, replies: nat -> Reply, unmountAt: Option<nat>)
    requires i <= |blocks|
    ensures var w := Walk(s, blocks, i, replies, unmountAt);
      w.feed.lastProcessed == (if w.applied == [] then s.lastProcessed else Some(w.applied[|w.applied| - 1]))
    decreases |blocks| - i
  {
    if i == |blocks| || !s.mounted {
    } else {
      var s' := UnmountIf(s, unmountAt, i + 1);
      match replies(blocks[i])
      case Failed =>
      case Delivered(b) =>
        if b.number.None? || b.number.value in s'.processed {
          WalkPointer(s', blocks, i + 1, replies, unmountAt);
        } else {
          var n := b.number.value;
          var s'' := ApplyBlock(s', n, b);
          WalkPointer(s'', blocks, i + 1, replies, unmountAt);
          var w' := Walk(s'', blocks, i + 1, replies, unmountAt);
          var applied := [n] + w'.applied;
          assert w'.applied != [] ==> applied[|applied| - 1] == w'.applied[|w'.applied| - 1];
        }
    }
  }

  /** A walk changes the backoff and the reconnecting flag only when a fetch fails, and never the error message. */
  lemma {:induction false} WalkHealth(s: FeedState, blocks: seq<nat>, i: nat, replies: nat -> Reply, unmountAt: Option<nat>)
    requires i <= |blocks|
    ensures var w := Walk(s, blocks, i, replies, unmountAt);
      && w.feed.backoff == (if w.end == FetchFailed then NextBackoff(s.backoff) else s.backoff)
      && w.feed.reconnecting == (s.reconnecting || w.end == FetchFailed)
      && w.feed.error == s.error
      && w.feed.loading == s.loading
      && (w.end == Unmounted ==> !w.feed.mounted)
    decreases |blocks| - i
  {
    if i == |blocks| || !s.mounted {
    } else {
      var s' := UnmountIf(s, unmountAt, i + 1);
      match replies(blocks[i])
      case Failed =>
      case Delivered(b) =>
        if b.number.None? || b.number.value in s'.processed {
          WalkHealth(s', blocks, i + 1, replies, unmountAt);
        } else {
          WalkHealth(ApplyBlock(s', b.number.value, b), blocks, i + 1, replies, unmountAt);
        }
    }
  }

  // ===== whole ticks: bookkeeping =====

  /**
   * What a transition from `s` that applied the blocks `applied` owes the processed set:
   * it applied only blocks outside the set, each once, grew the set by exactly those, the
   * count by their number, and left the pointer on the last of them.
   */
  predicate Bookkept(s: FeedState, o: Outcome) {
    && o.feed.processed == s.processed + Elems(o.applied)
    && (forall k :: 0 <= k < |o.applied| ==> o.applied[k] !in s.processed)
    && Distinct(o.applied)
    && o.feed.blocksProcessed == s.blocksProcessed + |o.applied|
    && o.feed.lastProcessed == (if o.applied == [] then s.lastProcessed else Some(o.applied[|o.applied| - 1]))
  }

  /** The invariant survives the transition, and a transition that applies nothing leaves the feed alone. */
  predicate KeptInv(s: FeedState, o: Outcome) {
    Inv(o.feed) && (o.applied == [] ==> o.feed.transactions == s.transactions)
  }

  /** Applying a block not yet processed keeps the invariant: the counter and the set grow together. */
  lemma ApplyFreshKeepsInv(s: FeedState, n: nat, b: Block)
    requires Inv(s) && n !in s.processed
    ensures Inv(ApplyBlock(s, n, b))
  {
    assert |s.processed + {n}| == |s.processed| + 1;
  }

  lemma BootstrapKeepsInv(s: FeedState, tip: Reply, unmountAt: Option<nat>)
    requires Inv(s)
    ensures KeptInv(s, Bootstrap(s, tip, unmountAt))
  {
    var s0 := UnmountIf(s, unmountAt, 0);
    match tip
    case Failed =>
    case Delivered(b) =>
      if b.number.Some? && b.number.value !in s0.processed {
        ApplyFreshKeepsInv(s0, b.number.value, b);
      }
  }

  lemma BootstrapBookkeeping(s: FeedState, tip: Reply, unmountAt: Option<nat>)
    ensures Bookkept(s, Bootstrap(s, tip, unmountAt))
  {
    var s0 := UnmountIf(s, unmountAt, 0);
    match tip
    case Failed =>
    case Delivered(b) =>
      if b.number.Some? && b.number.value !in s0.processed {
        assert Elems([b.number.value]) == {b.number.value};
      }
  }

  lemma GapFillKeepsInv(s: FeedState, tip: Reply, replies: nat -> Reply, unmountAt: Option<nat>)
    requires Inv(s)
    ensures KeptInv(s, GapFill(s, tip, replies, unmountAt))
  {
    if Truthy(s.lastProcessed) && tip.Delivered? {
      var b := tip.block;
      if b.number.Some? && b.number.value > s.lastProcessed.value {
        var blocks := GapCandidates(s.processed, s.lastProcessed.value, b.number.value);
        WalkKeepsInv(UnmountIf(s, unmountAt, 0), blocks, 0, replies, unmountAt);
      }
    }
  }

  lemma GapFillBookkeeping(s: FeedState, tip: Reply, replies: nat -> Reply, unmountAt: Option<nat>)
    ensures Bookkept(s, GapFill(s, tip, replies, unmountAt))
  {
    if Truthy(s.lastProcessed) && tip.Delivered? {
      var b := tip.block;
      if b.number.Some? && b.number.value > s.lastProcessed.value {
        var s1 := UnmountIf(s, unmountAt, 0);
        var blocks := GapCandidates(s.processed, s.lastProcessed.value, b.number.value);
        WalkProcessed(s1, blocks, 0, replies, unmountAt);
        WalkCount(s1, blocks, 0, replies, unmountAt);
        WalkPointer(s1, blocks, 0, replies, unmountAt);
      }
    }
  }

  /**
   * No block is applied twice: a tick applies only blocks outside the processed set, each
   * once; the set only grows, by exactly those blocks, and `blocksProcessed` by their
   * number; the pointer lands on the last block applied; and the invariant (backoff within
   * bounds, `blocksProcessed` equal to the set's size, at most 50 records, pointer and
   * header block equal and processed) is kept.
   */
  lemma TickBookkeeping(s: FeedState, tip: Reply, replies: nat -> Reply, unmountAt: Option<nat>)
    requires Inv(s)
    ensures var o := Tick(s, tip, replies, unmountAt).outcome;
      KeptInv(s, o) && Bookkept(s, o) && s.processed <= o.feed.processed
  {
    if s.mounted {
      if Truthy(s.lastProcessed) {
        GapFillKeepsInv(s, tip, replies, unmountAt);
        GapFillBookkeeping(s, tip, replies, unmountAt);
      } else {
        BootstrapKeepsInv(s, tip, unmountAt);
        BootstrapBookkeeping(s, tip, unmountAt);
      }
    } else {
      assert Elems([]) == {};
    }
  }

  // ===== whole ticks: backoff, error and reconnecting =====

  /**
   * Bootstrap: a failed fetch sets the error message and the reconnecting flag and doubles
   * the backoff (capped); a null or already seen tip changes nothing; a new tip resets the
   * backoff and clears the error, the reconnecting and the loading flags.
   */
  lemma BootstrapHealth(s: FeedState, tip: Reply, unmountAt: Option<nat>)
    ensures var o := Bootstrap(s, tip, unmountAt);
      && (tip.Failed? ==>
            && o.feed.error == Some(FetchErrorMessage) && o.feed.reconnecting
            && o.feed.backoff == NextBackoff(s.backoff) && o.applied == []
            && o.feed.transactions == s.transactions && o.feed.lastProcessed == s.lastProcessed)
      && (tip.Delivered? && (tip.block.number.None? || tip.block.number.value in s.processed) ==>
            o == Outcome(UnmountIf(s, unmountAt, 0), []))
      && (tip.Delivered? && tip.block.number.Some? && tip.block.number.value !in s.processed ==>
            && o.applied == [tip.block.number.value]
            && o.feed.backoff == PollInterval && o.feed.error.None? && !o.feed.reconnecting && !o.feed.loading)
  {
  }

  /**
   * Gap-fill: a failed tip fetch sets the reconnecting flag and doubles the backoff but
   * leaves the error message; a tip that is null or not above the pointer changes nothing;
   * otherwise the walk decides: a finished walk resets the backoff and clears the error and
   * the reconnecting flag, a failed fetch keeps the blocks applied before it and doubles the
   * backoff, and a walk stopped by an unmount leaves backoff, error and flag as they were.
   */
  lemma GapFillHealth(s: FeedState, tip: Reply, replies: nat -> Reply, unmountAt: Option<nat>)
    requires Truthy(s.lastProcessed)
    ensures var o := GapFill(s, tip, replies, unmountAt);
      && (tip.Failed? ==>
            && o.feed.error == s.error && o.feed.reconnecting
            && o.feed.backoff == NextBackoff(s.backoff) && o.applied == [])
      && (tip.Delivered? && (tip.block.number.None? || tip.block.number.value <= s.lastProcessed.value) ==>
            o == Outcome(UnmountIf(s, unmountAt, 0), []))
      && (tip.Delivered? && tip.block.number.Some? && tip.block.number.value > s.lastProcessed.value ==>
            var w := Walk(UnmountIf(s, unmountAt, 0),
                          GapCandidates(s.processed, s.lastProcessed.value, tip.block.number.value),
                          0, replies, unmountAt);
            && o.applied == w.applied
            && (w.end == Finished ==> o.feed.backoff == PollInterval && o.feed.error.None? && !o.feed.reconnecting)
            && (w.end == FetchFailed ==> o.feed.backoff == NextBackoff(s.backoff) && o.feed.error == s.error && o.feed.reconnecting)
            && (w.end == Unmounted ==>
                  && o.feed.backoff == s.backoff && o.feed.error == s.error
                  && o.feed.reconnecting == s.reconnecting && !o.feed.mounted))
  {
    if tip.Delivered? && tip.block.number.Some? && tip.block.number.value > s.lastProcessed.value {
      var blocks := GapCandidates(s.processed, s.lastProcessed.value, tip.block.number.value);
      WalkHealth(UnmountIf(s, unmountAt, 0), blocks, 0, replies, unmountAt);
    }
  }

  /**
   * `poll` runs gap-fill exactly when the pointer is truthy and bootstrap otherwise; the next
   * delay is the backoff the tick leaves; nothing is rescheduled once unmounted.
   */
  lemma TickDispatch(s: FeedState, tip: Reply, replies: nat -> Reply, unmountAt: Option<nat>)
    ensures var t := Tick(s, tip, replies, unmountAt);
      && (!s.mounted ==> t.outcome.feed == s && t.next.None?)
      && (s.mounted && Truthy(s.lastProcessed) ==> t.outcome == GapFill(s, tip, replies, unmountAt))
      && (s.mounted && !Truthy(s.lastProcessed) ==> t.outcome == Bootstrap(s, tip, unmountAt))
      && (t.next.Some? <==> t.outcome.feed.mounted)
      && (t.next.Some? ==> t.next.value == t.outcome.feed.backoff)
      && (unmountAt.None? ==> t.outcome.feed.mounted == s.mounted)
  {
    if s.mounted && unmountAt.None? {
      if Truthy(s.lastProcessed) && tip.Delivered? {
        var b := tip.block;
        if b.number.Some? && b.number.value > s.lastProcessed.value {
          WalkStaysMounted(s, GapCandidates(s.processed, s.lastProcessed.value, b.number.value), 0, replies);
        }
      }
    }
  }

  /** Without an unmount a walk never stops early, and the component stays mounted. */
  lemma {:induction false} WalkStaysMounted(s: FeedState, blocks: seq<nat>, i: nat, replies: nat -> Reply)
    requires i <= |blocks| && s.mounted
    ensures var w := Walk(s, blocks, i, replies, None);
      w.feed.mounted && w.end != Unmounted
    decreases |blocks| - i
  {
    if i < |blocks| {
      match replies(blocks[i])
      case Failed =>
      case Delivered(b) =>
        if b.number.None? || b.number.value in s.processed {
          WalkStaysMounted(s, blocks, i + 1, replies);
        } else {
          WalkStaysMounted(ApplyBlock(s, b.number.value, b), blocks, i + 1, replies);
        }
    }
  }

  /** A block whose number is null is skipped by the walk: no set entry, no feed change, no pointer move. */
  lemma NullBlockSkipped(s: FeedState, blocks: seq<nat>, i: nat, replies: nat -> Reply, unmountAt: Option<nat>)
    requires i < |blocks| && s.mounted
    requires replies(blocks[i]).Delivered? && replies(blocks[i]).block.number.None?
    ensures Walk(s, blocks, i, replies, unmountAt) == Walk(UnmountIf(s, unmountAt, i + 1), blocks, i + 1, replies, unmountAt)
  {
  }

  // ===== backoff =====

  function Pow2(k: nat): nat {
    if k == 0 then 1 else 2 * Pow2(k - 1)
  }

  /** Backoff after `k` consecutive failed ticks, starting from state `s`. */
  function AfterFailures(s: FeedState, k: nat, replies: nat -> Reply): FeedState {
    if k == 0 then s else Tick(AfterFailures(s, k - 1, replies), Failed, replies, None).outcome.feed
  }

  /** The backoff after `k` failures starting from `d`. */
  function BackoffAfter(d: nat, k: nat): nat {
    if k == 0 then d else NextBackoff(BackoffAfter(d, k - 1))
  }

  /** Doubling k times with a cap is doubling once by 2^k with the cap. */
  lemma {:induction false} BackoffAfterClosedForm(d: nat, k: nat)
    requires d <= MaxBackoffDelay
    ensures BackoffAfter(d, k) == Min(d * Pow2(k), MaxBackoffDelay)
  {
    if k > 0 {
      BackoffAfterClosedForm(d, k - 1);
      var x := d * Pow2(k - 1);
      DoubleFactor(d, Pow2(k - 1));
      assert d * Pow2(k) == 2 * x;
      assert BackoffAfter(d, k) == Min(2 * Min(x, MaxBackoffDelay), MaxBackoffDelay);
    }
  }

  lemma DoubleFactor(d: nat, p: nat)
    ensures d * (2 * p) == 2 * (d * p)
  {
  }

  /**
   * Consecutive failed ticks double the delay from where it was, up to the cap and never
   * beyond it, keep the reconnecting flag raised, and change neither the pointer nor the feed.
   */
  lemma {:induction false} ConsecutiveFailures(s: FeedState, k: nat, replies: nat -> Reply)
    requires Inv(s) && s.mounted
    ensures Inv(AfterFailures(s, k, replies)) && AfterFailures(s, k, replies).mounted
    ensures AfterFailures(s, k, replies).backoff == Min(s.backoff * Pow2(k), MaxBackoffDelay)
    ensures AfterFailures(s, k, replies).lastProcessed == s.lastProcessed
    ensures AfterFailures(s, k, replies).transactions == s.transactions
    ensures k > 0 ==> AfterFailures(s, k, replies).reconnecting
  {
    FailuresBackoff(s, k, replies);
    BackoffAfterClosedForm(s.backoff, k);
  }

  lemma {:induction false} FailuresBackoff(s: FeedState, k: nat, replies: nat -> Reply)
    requires Inv(s) && s.mounted
    ensures var t := AfterFailures(s, k, replies);
      && Inv(t) && t.mounted && t.backoff == BackoffAfter(s.backoff, k)
      && t.lastProcessed == s.lastProcessed && t.transactions == s.transactions
      && (k > 0 ==> t.reconnecting)
  {
    if k > 0 {
      FailuresBackoff(s, k - 1, replies);
      FailedTick(AfterFailures(s, k - 1, replies), replies);
    }
  }

  /** A failed tip fetch on a mounted engine runs the failure handler of the path `poll` takes. */
  lemma FailedTick(p: FeedState, replies: nat -> Reply)
    requires p.mounted
    ensures Tick(p, Failed, replies, None).outcome.feed ==
      if Truthy(p.lastProcessed) then GapFailed(p) else BootstrapFailed(p)
  {
  }

  /** From the base delay, k failures give min(2000 * 2^k, 10000): the cap is reached after three (a success resets it, see BootstrapHealth and GapFillHealth). */
  lemma BackoffFromBase(s: FeedState, k: nat, replies: nat -> Reply)
    requires Inv(s) && s.mounted && s.backoff == PollInterval
    ensures AfterFailures(s, k, replies).backoff == Min(PollInterval * Pow2(k), MaxBackoffDelay)
    ensures k >= 3 ==> AfterFailures(s, k, replies).backoff == MaxBackoffDelay
  {
    ConsecutiveFailures(s, k, replies);
    if k >= 3 {
      Pow2AtLeast(k);
    }
  }

  lemma {:induction false} Pow2AtLeast(k: nat)
    requires k >= 3
    ensures Pow2(k) >= 8
  {
    if k > 3 { Pow2AtLeast(k - 1); }
  }

  // ===== ascending order of a gap-fill pass =====

  /** A source that, when it delivers a numbered block for `n`, delivers block `n`. */
  ghost predicate Honest(replies: nat -> Reply) {
    forall n: nat :: replies(n).Delivered? && replies(n).block.number.Some? ==> replies(n).block.number.value == n
  }

  lemma {:induction false} WalkAppliedAmong(s: FeedState, blocks: seq<nat>, i: nat, replies: nat -> Reply, unmountAt: Option<nat>)
    requires i <= |blocks| && Honest(replies)
    ensures forall k :: 0 <= k < |Walk(s, blocks, i, replies, unmountAt).applied| ==>
      Walk(s, blocks, i, replies, unmountAt).applied[k] in blocks[i..]
    decreases |blocks| - i
  {
    if i == |blocks| || !s.mounted {
    } else {
      var s' := UnmountIf(s, unmountAt, i + 1);
      assert blocks[i..] == [blocks[i]] + blocks[i + 1..];
      match replies(blocks[i])
      case Failed =>
      case Delivered(b) =>
        if b.number.None? || b.number.value in s'.processed {
          WalkAppliedAmong(s', blocks, i + 1, replies, unmountAt);
          var w' := Walk(s', blocks, i + 1, replies, unmountAt);
          assert forall k :: 0 <= k < |w'.applied| ==> w'.applied[k] in blocks[i + 1..];
          assert Walk(s, blocks, i, replies, unmountAt) == w';
        } else {
          var n := b.number.value;
          assert n == blocks[i];
          var s'' := ApplyBlock(s', n, b);
          WalkAppliedAmong(s'', blocks, i + 1, replies, unmountAt);
          var w' := Walk(s'', blocks, i + 1, replies, unmountAt);
          assert Walk(s, blocks, i, replies, unmountAt).applied == [n] + w'.applied;
          assert forall k :: 1 <= k < |[n] + w'.applied| ==> ([n] + w'.applied)[k] == w'.applied[k - 1];
        }
    }
  }

  lemma {:induction false} WalkAscending(s: FeedState, blocks: seq<nat>, i: nat, replies: nat -> Reply, unmountAt: Option<nat>)
    requires i <= |blocks| && Honest(replies) && StrictlyAscending(blocks)
    ensures StrictlyAscending(Walk(s, blocks, i, replies, unmountAt).applied)
    ensures i < |blocks| ==> forall k :: 0 <= k < |Walk(s, blocks, i, replies, unmountAt).applied| ==>
      blocks[i] <= Walk(s, blocks, i, replies, unmountAt).applied[k]
    decreases |blocks| - i
  {
    if i == |blocks| || !s.mounted {
    } else {
      var s' := UnmountIf(s, unmountAt, i + 1);
      match replies(blocks[i])
      case Failed =>
      case Delivered(b) =>
        if b.number.None? || b.number.value in s'.processed {
          WalkAscending(s', blocks, i + 1, replies, unmountAt);
        } else {
          var n := b.number.value;
          var s'' := ApplyBlock(s', n, b);
          WalkAscending(s'', blocks, i + 1, replies, unmountAt);
          var rest := Walk(s'', blocks, i + 1, replies, unmountAt).applied;
          assert forall k :: 0 <= k < |rest| ==> n < rest[k];
          ConsAscending(n, rest);
        }
    }
  }

  lemma ConsAscending(n: nat, rest: seq<nat>)
    requires StrictlyAscending(rest) && forall k :: 0 <= k < |rest| ==> n < rest[k]
    ensures StrictlyAscending([n] + rest) && forall k :: 0 <= k < |[n] + rest| ==> n <= ([n] + rest)[k]
  {
    var c := [n] + rest;
    forall j, k | 0 <= j < k < |c| ensures c[j] < c[k] {
      assert c[k] == rest[k - 1];
      if j > 0 { assert c[j] == rest[j - 1]; }
    }
  }

  /**
   * With an honest source, a gap-fill pass applies its blocks in strictly ascending order,
   * each above the old pointer, at most the tip, and not processed before.
   */
  lemma GapFillAscending(s: FeedState, tip: Reply, replies: nat -> Reply, unmountAt: Option<nat>)
    requires Honest(replies) && Truthy(s.lastProcessed)
    ensures var o := GapFill(s, tip, replies, unmountAt);
      && StrictlyAscending(o.applied)
      && |o.applied| <= MaxGapBlocks
      && (forall k :: 0 <= k < |o.applied| ==>
            && s.lastProcessed.value < o.applied[k]
            && o.applied[k] <= tip.block.number.value
            && o.applied[k] !in s.processed)
  {
    if tip.Delivered? && tip.block.number.Some? && tip.block.number.value > s.lastProcessed.value {
      var blocks := GapCandidates(s.processed, s.lastProcessed.value, tip.block.number.value);
      var s1 := UnmountIf(s, unmountAt, 0);
      GapCandidatesFacts(s.processed, s.lastProcessed.value, tip.block.number.value);
      WalkAscending(s1, blocks, 0, replies, unmountAt);
      WalkAppliedAmong(s1, blocks, 0, replies, unmountAt);
      WalkProcessed(s1, blocks, 0, replies, unmountAt);
      var w := Walk(s1, blocks, 0, replies, unmountAt);
      assert GapFill(s, tip, replies, unmountAt).applied == w.applied;
      assert blocks[0..] == blocks;
      forall k | 0 <= k < |w.applied|
        ensures s.lastProcessed.value < w.applied[k] <= tip.block.number.value
      {
        var j :| 0 <= j < |blocks| && w.applied[k] == blocks[j];
      }
      DistinctWithin(w.applied, blocks);
    }
  }

  /** A list without repetitions drawn from another list is no longer than it. */
  lemma DistinctWithin(xs: seq<nat>, ys: seq<nat>)
    requires Distinct(xs) && forall k :: 0 <= k < |xs| ==> xs[k] in ys
    ensures |xs| <= |ys|
  {
    var ex := set k | 0 <= k < |xs| :: xs[k];
    var ey := set k | 0 <= k < |ys| :: ys[k];
    assert ex <= ey;
    CardOfDistinct(xs);
    CardAtMostLength(ys);
    assert |ex| <= |ey| by { SubsetCard(ex, ey); }
  }

  lemma {:induction false} CardOfDistinct(xs: seq<nat>)
    requires Distinct(xs)
    ensures |set k | 0 <= k < |xs| :: xs[k]| == |xs|
  {
    if xs != [] {
      var init := xs[..|xs| - 1];
      assert Distinct(init);
      CardOfDistinct(init);
      var si := set k | 0 <= k < |init| :: init[k];
      var sx := set k | 0 <= k < |xs| :: xs[k];
      assert sx == si + {xs[|xs| - 1]};
      assert xs[|xs| - 1] !in si;
    }
  }

  lemma {:induction false} CardAtMostLength(ys: seq<nat>)
    ensures |set k | 0 <= k < |ys| :: ys[k]| <= |ys|
  {
    if ys != [] {
      var init := ys[..|ys| - 1];
      CardAtMostLength(init);
      var si := set k | 0 <= k < |init| :: init[k];
      var sy := set k | 0 <= k < |ys| :: ys[k];
      assert sy == si + {ys[|ys| - 1]};
    }
  }

  lemma SubsetCard(a: set<nat>, b: set<nat>)
    requires a <= b
    ensures |a| <= |b|
  {
    assert b == a + (b - a);
  }

  // ===== gap recovery =====

  /** A source that delivers every requested block, with its number. */
  ghost predicate Reliable(replies: nat -> Reply) {
    forall n: nat :: replies(n).Delivered? && replies(n).block.number == Some(n)
  }

  function Range(lo: nat, hi: nat): (r: seq<nat>)
    requires lo <= hi
    ensures |r| == hi - lo && forall k :: 0 <= k < |r| ==> r[k] == lo + k
  {
    seq(hi - lo, k requires 0 <= k < hi - lo => lo + k)
  }

  lemma {:induction false} CandidatesOfFreshRange(processed: set<nat>, i: nat, latest: nat, room: nat)
    requires forall n :: i <= n <= latest ==> n !in processed
    ensures CandidatesFrom(processed, i, latest, room) ==
      Range(i, if i > latest then i else i + Min(latest + 1 - i, room))
    decreases latest + 1 - i
  {
    if i > latest || room == 0 {
    } else {
      CandidatesOfFreshRange(processed, i + 1, latest, room - 1);
      var rest := CandidatesFrom(processed, i + 1, latest, room - 1);
      var r := Range(i, i + Min(latest + 1 - i, room));
      assert [i] + rest == r by {
        assert forall k :: 1 <= k < |r| ==> ([i] + rest)[k] == rest[k - 1];
      }
    }
  }

  lemma {:induction false} WalkReliable(s: FeedState, blocks: seq<nat>, i: nat, replies: nat -> Reply)
    requires i <= |blocks| && s.mounted && Reliable(replies) && Distinct(blocks)
    requires forall k :: i <= k < |blocks| ==> blocks[k] !in s.processed
    ensures var w := Walk(s, blocks, i, replies, None);
      w.end == Finished && w.applied == blocks[i..]
    decreases |blocks| - i
  {
    if i < |blocks| {
      var b := replies(blocks[i]).block;
      assert b.number == Some(blocks[i]);
      var s'' := ApplyBlock(s, blocks[i], b);
      WalkReliable(s'', blocks, i + 1, replies);
      assert blocks[i..] == [blocks[i]] + blocks[i + 1..];
    }
  }

  /**
   * Gap recovery: with no block above the pointer processed yet, a reliable source and no
   * unmount, one tick applies the next blocks up to the tip, at most five, in order, moves
   * the pointer to the last of them and restores the base backoff.
   */
  lemma CatchUp(s: FeedState, tip: Reply, replies: nat -> Reply)
    requires Inv(s) && s.mounted && Truthy(s.lastProcessed) && Reliable(replies)
    requires tip.Delivered? && tip.block.number.Some? && tip.block.number.value > s.lastProcessed.value
    requires forall n :: s.lastProcessed.value < n <= tip.block.number.value ==> n !in s.processed
    ensures var last := s.lastProcessed.value;
      var upto := Min(tip.block.number.value, last + MaxGapBlocks);
      var o := Tick(s, tip, replies, None).outcome;
      && o.applied == Range(last + 1, upto + 1)
      && o.feed.lastProcessed == Some(upto)
      && o.feed.backoff == PollInterval && o.feed.error.None? && !o.feed.reconnecting
  {
    var last := s.lastProcessed.value;
    var latest := tip.block.number.value;
    var blocks := GapCandidates(s.processed, last, latest);
    CandidatesOfFreshRange(s.processed, last + 1, latest, MaxGapBlocks);
    assert blocks == Range(last + 1, Min(latest, last + MaxGapBlocks) + 1);
    var upto := Min(latest, last + MaxGapBlocks);
    assert blocks[|blocks| - 1] == upto;
    WalkReliable(s, blocks, 0, replies);
    assert blocks[0..] == blocks;
    WalkPointer(s, blocks, 0, replies, None);
    var w := Walk(s, blocks, 0, replies, None);
    assert w.end == Finished && w.applied == blocks && w.feed.lastProcessed == Some(upto);
    assert Tick(s, tip, replies, None).outcome == Outcome(Recovered(w.feed), w.applied);
  }

  /**
   * Seven missed blocks take two ticks: the first moves the pointer by five, the second
   * by the remaining two, and afterwards all seven are processed.
   */
  lemma SevenBlockGap(s: FeedState, b: Block, replies: nat -> Reply)
    requires Inv(s) && s.mounted && Truthy(s.lastProcessed) && Reliable(replies)
    requires b.number == Some(s.lastProcessed.value + 7)
    requires forall n :: s.lastProcessed.value < n <= s.lastProcessed.value + 7 ==> n !in s.processed
    ensures var n := s.lastProcessed.value;
      var t1 := Tick(s, Delivered(b), replies, None).outcome.feed;
      var t2 := Tick(t1, Delivered(b), replies, None).outcome.feed;
      && t1.lastProcessed == Some(n + 5)
      && t2.lastProcessed == Some(n + 7)
      && (forall m :: n < m <= n + 7 ==> m in t2.processed)
  {
    var n := s.lastProcessed.value;
    CatchUp(s, Delivered(b), replies);
    TickBookkeeping(s, Delivered(b), replies, None);
    TickDispatch(s, Delivered(b), replies, None);
    var o1 := Tick(s, Delivered(b), replies, None).outcome;
    var t1 := o1.feed;
    forall m | n + 5 < m <= n + 7 ensures m !in t1.processed {
      assert m !in Elems(o1.applied);
    }
    CatchUp(t1, Delivered(b), replies);
    TickBookkeeping(t1, Delivered(b), replies, None);
    var o2 := Tick(t1, Delivered(b), replies, None).outcome;
    forall m | n < m <= n + 7 ensures m in o2.feed.processed {
      if m <= n + 5 {
        assert o1.applied[m - n - 1] == m;
      } else {
        assert o2.applied[m - n - 6] == m;
      }
    }
  }

  /**
   * A missed block delivered with a null number is skipped, and when a later block of the
   * same walk is applied the pointer passes it: it stays unprocessed and the next gap-fill
   * candidate list, which starts above the pointer, does not contain it, whatever the tip.
   */
  lemma NullGapBlockPassed(s: FeedState, b: Block, replies: nat -> Reply, latest: nat)
    requires Inv(s) && s.mounted && Truthy(s.lastProcessed)
    requires b.number == Some(s.lastProcessed.value + 2)
    requires s.lastProcessed.value + 1 !in s.processed && s.lastProcessed.value + 2 !in s.processed
    requires replies(s.lastProcessed.value + 1).Delivered? && replies(s.lastProcessed.value + 1).block.number.None?
    requires replies(s.lastProcessed.value + 2).Delivered?
    requires replies(s.lastProcessed.value + 2).block.number == Some(s.lastProcessed.value + 2)
    ensures var n := s.lastProcessed.value;
      var t := GapFill(s, Delivered(b), replies, None).feed;
      && t.lastProcessed == Some(n + 2)
      && n + 1 !in t.processed
      && n + 1 !in GapCandidates(t.processed, n + 2, latest)
  {
    var n := s.lastProcessed.value;
    var gap := GapCandidates(s.processed, n, n + 2);
    assert CandidatesFrom(s.processed, n + 3, n + 2, MaxGapBlocks - 1) == [];
    assert CandidatesFrom(s.processed, n + 2, n + 2, MaxGapBlocks - 1) == [n + 2];
    assert gap == [n + 1, n + 2];
    var b2 := replies(n + 2).block;
    var after := ApplyBlock(s, n + 2, b2);
    assert Walk(after, gap, 2, replies, None) == Walked(after, Finished, []);
    assert Walk(s, gap, 1, replies, None).feed == after;
    assert Walk(s, gap, 0, replies, None).feed == after;
    var t := GapFill(s, Delivered(b), replies, None).feed;
    assert t == Recovered(after);
    CandidatesFromBounds(t.processed, n + 3, latest, MaxGapBlocks);
  }
}
