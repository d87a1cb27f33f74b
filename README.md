# Base block classification — verified model of the live-feed engine

This project models the core of a web dashboard that streams the transactions of recent
Base (an Ethereum layer-2 chain) blocks. The dashboard classifies each transaction by its
4-byte function selector and keeps a bounded feed of the newest 50 records. Its heart is a
polling state machine in `components/LiveFeed.tsx`:

- `fetchLatestBlock` (bootstrap) applies the chain tip if it is new.
- `fetchMissedBlocks` (gap fill) collects up to five unprocessed block numbers above the
  last-processed pointer and applies them one at a time in ascending order.
- `poll` chooses between the two, then reschedules itself after the current backoff
  (2000 ms doubled on each failure, capped at 10000 ms) for as long as the component is mounted.

The modules:

- `Wrappers`: `Option`.
- `Classifier` (`lib/classifier.ts`): the selector table, `ClassifyTransaction`, and the
  emoji and label maps.
- `Blockchain` (`lib/blockchain.ts`): the raw and classified transaction records and
  `ExtractTransactionData`.
- `Utils` (`lib/utils.ts`): `TruncateAddress` and `FormatRelativeTime`. The clock is the
  parameter `now`.
- `FeedBuffer`: the feed updater (prepend, then truncate to 50) and the distinct block
  numbers behind the `uniqueBlocks` count.
- `Poller`: the engine's state as a value (`FeedState`), one pure transition function per
  operation (`Bootstrap`, `Walk`, `GapFill`, `Tick`), and the lemmas about them.
- `LiveFeed`: the class `LiveFeedEngine`. Its fields are the component's state cells and
  refs, and its methods update them in place. Each method is proved to perform exactly the
  corresponding `Poller` transition and to keep the invariant `Poller.Inv`.
  `ApplyBlockInPlace` and `AcceptTip` require the block number not to be processed yet, which
  both call sites check first (components/LiveFeed.tsx:42, 113). The candidate loop is the
  method `CollectGapBlocks`.

Block fetches are an oracle:

- The tip fetch is a `Reply` (`Delivered(block)` or `Failed`).
- `replies(n)` is what fetching block `n` produces.
- `unmountAt == Some(k)` means the component's cleanup runs while the tick is suspended at
  its k-th fetch: 0 is the tip fetch, j + 1 the fetch of the j-th missed block.

A pointer of block number 0 counts as unset (`Poller.Truthy`), as a `0n` bigint is falsy
in the source.

The selector table and the two display maps are the constants `Classifier.Selectors`,
`Classifier.TxTypeEmoji` and `Classifier.TxTypeLabel` (lib/classifier.ts:12-24, 33-51); the
rows for `Classifier.SelectorKeysCanonical` and `Classifier.EveryTypeIsDisplayable` state
what is proved about them.

### Behaviour of the code worth knowing

- Only an input of exactly `"0x"` is an ETH transfer (lib/classifier.ts:28); an empty input
  is looked up in the selector table and is a contract call. `"0X"` is a contract call as
  well, even though it lower-cases to `"0x"`, which is why `Classifier.SelectorCaseInsensitive`
  requires the input to differ from `"0x"`.
- A failed gap fill sets the reconnecting flag and doubles the backoff, but it leaves the
  error message as it was (components/LiveFeed.tsx:141-147); only a failed bootstrap sets
  the error message (components/LiveFeed.tsx:73).
- A gap fill that fails part-way keeps the blocks it already applied, and the pointer stays
  on the last of them (components/LiveFeed.tsx:103-136).
- A missed block that comes back with a null number is skipped (components/LiveFeed.tsx:109).
  If a later block of the same walk is applied, the pointer moves past the skipped block, so
  the skipped block stays unprocessed and the candidate list of the next gap fill, which
  starts above the pointer, does not contain it (`Poller.NullGapBlockPassed`).

## Model

| member | source | states |
|---|---|---|
| Classifier.ClassifyTransaction | lib/classifier.ts:26-31 | definition: no recipient gives a contract creation, the input "0x" an ETH transfer, anything else the table entry of its lower-cased first 10 characters; its properties are the lemmas below |
| Classifier.LookupSelector | lib/classifier.ts:30 | definition: the table entry of a selector, or a contract call when the table has none |
| Classifier.SelectorKeysCanonical | lib/classifier.ts:12-24 | every selector key is exactly 10 characters long and already lower case |
| Classifier.CreationIgnoresInput | lib/classifier.ts:27 | a transaction without a recipient is a contract creation, whatever its input |
| Classifier.EthTransferExactly | lib/classifier.ts:27-28 | with a recipient, the result is an ETH transfer if and only if the input is exactly "0x" |
| Classifier.SelectorHitAnyPayload | lib/classifier.ts:29-30 | with a recipient, an input whose first 10 characters lower-case to a table key classifies as that key's type, whatever follows |
| Classifier.SelectorMissAnyPayload | lib/classifier.ts:29-30 | with a recipient, an input whose first 10 characters do not lower-case to a table key is a contract call, whatever follows |
| Classifier.TransferSelectorExample | lib/classifier.ts:13 | "0xa9059cbb" followed by any payload is an ERC-20 transfer |
| Classifier.SelectorCaseInsensitive | lib/classifier.ts:29 | upper-casing an input other than "0x" does not change its classification |
| Classifier.ShortInputIsContractCall | lib/classifier.ts:12-30 | with a recipient, an input shorter than 10 characters other than "0x" is a contract call |
| Classifier.EveryTypeIsDisplayable | lib/classifier.ts:3-51 | every classification result has an emoji and a label, and distinct types have distinct labels |
| Classifier.ToLower | lib/classifier.ts:29 | lower-casing keeps the length and maps each character through the ASCII lower-case mapping |
| Classifier.Prefix | lib/classifier.ts:29 | `slice(0, 10)`: the first min(10, length) characters |
| Blockchain.ExtractTransactionData | lib/blockchain.ts:44-56 | hash, from, to, value and input are copied; blockNumber is the transaction's, or 0 when null; the timestamp is the block's seconds times 1000 |
| Blockchain.ExtractAll | components/LiveFeed.tsx:50-52 | the block's records are extracted one for one, in order, with the block's timestamp |
| Blockchain.ExtractPreservesClassification | lib/blockchain.ts:51-53 | classifying the extracted record gives the same type as classifying the raw transaction |
| Utils.TruncateAddress | lib/utils.ts:1-4 | under 10 characters (the empty string included) the address comes back unchanged; otherwise the result has length 13: the first 6 characters, "...", then the last 4 |
| Utils.TruncateIdempotent | lib/utils.ts:1-4 | truncating an already truncated address changes nothing |
| Utils.NatToString | lib/utils.ts:12 | the decimal text of a count is non-empty, all digits, without a leading zero |
| Utils.ParseNatToString | lib/utils.ts:12 | reading the decimal text back gives the count: the rendering is injective |
| Utils.FormatRelativeTime | lib/utils.ts:6-22 | definition: the chain of floor divisions and threshold tests of the source, with the clock as the parameter `now`; its properties are the three lemmas below |
| Utils.Ago | lib/utils.ts:12-21 | definition: the text "<count> <unit>[s] ago", singular exactly for a count of 1 (see `Utils.PluralUnlessOne`) |
| Utils.RelativeTimeBuckets | lib/utils.ts:6-22 | below one second of difference (future timestamps included) the result is "just now"; otherwise the unit is the first of sec, min, hour and day whose count stays under 60, 60 or 24, and the count is the difference floored to that unit |
| Utils.JustNowExactly | lib/utils.ts:7-11 | the result is "just now" if and only if now - timestamp < 1000 |
| Utils.PluralUnlessOne | lib/utils.ts:12-21 | a bucketed result ends in "s ago" if and only if its count is not 1 |
| FeedBuffer.Prepend | components/LiveFeed.tsx:61-64 | the new feed has min(new + old, 50) entries: the new records first, in their order, then the old ones |
| FeedBuffer.PrependKeepsOrder | components/LiveFeed.tsx:130-133 | the result is the concatenation of new and old records cut to its first 50 entries |
| FeedBuffer.BlockNumbers | components/LiveFeed.tsx:178 | a number is in the set exactly when some record of the feed has it as block number |
| FeedBuffer.BlockCountBounded | components/LiveFeed.tsx:178 | the distinct block count is at most the feed length, and at least 1 for a non-empty feed |
| Poller.Inv | components/LiveFeed.tsx:18-29 | definition of the invariant every transition keeps: backoff in [2000, 10000], the counter equal to the size of the processed set, at most 50 records, the displayed block equal to the pointer, and the pointer a processed block |
| Poller.Truthy | components/LiveFeed.tsx:83 | definition: the pointer is set and not 0, the JavaScript truthiness of a bigint |
| Poller.NextBackoff | components/LiveFeed.tsx:75-78 | definition: the delay after a failure, doubled and capped at 10000 |
| Poller.Recovered | components/LiveFeed.tsx:67-69 | definition: the reset after a completed path, base delay, no error, not reconnecting |
| Poller.BootstrapFailed | components/LiveFeed.tsx:71-79 | definition: the bootstrap failure handler, error message set, reconnecting, backoff doubled |
| Poller.GapFailed | components/LiveFeed.tsx:141-148 | definition: the gap-fill failure handler, reconnecting and backoff doubled, the error left alone |
| Poller.ApplyBlock | components/LiveFeed.tsx:46-66 | definition: a block recorded under its number, which is marked processed, counted, shown, its records' hashes marked fresh, its records prepended, the pointer moved to it |
| Poller.Bootstrap | components/LiveFeed.tsx:31-80 | definition of `fetchLatestBlock` on a fetched tip; its properties are `BootstrapKeepsInv`, `BootstrapBookkeeping` and `BootstrapHealth` |
| Poller.CandidatesFrom | components/LiveFeed.tsx:93-101 | definition of the candidate loop from `i`, as recursion; its properties are the `CandidatesFrom…` lemmas |
| Poller.GapCandidates | components/LiveFeed.tsx:92-101 | definition: the candidate loop started just above the pointer with room for 5 |
| Poller.Walk | components/LiveFeed.tsx:103-136 | definition of the loop over the blocks to fetch, as recursion; its properties are the `Walk…` lemmas |
| Poller.GapFill | components/LiveFeed.tsx:82-149 | definition of `fetchMissedBlocks` on a fetched tip; its properties are `GapFillKeepsInv`, `GapFillBookkeeping`, `GapFillHealth` and `GapFillAscending` |
| Poller.Tick | components/LiveFeed.tsx:156-168 | definition of one `poll`; its properties are `TickDispatch` and `TickBookkeeping` |
| Poller.Initial | components/LiveFeed.tsx:18-29 | the initial state satisfies the invariant: mounted, empty feed and processed set, no pointer, backoff 2000 |
| Poller.ApplyBlockFeed | components/LiveFeed.tsx:46-64 | applying a block leaves at most 50 records: the block's own extracted records first, in their order, then the old feed |
| Poller.CandidatesFromBounds | components/LiveFeed.tsx:93-101 | the candidate loop yields at most `room` numbers, each in range and unprocessed |
| Poller.CandidatesFromAscending | components/LiveFeed.tsx:93-101 | the candidate loop yields strictly ascending numbers |
| Poller.CandidatesFromComplete | components/LiveFeed.tsx:93-101 | an unprocessed number in range is left out only when the list is full and ends below it |
| Poller.GapCandidatesFacts | components/LiveFeed.tsx:92-101 | the blocks to fetch are at most 5, strictly ascending, unprocessed numbers in (pointer, tip], and they are the lowest such numbers |
| Poller.WalkKeepsInv | components/LiveFeed.tsx:103-136 | the walk over the missed blocks keeps the invariant, and a walk that applies nothing leaves the feed alone |
| Poller.WalkProcessed | components/LiveFeed.tsx:111-115 | the walk adds exactly the blocks it applies to the processed set; none of them was processed before, and none is applied twice |
| Poller.WalkCount | components/LiveFeed.tsx:115-117 | the processed-block counter grows by the number of blocks applied |
| Poller.WalkPointer | components/LiveFeed.tsx:135 | the pointer ends on the last applied block, or stays where it was |
| Poller.WalkHealth | components/LiveFeed.tsx:103-147 | a failed fetch ends the walk, doubles the backoff and sets reconnecting; otherwise the backoff is unchanged; the error and loading flags never change; an unmounted walk ends unmounted |
| Poller.BootstrapKeepsInv | components/LiveFeed.tsx:31-80 | bootstrap keeps the invariant, and it leaves the feed alone when it applies nothing |
| Poller.BootstrapBookkeeping | components/LiveFeed.tsx:42-48 | bootstrap adds only a block not yet processed, counts it, and moves the pointer to it |
| Poller.GapFillKeepsInv | components/LiveFeed.tsx:82-149 | gap fill keeps the invariant, and it leaves the feed alone when it applies nothing |
| Poller.GapFillBookkeeping | components/LiveFeed.tsx:113-117 | gap fill adds exactly the applied blocks, all new and distinct; the counter grows by their number; the pointer ends on the last one |
| Poller.TickBookkeeping | components/LiveFeed.tsx:156-163 | a tick keeps the invariant (blocksProcessed equals the size of the processed set, feed at most 50, backoff in [2000, 10000]); the processed set only grows, and no block is applied twice |
| Poller.BootstrapHealth | components/LiveFeed.tsx:36-79 | a failed tip fetch sets the error and reconnecting flags and doubles the backoff, with nothing applied; a null or already-seen tip changes nothing; a new tip is applied and resets the backoff, error, reconnecting and loading flags |
| Poller.GapFillHealth | components/LiveFeed.tsx:83-148 | a failed tip fetch doubles the backoff and sets reconnecting, keeping the error; a null or not-newer tip changes nothing; a finished walk resets backoff, error and reconnecting; a failed walk doubles the backoff; an unmounted walk resets nothing |
| Poller.TickDispatch | components/LiveFeed.tsx:156-168 | an unmounted tick does nothing and reschedules nothing; a truthy pointer gives gap fill, otherwise bootstrap; the next delay is the resulting backoff, scheduled exactly when still mounted |
| Poller.WalkStaysMounted | components/LiveFeed.tsx:104 | without an unmount, the walk never stops early for unmounting |
| Poller.NullBlockSkipped | components/LiveFeed.tsx:107-109 | a fetched block with a null number is skipped: the walk goes on from the next candidate with the state unchanged |
| Poller.BackoffAfterClosedForm | components/LiveFeed.tsx:75-78 | k capped doublings of a delay at most 10000 equal min(d * 2^k, 10000) |
| Poller.ConsecutiveFailures | components/LiveFeed.tsx:71-79 | after k failed ticks the backoff is min(backoff * 2^k, 10000), the pointer and feed are unchanged, and reconnecting is set |
| Poller.FailuresBackoff | components/LiveFeed.tsx:141-147 | k failed ticks keep the invariant and the mount, and the backoff is the k-fold capped doubling |
| Poller.FailedTick | components/LiveFeed.tsx:159-163 | a failed tick runs the gap-fill failure handler when the pointer is truthy and the bootstrap failure handler otherwise |
| Poller.BackoffFromBase | components/LiveFeed.tsx:28 | from the base delay, k failures give min(2000 * 2^k, 10000), which reaches the cap after three |
| Poller.WalkAppliedAmong | components/LiveFeed.tsx:103-106 | assuming every delivered block carries the number it was fetched by (`Honest`), every applied block is one of the candidates |
| Poller.WalkAscending | components/LiveFeed.tsx:103-136 | assuming every delivered block carries the number it was fetched by (`Honest`), ascending candidates are applied in strictly ascending order; the source itself applies whatever number the returned block carries |
| Poller.GapFillAscending | components/LiveFeed.tsx:92-136 | assuming every delivered block carries the number it was fetched by (`Honest`), gap fill applies at most 5 blocks, in strictly ascending order, each unprocessed and in (pointer, tip] |
| Poller.CandidatesOfFreshRange | components/LiveFeed.tsx:93-101 | when no number in range is processed, the candidates are the consecutive numbers from the start, up to `room` of them |
| Poller.WalkReliable | components/LiveFeed.tsx:103-136 | when every fetch succeeds, the walk over distinct unprocessed candidates applies them all and finishes |
| Poller.CatchUp | components/LiveFeed.tsx:82-140 | with reliable fetches and a fresh gap, one tick applies the next min(gap, 5) blocks in order, moves the pointer to the last and resets the backoff |
| Poller.SevenBlockGap | components/LiveFeed.tsx:92-101 | a gap of seven fresh blocks is closed in two ticks: the pointer is at +5 after the first and at +7 after the second, with all seven processed |
| Poller.NullGapBlockPassed | components/LiveFeed.tsx:109 | a missed block returned with a null number, followed by an applied block, stays unprocessed while the pointer passes it, so the next candidate list does not contain it |
| LiveFeed.CollectGapBlocks | components/LiveFeed.tsx:92-101 | the loop builds exactly the gap candidate list |
| LiveFeed.LiveFeedEngine.constructor | components/LiveFeed.tsx:18-29 | the fields hold the initial state, which satisfies the invariant |
| LiveFeed.LiveFeedEngine.ApplyBlockInPlace | components/LiveFeed.tsx:111-135 | for a number not processed before, the fields are updated exactly as applying the block prescribes, and the invariant is kept |
| LiveFeed.LiveFeedEngine.AcceptTip | components/LiveFeed.tsx:46-70 | a new tip is applied, then the backoff, error and reconnecting flags are reset and loading ends; the invariant is kept |
| LiveFeed.LiveFeedEngine.MarkRecovered | components/LiveFeed.tsx:138-140 | a completed path resets the backoff to 2000, clears the error and the reconnecting flag, changes nothing else, and keeps the invariant |
| LiveFeed.LiveFeedEngine.MarkFresh | components/LiveFeed.tsx:54-55 | marking a block's records adds exactly their hashes to the fresh set and changes nothing else |
| LiveFeed.LiveFeedEngine.FetchLatestBlock | components/LiveFeed.tsx:31-80 | the fields end in the bootstrap transition's state, and the invariant holds |
| LiveFeed.LiveFeedEngine.FetchMissedBlocks | components/LiveFeed.tsx:82-149 | the fields end in the gap-fill transition's state, and the invariant holds |
| LiveFeed.LiveFeedEngine.WalkInPlace | components/LiveFeed.tsx:103-136 | the loop over the blocks to fetch leaves the fields in the walk's state, returns how the walk ended, and keeps the invariant |
| LiveFeed.LiveFeedEngine.WalkStep | components/LiveFeed.tsx:104-135 | one iteration: a failed fetch ends in the walk's failure state; otherwise the rest of the walk from the next candidate reaches the same state and end as the walk from this one |
| LiveFeed.LiveFeedEngine.Poll | components/LiveFeed.tsx:156-168 | the fields end in the tick's state with the invariant kept, and the returned delay is the tick's reschedule decision |
| LiveFeed.LiveFeedEngine.Unmount | components/LiveFeed.tsx:172-175 | cleanup clears only the mounted flag, keeping the invariant |
| LiveFeed.LiveFeedEngine.ExpireFreshHash | components/LiveFeed.tsx:56-58 | the expiry removes only that hash from the fresh set, keeping the invariant |
| LiveFeed.LiveFeedEngine.UniqueBlocks | components/LiveFeed.tsx:178 | the distinct block count of the feed is at most its length, and at least 1 when it is non-empty |
| LiveFeed.LiveFeedEngine.IsFresh | components/LiveFeed.tsx:210 | definition: a record is highlighted as new while its hash is in the fresh set |

## Left out

- Network: the RPC client and the two block-fetch calls (lib/blockchain.ts:1-23) are replaced by the oracle inputs `tip` and `replies`.
- Timers: the 500 ms expiry of a fresh hash is the explicit event `ExpireFreshHash`; the delay itself, and when the event fires, are not modelled.
- Concurrency: the fetch started at mount alongside the first scheduled `poll` (components/LiveFeed.tsx:154, 170) is not modelled; ticks run one at a time, and an unmount is placed only at a fetch point.
- The timer handle and `clearTimeout`: `Poll` returns the next delay instead of scheduling it.
- React rendering and state plumbing, the header's connection indicator and the error banner, and the files `components/TransactionRow.tsx`, `components/Header.tsx`, `app/layout.tsx` and `app/page.tsx` are not part of this model.
- `formatEth` (lib/utils.ts:24-29) uses floating point and is not modelled.
- `Date.now()` is the parameter `now` of `FormatRelativeTime`.
- `console.error` logging is omitted.
- Blockchain.ExtractTransactionData: `Number(blockTimestamp) * 1000` is exact integer arithmetic, so the loss of precision of a double above 2^53 is not modelled.
- Utils.NatToString: counts are rendered as plain decimal digits; JavaScript's exponent notation for numbers of 10^21 and above is not modelled.
- Classifier.ToLower: only ASCII letters are case-mapped. JavaScript's `toLowerCase` also maps other letters, but none of them lower-cases to a selector character, so the classification is the same.
- Classifier.ClassifyTransaction: a lookup of an inherited object property is treated as a miss. The only such name of at most 10 characters is `"__proto__"`, for which `SELECTORS[selector]` returns `Object.prototype`; inputs are hex strings beginning "0x", which never lower-case to it.
- Utils.TruncateAddress: JavaScript's `length` and `slice` count UTF-16 code units while Dafny strings count Unicode scalar values, so the two differ only on characters outside the Basic Multilingual Plane; the same holds for `Classifier.Prefix` (`slice(0, 10)`).
- The processed set holds block numbers rather than their `toString()` keys; the conversion is injective.
- `currentBlockNumber` is kept as a field (`currentBlock`) but only its equality with the pointer is stated; its display is not modelled.
