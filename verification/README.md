# Market-data ingestion: a verified model

A crypto market-data pipeline collects trades, candles and liquidations over WebSocket and REST, writes them
as immutable objects with append-only manifests, and decides later what is active, what is missing and what
may be deleted. This project models its stateful algorithms and proves what they promise over whole runs.

| files | what they model |
|---|---|
| `SessionProtocol`, `SessionTheorems`, `SessionTimeouts`, `RealtimeSession` | the bounded realtime session: a queue, a consumer, a closer and a six-state machine as atomic steps between awaits; the classes refine the steps |
| `LiquidationMerge`, `LiquidationGenerations`, `LiquidationStore`, `LiquidationWriter`, `LiquidationRecords` | cumulative, content-addressed generations of Binance liquidations and their crash-ordered commit |
| `TradeBuckets`, `TradeRollup`, `BucketBuilder`, `BucketColumns`, `Arithmetic` | the one-pass trade bucket builder, its published columns and the roll-up between widths |
| `Catalog`, `CatalogResolver`, `CatalogPrecedence`, `CatalogReferences` | which artifacts a log of manifest rows makes active, and which row decides a path |
| `Candles`, `BybitOhlcv`, `BinanceOhlcv`, `OhlcvAgreement`, `OhlcvPages`, `KlineGaps` | reverse and forward pagination against server models, their agreement, gaps between candles |
| `GapRegistry`, `LiquidationSoak`, `SoakTotals`, `SoakRunner` | the append-only gap registry and the retry supervisor of a liquidation stream |
| `TradeContinuity`, `GapRecovery`, `RecoverySources` | when fetched trades prove a gap filled, and the bounded recovery loop |
| `RetentionHolds`, `Retention`, `RetentionRules`, `RetentionBuckets` | holds, protection, the deletion run, and the paths of trade buckets |
| `RevisionChain`, `RevisionTargets`, `StopWidening` | acceptance of a signal's revision chain, and which stops it protects |
| `Reconciliation` | the classification of archive against WebSocket trades |
| `Common`, `Strings` | shared datatypes, Python's string order and search |

Conventions. A Python exception is an error value or a dedicated result. Code that updates objects in place is
a class or a method with a loop, and its contract ties it to a function on values; the laws are proved about
that function. Times are integers (milliseconds for candles, microseconds for trades, seconds for retention);
decimal prices and sizes are integers in units of 10^-18. Servers, clocks, disk space, generated identifiers and the
outcome of a write come from outside: they are parameters, so a theorem over them holds for every behaviour.
SHA-256 of a whole object is a free constructor, hence injective; the truncated hash in a generation name is an
arbitrary function, and the theorems that need it ask that distinct contents get distinct names (`CollisionFree`).

Where the code does less than its documentation says, the code is modelled, a lemma names the failing family,
and another says exactly when the promise holds:

- Closing a realtime session loses nothing if and only if no push is suspended and the consumer runs (or nothing is
  queued, or the consumer task is dead and CLOSED is out of reach): `SessionTheorems.CloseLosslessExactly`.
- Concurrent pushes stay in order if and only if none finds a free slot while another is suspended:
  `SessionTheorems.OrderKeptExactly`, `SessionTheorems.SealedInPushOrderExactly`.
- `close_session` from CONNECTING raises, because the transition table has no edge to DRAINING, and leaves the stop
  flag set: `SessionTheorems.FailedCloseStrandsLaterPush`.
- Bybit's page loop ends silently after 10000 pages: `BybitOhlcv.CompleteExactly`. Binance's raises:
  `BinanceOhlcv.CompleteOrSafetyLimit`.
- The content of a merged generation depends on the order of arrival, its name does not:
  `LiquidationGenerations.ContentConfluentExactly`.
- The catalog's comment (src/crypto_quant/storage/catalog.py:208-210) calls the latest record of a path
  authoritative.  A cumulative row beats every additive one, among cumulative rows the key that first appeared last
  decides, and a newer row of its key that omits the path withdraws a record:
  `CatalogPrecedence.LatestRecordWinsExactly` says when the latest record wins, `CatalogPrecedence.WinnerExactly`
  which record does, `CatalogResolver.LatestRecordCanLose` shows an instance.
- A soak gap is labelled with the last error before it is closed, which may be a later WRONG_SYMBOL:
  `LiquidationSoak.ReasonsRightExactly`.
- A stop may be widened across any interruption of a position -- another decision, a missing price, a cancelled
  stop -- and only there: `StopWidening.StopProtectedExactly`, with the instance `RevisionChain.DetourWidensStop`.
- Reconciling against an empty archive always proves coverage: `Reconciliation.EmptyArchiveProvesNothing`.
- Retention counts a file it could not remove as pruned: `Retention.CountsAgainstLedger`. It recognises sub-minute
  buckets by `granularity=1s` or `granularity=5s` in the path, while the bucket builder writes `bucket=1s`
  (src/crypto_quant/ingestion/trade_buckets.py:335); such buckets are kept for ever: `Retention.BucketKeptExactly`,
  `RetentionBuckets.BuilderBucketsAreKept`.
- A hold list that cannot be parsed reads as empty and is overwritten by the next hold:
  `RetentionHolds.UnreadableListForgetsHolds`.

## Model

| member | source | states |
|---|---|---|
| `SessionProtocol.StepKeepsInv` | src/crypto_quant/ingestion/realtime_session.py:220-289 | every atomic step keeps: the queue is bounded and is exactly the insertions not yet dequeued, in order; the counters count; the log plus the held envelope is what was dequeued; at most one segment is sealed, and only after the consumer ended without crashing |
| `SessionProtocol.ReachableInv` | src/crypto_quant/ingestion/realtime_session.py:159-289 | that invariant holds in every reachable state of a session |
| `SessionTheorems.InsertionsAreLogHeldQueue` | src/crypto_quant/ingestion/realtime_session.py:81-105 | in every reachable state the insertions are the log, then at most one dequeued envelope, then the queue; size and high watermark stay within capacity; written <= dequeued <= enqueued <= received |
| `SessionTheorems.PushesAreCounted` | src/crypto_quant/ingestion/realtime_session.py:220-228 | every accepted push is inserted, still suspended, or abandoned |
| `SessionTheorems.TerminalPhasesAbsorb` | src/crypto_quant/ingestion/realtime_session.py:43-50 | CLOSED and FAILED are never left, by any run |
| `SessionTheorems.CrashedSessionIsNeverSealed` | src/crypto_quant/ingestion/realtime_session.py:253-289 | after a consumer crash no run seals the segment or changes the log |
| `SessionTheorems.CloseLosslessExactly` | src/crypto_quant/ingestion/realtime_session.py:264-289 | from ACTIVE, every schedule after close_session that reaches CLOSED has every insertion and every accepted push in one sealed segment, if and only if at that moment no push is suspended and the consumer is running or the queue is empty, or the consumer task has died |
| `SessionTheorems.UnsafeCloseLoses` | src/crypto_quant/ingestion/realtime_session.py:264-289 | otherwise a run exists that reports CLOSED with an envelope missing from the segment |
| `SessionTheorems.DrainRun` | src/crypto_quant/ingestion/realtime_session.py:230-262 | after a stop request the running consumer has a schedule that empties the queue and ends |
| `SessionTimeouts.DrainTimeoutSeals` | src/crypto_quant/ingestion/realtime_session.py:276-282 | a drain timeout while DRAINING leaves a FAILED session with a cancelled consumer, no partial segment, the log unchanged and sealed in one segment, and queue, counters and suspended pushes as they were |
| `SessionTimeouts.TimedOutCloseSeals` | src/crypto_quant/ingestion/realtime_session.py:269-289 | from any reachable ACTIVE session, on any schedule before and after: a close that times out ends FAILED with every written line in one sealed segment, and leaves exactly the queue unwritten |
| `SessionTimeouts.TimeoutCanOccur` | src/crypto_quant/ingestion/realtime_session.py:276-282 | a run in which such a timeout occurs, with one line written |
| `SessionTimeouts.SafeCloseCompletes` | src/crypto_quant/ingestion/realtime_session.py:269-289 | a close with no push in flight and a running consumer has a schedule that reaches CLOSED and loses nothing |
| `SessionTimeouts.TransitionsExactly` | src/crypto_quant/ingestion/realtime_session.py:43-50 | a phase that is not terminal goes to the next one in line or to FAILED, and no other move is valid |
| `SessionTimeouts.WatermarkExactly` | src/crypto_quant/ingestion/realtime_session.py:96-99 | over every run from a fresh session the high watermark, of the queue and of the session, is the largest queue size there ever was |
| `SessionTimeouts.WriteExactly` | src/crypto_quant/ingestion/realtime_session.py:242-258 | one write, column by column: which outcomes leave the line in the log, count it, end the consumer and fail the session |
| `SessionTimeouts.PushExactly` | src/crypto_quant/ingestion/realtime_session.py:220-228 | one push, column by column: always received, inserted if there is room, else suspended behind the others |
| `SessionTimeouts.CloseBeginExactly` | src/crypto_quant/ingestion/realtime_session.py:269-289 | where a close goes first: it always asks the consumer to stop, drains an ACTIVE session, waits for a started consumer and otherwise seals at once |
| `SessionTheorems.OrderKeptExactly` | src/crypto_quant/ingestion/realtime_session.py:220-262 | for every run in which suspended pushes resume oldest first, none is cancelled and the envelopes are distinct: at the end everything offered is inserted, or waits, in the order offered, if and only if no push found a free slot while another was suspended |
| `SessionTheorems.SealedInPushOrderExactly` | src/crypto_quant/ingestion/realtime_session.py:220-289 | for such a run from a fresh session, closed with no push in flight and a running consumer: once CLOSED the log is the pushed sequence if and only if no push overtook another |
| `SessionTheorems.OrderedSessionConserves` | src/crypto_quant/ingestion/realtime_session.py:220-289 | concurrent pushes included: if none overtakes another, the close leaves exactly the pushed envelopes, in push order, in one sealed segment, and received, enqueued and written are that number |
| `SessionTheorems.SequentialSessionConserves` | src/crypto_quant/ingestion/realtime_session.py:220-289 | corollary: the same for a producer that awaits each push, which cannot overtake |
| `SessionTheorems.OrderedCloseConserves` | src/crypto_quant/ingestion/realtime_session.py:269-289 | the same from any state whose insertions are in push order |
| `SessionTheorems.ConcurrentPushesCanReorder` | src/crypto_quant/ingestion/realtime_session.py:220-228 | an overtaking schedule: with three concurrent pushes and a queue of one, the third takes the slot freed for the second |
| `SessionTheorems.FailedCloseStrandsLaterPush` | src/crypto_quant/ingestion/realtime_session.py:269-289 | close_session from CONNECTING raises but keeps the stop flag: a later accepted push is still queued when a second close reports CLOSED with nothing sealed |
| `RealtimeSession.BoundedWsEnvelopeQueue.Put` | src/crypto_quant/ingestion/realtime_session.py:81-99 | an insertion and its telemetry, as the queue step of the protocol |
| `RealtimeSession.BoundedWsEnvelopeQueue.Get` | src/crypto_quant/ingestion/realtime_session.py:101-105 | the head leaves the queue and is counted |
| `RealtimeSession.RawWsSegmentWriter.WriteEnvelope` | src/crypto_quant/ingestion/realtime_envelope.py:138-150 | a line is appended to the open partial segment, opened on demand; a failing write leaves the count unchanged |
| `RealtimeSession.RawWsSegmentWriter.Seal` | src/crypto_quant/ingestion/realtime_envelope.py:152-162 | the partial becomes the sealed segment; nothing happens without an open one |
| `RealtimeSession.RealtimeSessionLifecycle.TransitionTo` | src/crypto_quant/ingestion/realtime_session.py:193-218 | the phase changes exactly along VALID_TRANSITIONS, and nothing else does |
| `RealtimeSession.RealtimeSessionLifecycle.PushEnvelope` | src/crypto_quant/ingestion/realtime_session.py:220-228 | rejected exactly outside CONNECTING and ACTIVE; suspended exactly on a full queue; else inserted, with every counter |
| `RealtimeSession.RealtimeSessionLifecycle.ResumePut` | src/crypto_quant/ingestion/realtime_session.py:226-228 | a suspended push is inserted once a slot is free |
| `RealtimeSession.RealtimeSessionLifecycle.StartConsumer` | src/crypto_quant/ingestion/realtime_session.py:264-267 | starts the task, or a new one when the last has ended; a running consumer is left alone |
| `RealtimeSession.RealtimeSessionLifecycle.ConsumerTop` | src/crypto_quant/ingestion/realtime_session.py:232-240 | leaves the loop exactly on a stop request with an empty queue |
| `RealtimeSession.RealtimeSessionLifecycle.CancelPut` | src/crypto_quant/ingestion/realtime_session.py:225-226 | a push cancelled while suspended is never inserted; it stays counted as received |
| `RealtimeSession.RealtimeSessionLifecycle.ConsumerTake` | src/crypto_quant/ingestion/realtime_session.py:237-238 | the consumer takes the head of the queue |
| `RealtimeSession.RealtimeSessionLifecycle.ConsumerGetTimeout` | src/crypto_quant/ingestion/realtime_session.py:239-240 | an idle wait goes back to the loop head and changes nothing else |
| `RealtimeSession.RealtimeSessionLifecycle.ConsumerWrite` | src/crypto_quant/ingestion/realtime_session.py:242-258 | writes and counts the held envelope; an exception fails the session and ends the task |
| `RealtimeSession.RealtimeSessionLifecycle.CloseSession` | src/crypto_quant/ingestion/realtime_session.py:269-289 | the close up to its wait: stop flag, transition, seal at once without a consumer; raises exactly from CONNECTING |
| `RealtimeSession.RealtimeSessionLifecycle.CloseResumed` | src/crypto_quant/ingestion/realtime_session.py:275-289 | the close after its wait: sealed and CLOSED, sealed and FAILED after the drain timeout, or raised; a close that returns answers the segment that was open and leaves none open |
| `LiquidationMerge.FirstSeenIsFirst` | src/crypto_quant/ingestion/binance/liquidations.py:513-534 | `setdefault` keeps the row at the least index of its key |
| `LiquidationMerge.HeadContents` | src/crypto_quant/ingestion/binance/liquidations.py:536-548 | the merged generation is sorted, holds each key once and exactly the first observations |
| `LiquidationGenerations.ReadBack` | src/crypto_quant/ingestion/binance/liquidations.py:513-526 | reading all generations of a year back, in any file order, gives the first observations of the whole merge history |
| `LiquidationGenerations.MergeExtendsHistory` | src/crypto_quant/ingestion/binance/liquidations.py:508-561 | a merge succeeds and turns the directory of a history into the directory of the extended history, under the content-addressed name |
| `LiquidationGenerations.HeadsGrow` | src/crypto_quant/ingestion/binance/liquidations.py:513-561 | no row is ever lost or replaced by a later observation |
| `LiquidationGenerations.GenerationsChain` | src/crypto_quant/ingestion/binance/liquidations.py:508-561 | the generations of a directory form an inclusion chain |
| `LiquidationGenerations.MaxRowsIsHeadSize` | src/crypto_quant/ingestion/binance/liquidations.py:667-670 | the maximum row count over the existing files is the number of distinct keys merged so far |
| `LiquidationGenerations.ReportIsGrowth` | src/crypto_quant/ingestion/binance/liquidations.py:667-677 | one merge reports (rows of the merge minus the largest row count of the files before it, at least 0) exactly the distinct keys it adds |
| `LiquidationGenerations.NewRowsTelescope` | src/crypto_quant/ingestion/binance/liquidations.py:667-677 | the new rows so reported by all merges into a directory add up to the number of distinct keys ever merged |
| `LiquidationGenerations.MergeConfluent` | src/crypto_quant/ingestion/binance/liquidations.py:513-550 | histories with the same keys, in any order and with replays, end at the same sorted key list and name |
| `LiquidationGenerations.ContentConfluentExactly` | src/crypto_quant/ingestion/binance/liquidations.py:513-561 | the content, unlike the name, is confluent if and only if the histories agree on every first observation |
| `LiquidationGenerations.ArrivalOrderShowsInContent` | src/crypto_quant/ingestion/binance/liquidations.py:526-534 | two observations of one key in either order: same name, different content |
| `LiquidationGenerations.ReplayPublishesNothing` | src/crypto_quant/ingestion/binance/liquidations.py:549-552 | replaying rows of known keys publishes no generation and reports the same one |
| `LiquidationStore.RunsAreDurable` | src/crypto_quant/ingestion/binance/liquidations.py:626-763 | after any calls, each stopped by a crash before any of its writes, every manifest row resolves to raw and parquet objects with the recorded digests, no two rows share a (raw, parquet) key, and every checkpoint is backed by a manifest row |
| `LiquidationStore.PersistKeepsDurable` | src/crypto_quant/ingestion/binance/liquidations.py:637-763 | one call, stopped anywhere, keeps that and rewrites no published object |
| `LiquidationStore.PublishIsIdempotent` | src/crypto_quant/ingestion/binance/liquidations.py:549-561 | publishing the same batch again changes nothing and reports the same generation |
| `LiquidationStore.RetryConverges` | src/crypto_quant/ingestion/binance/liquidations.py:637-763 | whatever write a crash stopped at, retrying the batch ends in the store of an uncrashed call |
| `LiquidationStore.RunsKeepHistories` | src/crypto_quant/ingestion/binance/liquidations.py:626-763 | in every run with crashes the year directories stay directories of merge histories, so every retry in it converges |
| `LiquidationRecords.RefusedExactly` | src/crypto_quant/ingestion/binance/liquidations.py:578-618 | a batch is refused exactly for an unsupported symbol, low disk, a message that does not parse, or records of two UTC days, the first that applies being reported; an empty batch writes nothing |
| `LiquidationRecords.PreparedBatch` | src/crypto_quant/ingestion/binance/liquidations.py:612-631 | an accepted batch keeps one record per fingerprint, the first, and its ends are the earliest and latest trade time of those |
| `LiquidationRecords.CheckpointExactly` | src/crypto_quant/ingestion/binance/liquidations.py:742-763 | after any run with crashes, a completed call leaves a checkpoint of its symbol whose event time is the latest of the batch and whose total is the number of distinct keys ever merged into the year directory; other checkpoints stay |
| `LiquidationRecords.LatestOfAll` | src/crypto_quant/ingestion/binance/liquidations.py:630-630 | when copies of a wire frame carry one trade time, that latest time bounds every record of the batch |
| `LiquidationRecords.ManifestExactly` | src/crypto_quant/ingestion/binance/liquidations.py:679-740 | a completed call appends one manifest row, unless one with the same digests is there: row count = distinct fingerprints, total = size of the named generation, raw name from the earliest to the latest second, directory of the symbol and year, digests of the raw text and the file; the checkpoint names the same digests |
| `LiquidationRecords.AnswerExactly` | src/crypto_quant/ingestion/binance/liquidations.py:656-677 | a completed call answers with the number of distinct keys merged so far and how many of them are new |
| `LiquidationRecords.CompletesExactly` | src/crypto_quant/ingestion/binance/liquidations.py:567-771 | a call answers with counts exactly when it passes the checks, meets no raw object of other content, and is not stopped |
| `LiquidationRecords.GenerationOrder` | src/crypto_quant/ingestion/binance/liquidations.py:536-538 | a generation is sorted by trade time, then by fingerprint, without repetition |
| `LiquidationWriter.AddAll` | src/crypto_quant/ingestion/binance/liquidations.py:513-534 | one pass of `rows_by_key.setdefault` is the first-observation dictionary of what was seen |
| `LiquidationStore.UniqueIsFirst` | src/crypto_quant/ingestion/binance/liquidations.py:620-622 | a record survives the deduplication of a batch if and only if it is the first with its fingerprint |
| `LiquidationStore.UniqueFingerprintsMembers` | src/crypto_quant/ingestion/binance/liquidations.py:620-622 | every fingerprint of the batch survives, once |
| `LiquidationWriter.Unique` | src/crypto_quant/ingestion/binance/liquidations.py:620-622 | the loop over the batch computes that deduplication |
| `LiquidationWriter.PrepareBatch` | src/crypto_quant/ingestion/binance/liquidations.py:578-626 | everything before the first write: the symbol, disk and validation errors, one UTC date, deduplication |
| `LiquidationWriter.Writer.MergeAndWrite` | src/crypto_quant/ingestion/binance/liquidations.py:508-561 | the merge over the files of the directory, publishing only a name that is not there |
| `LiquidationWriter.Writer.PreviousRows` | src/crypto_quant/ingestion/binance/liquidations.py:667-670 | the largest row count of the existing files, 0 without any |
| `LiquidationWriter.Writer.Persist` | src/crypto_quant/ingestion/binance/liquidations.py:567-771 | the crash-ordered commit raw, parquet, manifest, checkpoint, stopped after any number of writes: the store it leaves and what it answers or raises, whose columns CheckpointExactly, ManifestExactly and AnswerExactly determine |
| `TradeBuckets.OnePassIsGroupBy` | src/crypto_quant/ingestion/trade_buckets.py:249-321 | for time-ordered trades the one-pass aggregation is the group-by: slots ascend strictly, every trade has a row, and each row summarises exactly the trades of its window (first, last, extremes that occur, counts and sums by side, sizes) |
| `TradeBuckets.TradeInExactlyOneRow` | src/crypto_quant/ingestion/trade_buckets.py:274-321 | each trade lies in the half-open window of exactly one row |
| `TradeBuckets.ColumnsConserved` | src/crypto_quant/ingestion/trade_buckets.py:310-319 | every additive column of the rows adds up to the sum over the trades |
| `TradeBuckets.AtMostOneDayOfRows` | src/crypto_quant/ingestion/trade_buckets.py:264-279 | trades of one day give at most 86400 / seconds rows |
| `TradeBuckets.FloatTruncationIsHarmless` | src/crypto_quant/ingestion/trade_buckets.py:274-276 | a microsecond lost when the timestamp passes through a float never changes the bucket, as long as whole seconds are exact |
| `TradeRollup.RoundHalfEvenExact` | src/crypto_quant/ingestion/trade_buckets.py:185-190 | the quantized average is roundTiesToEven (section 4.3.1 of IEEE 754-2008): the nearest multiple, ties to even, and the only one |
| `TradeRollup.MedianSplits` | src/crypto_quant/ingestion/trade_buckets.py:188-190 | at most half of the sizes lie strictly on either side of the median |
| `TradeRollup.SizeColumnsOrdered` | src/crypto_quant/ingestion/trade_buckets.py:185-191 | average and median never exceed the maximum size |
| `TradeRollup.CoarseIsRollUpOfFine` | src/crypto_quant/ingestion/trade_buckets.py:146-195 | for any source and any multiple of a width, the coarse rows are the roll-up of the fine rows in every combinable column |
| `TradeRollup.ApprovedWidthsRollUp` | src/crypto_quant/ingestion/trade_buckets.py:207-208 | 60 s rows from 1 s and from 5 s rows, 5 s rows from 1 s rows |
| `TradeRollup.CoarseRowJoinsFineRows` | src/crypto_quant/ingestion/trade_buckets.py:254-321 | each coarse row combines exactly the fine rows of its window: first open, last close, extremes, sums, maximum size |
| `TradeRollup.NoFineRowStraddles` | src/crypto_quant/ingestion/trade_buckets.py:274-277 | no fine window straddles two coarse ones |
| `TradeRollup.RollUpIsWindowJoin` | src/crypto_quant/ingestion/trade_buckets.py:254-321 | rolling up rows in ascending order is joining the rows of each window |
| `BucketBuilder.AcceptsExactly` | src/crypto_quant/ingestion/trade_buckets.py:207-325 | a source is accepted if and only if the width is approved, the trades are strictly ordered by (time, ordinal, id), all of the descriptor and the day, with known sides, as many as the manifest says and covering what it says |
| `BucketBuilder.AcceptedRows` | src/crypto_quant/ingestion/trade_buckets.py:249-325 | accepted sources publish between 1 and 86400 / seconds aligned, disjoint rows with low <= open, close <= high and counts that add up |
| `BucketColumns.ColumnsExactly` | src/crypto_quant/ingestion/trade_buckets.py:146-195 | every column of a published row from the trades with start <= time < end: counts, base and quote volumes by side and in total, deltas, first and last price, extremes that occur, the mean rounded by roundTiesToEven, the exact median, the largest size |
| `BucketColumns.EveryTradePublished` | src/crypto_quant/ingestion/trade_buckets.py:274-321 | every trade of an accepted source lies in exactly one published row |
| `BucketColumns.MedianExactly` | src/crypto_quant/ingestion/trade_buckets.py:188-190 | the median is the middle of the sizes in ascending order, or the mean of the two middle ones rounded half to even |
| `BucketColumns.AcceptedOrder` | src/crypto_quant/ingestion/trade_buckets.py:258-271 | an accepted source ascends strictly by time, then ordinal, then id, within one day |
| `BucketColumns.ErrorsExactly` | src/crypto_quant/ingestion/trade_buckets.py:207-325 | what is raised, in order: the width, a faulty trade, the count, the span |
| `BucketBuilder.Traverse` | src/crypto_quant/ingestion/trade_buckets.py:226-323 | the traversal with its running bucket stops at the first fault, else has the published rows and the trade count |
| `BucketBuilder.BuildBuckets` | src/crypto_quant/ingestion/trade_buckets.py:198-325 | the builder meets its specification, whose rows ColumnsExactly determines and whose errors ErrorsExactly does |
| `Catalog.ActiveDependsOn` | src/crypto_quant/storage/catalog.py:181-229 | what is active depends only on the publish rows in order and on what is removed or quarantined anywhere in the log |
| `Catalog.HidingRowsMove` | src/crypto_quant/storage/catalog.py:183-190 | removal and quarantine rows may be moved anywhere in the log |
| `Catalog.MoveOne` | src/crypto_quant/storage/catalog.py:183-190 | one such move, spelled out |
| `Catalog.HidingIsPermanent` | src/crypto_quant/storage/catalog.py:205-207 | a removed or quarantined object is never active again, whatever is appended |
| `Catalog.DerivedHasActiveSource` | src/crypto_quant/storage/catalog.py:218-229 | an active derived bucket that names a source hash has an active individual-trade object with that hash |
| `Catalog.LatestCumulativeExactly` | src/crypto_quant/storage/catalog.py:194-199 | a cumulative row is selected if and only if it is the latest publication of its generation key |
| `CatalogResolver.Scan` | src/crypto_quant/storage/catalog.py:181-197 | the first loop: quarantined names, removed references, additive rows, latest cumulative rows |
| `CatalogResolver.Choose` | src/crypto_quant/storage/catalog.py:200-217 | the second loop: the last selected publication of each reference that is not suppressed |
| `CatalogResolver.ResolveActiveArtifacts` | src/crypto_quant/storage/catalog.py:173-255 | answers exactly the active references with their winning records, every one present with its recorded hash, or names an active one that is missing or has another checksum |
| `CatalogReferences.ActiveExactly` | src/crypto_quant/storage/catalog.py:181-229 | over every log: a path is active if and only if no removal row names it, no quarantine row names its last component, something selected publishes it, and a derived bucket naming a source hash has an individual-trade path, itself neither removed nor quarantined, with that hash |
| `CatalogReferences.RemovalDeactivates` | src/crypto_quant/storage/catalog.py:143-154 | a removal row that lists a value ending in .parquet, in any case, as object id or among its superseded and deleted ids makes that path inactive, with forward slashes |
| `CatalogReferences.QuarantinedExactly` | src/crypto_quant/storage/catalog.py:183-187 | quarantine hides exactly the paths whose last component is that of a quarantined file |
| `CatalogReferences.PublicationsExactly` | src/crypto_quant/storage/catalog.py:115-128 | a row publishes its Parquet object id and its created files, in order, each with the recorded hash at its position |
| `CatalogReferences.SelectedExactly` | src/crypto_quant/storage/catalog.py:194-199 | of funding rates, open interest and liquidations only the last publication of each generation is selected; every publication of any other dataset is |
| `CatalogReferences.GenerationsExactly` | src/crypto_quant/storage/catalog.py:131-140 | two rows are generations of one thing exactly when these seven columns agree |
| `CatalogPrecedence.CumulativeInOrder` | src/crypto_quant/storage/catalog.py:194-199 | the selected cumulative rows stand in the order in which their generation keys first appeared in the log |
| `CatalogPrecedence.WinnerExactly` | src/crypto_quant/storage/catalog.py:199-217 | over every log and path: the winner is what the deciding row publishes -- the selected cumulative row publishing the path whose key appeared last, else the additive row written last -- and there is none without one |
| `CatalogPrecedence.LatestRecordWinsExactly` | src/crypto_quant/storage/catalog.py:199-217 | the record of a path written last wins if and only if it is additive and no selected cumulative row publishes the path, or it is the latest of its key and every other selected cumulative row publishing the path has a key that first appeared earlier |
| `CatalogResolver.AdditiveLatestWins` | src/crypto_quant/storage/catalog.py:199-217 | corollary for a path no cumulative dataset publishes: the record last in the log wins |
| `CatalogResolver.LatestRecordCanLose` | src/crypto_quant/storage/catalog.py:208-217 | an instance: three cumulative records of one path under two generation keys, and an earlier record wins |
| `BybitOhlcv.FetchFinal` | src/crypto_quant/ingestion/bybit/ohlcv.py:232-296 | against any server the requested upper bounds strictly decrease, so the "did not advance" error cannot be raised; what is returned is ascending, unique, inside [start, end) and closed by the cutoff |
| `BybitOhlcv.CompleteExactly` | src/crypto_quant/ingestion/bybit/ohlcv.py:236-296 | against a newest-first server honouring the limit the fetch returns all closed candles of the range if and only if the range holds at most 1000 candles for each of the 10000 pages, or its oldest candle is not closed; it never raises |
| `BybitOhlcv.HonestFetch` | src/crypto_quant/ingestion/bybit/ohlcv.py:236-296 | at any page, exactly the candles that the remaining pages cannot reach are missed |
| `OhlcvPages.PageAcceptedExactly` | src/crypto_quant/ingestion/bybit/ohlcv.py:278-290 | a page of the reverse fetch is taken if and only if every row lies in [start, cursor) and no kept open time repeats with other columns, in the page or against what is collected |
| `OhlcvPages.PageAddsExactly` | src/crypto_quant/ingestion/bybit/ohlcv.py:283-290 | and then adds exactly the rows of the half-open range closed by the cutoff |
| `OhlcvPages.CompleteContents` | src/crypto_quant/ingestion/bybit/ohlcv.py:232-296 | within ten million candles the reverse fetch holds exactly the candles of the store with start <= open < end and open + 1 min <= cutoff, for any cutoff |
| `BinanceOhlcv.FetchRestFinal` | src/crypto_quant/ingestion/binance/spot_ohlcv.py:581-621 | against any server the requested start times strictly increase below the end and at most 10000 requests are made; what is returned is ascending, unique and ended before the end |
| `BinanceOhlcv.CompleteOrSafetyLimit` | src/crypto_quant/ingestion/binance/spot_ohlcv.py:581-621 | against an oldest-first server of one-minute candles the fetch raises the safety limit exactly on an over-long range and otherwise returns every candle that ended before the end |
| `OhlcvPages.ForwardAcceptedExactly` | src/crypto_quant/ingestion/binance/spot_ohlcv.py:609-614 | a page of the forward fetch is refused if and only if an ended open time repeats with other columns |
| `OhlcvPages.ForwardContents` | src/crypto_quant/ingestion/binance/spot_ohlcv.py:581-621 | a forward fetch that returns holds exactly the candles of the range that ended before its end |
| `OhlcvAgreement.TraversalsAgree` | src/crypto_quant/ingestion/binance/spot_ohlcv.py:581-621 | over one store of one-minute candles a forward fetch that returns equals the reverse fetch of the same range cut off at its end |
| `KlineGaps.AcceptedKlinesTile` | src/crypto_quant/ingestion/binance/spot_ohlcv.py:250-256 | corollary of the definition: klines that pass the boundary check are equal or disjoint |
| `KlineGaps.BoundariesExactly` | src/crypto_quant/ingestion/binance/spot_ohlcv.py:250-256 | a kline passes if and only if it opens at a whole minute and closes one unit of its epoch before the next, in either unit |
| `KlineGaps.FindGaps` | src/crypto_quant/ingestion/binance/spot_ohlcv.py:386-407 | the gaps between consecutive rows, or an error exactly when a gap would start after its detection time |
| `KlineGaps.GapsExactly` | src/crypto_quant/ingestion/binance/spot_ohlcv.py:390-406 | a gap is recorded exactly between two neighbouring rows more than a minute apart, from a minute after the first to the second |
| `KlineGaps.MinuteIsRowOrMissing` | src/crypto_quant/ingestion/binance/spot_ohlcv.py:386-407 | for ascending aligned rows every minute from first to last is a row or missing, never both |
| `KlineGaps.MinuteInOneGap` | src/crypto_quant/ingestion/binance/spot_ohlcv.py:386-407 | a missing minute lies in one gap only |
| `KlineGaps.GapsAreOrdered` | src/crypto_quant/ingestion/binance/spot_ohlcv.py:386-407 | gaps are aligned, inside the span, and follow each other without touching |
| `KlineGaps.RowsAndGapsFillTheSpan` | src/crypto_quant/ingestion/binance/spot_ohlcv.py:386-407 | rows plus missing minutes equal (last - first) / 1 min + 1 |
| `GapRegistry.ListedExactly` | src/crypto_quant/ingestion/gap_registry.py:188-203 | the listing holds the last line of every gap exactly once, in order of first registration |
| `GapRegistry.IdsOnlyGrow` | src/crypto_quant/ingestion/gap_registry.py:177-200 | appending never delists a gap nor changes the order |
| `GapRegistry.FilteredListing` | src/crypto_quant/ingestion/gap_registry.py:200-203 | with a filter: exactly the gaps whose last state has the status |
| `GapRegistry.Registry.RegisterGap` | src/crypto_quant/ingestion/gap_registry.py:131-175 | appends one OPEN line under a fresh id and lists it last |
| `GapRegistry.OpenedExactly` | src/crypto_quant/ingestion/gap_registry.py:151-173 | a gap starts out open, with nothing attempted and nothing proven |
| `GapRegistry.Registry.ListGaps` | src/crypto_quant/ingestion/gap_registry.py:188-203 | the loop that rebuilds the dictionary computes that listing |
| `LiquidationSoak.GapsAccountExactly` | src/crypto_quant/ingestion/liquidation_soak.py:327-506 | for every sequence of attempts: one gap per failure other than WRONG_SYMBOL, from that failure to the next attempt that is not such a failure (or the end), plus one for a success with drops |
| `LiquidationSoak.GapsDoNotOverlap` | src/crypto_quant/ingestion/liquidation_soak.py:253-286 | under a clock that never goes back the disconnect gaps are ordered, do not overlap and end where the next relevant attempt begins |
| `LiquidationSoak.GappedExactly` | src/crypto_quant/ingestion/liquidation_soak.py:376-402 | the status is GAPPED if and only if a gap was recorded |
| `LiquidationSoak.DuplicatesExactly` | src/crypto_quant/ingestion/liquidation_soak.py:359-362 | duplicates are the hashes received minus the distinct ones, over the whole run |
| `LiquidationSoak.FailuresCounted` | src/crypto_quant/ingestion/liquidation_soak.py:429-439 | each attempt but a final success is a disconnect and an error; disconnects are intervals plus WRONG_SYMBOL rejects |
| `SoakTotals.CountersExactly` | src/crypto_quant/ingestion/liquidation_soak.py:348-358 | over any attempts, messages, events, persisted rows, connects, acks, parser and symbol rejects are the sums of those readings |
| `SoakTotals.DropGapExactly` | src/crypto_quant/ingestion/liquidation_soak.py:379-402 | a success that dropped messages adds a last gap over its connection, with their number; other runs add none |
| `SoakTotals.ReasonExactly` | src/crypto_quant/ingestion/liquidation_soak.py:240-250 | the reason of a failure: a symbol or topic mentioned in any case, then the kind of error, then a mention of a connection |
| `SoakTotals.MadeExactly` | src/crypto_quant/ingestion/liquidation_soak.py:327-330 | attempts are made in order while time is left, up to the limit, and stop at the first success only |
| `SoakTotals.ErrorListExactly` | src/crypto_quant/ingestion/liquidation_soak.py:434-439 | the error list holds the reason of every failed attempt, in order |
| `LiquidationSoak.ReasonsRightExactly` | src/crypto_quant/ingestion/liquidation_soak.py:366-376 | every gap names the failure that opened it if and only if no WRONG_SYMBOL failure directly follows such a failure |
| `LiquidationSoak.MaskedReason` | src/crypto_quant/ingestion/liquidation_soak.py:469-506 | the failing family: the gap of a lost connection is labelled WRONG_SYMBOL |
| `LiquidationSoak.SuchFailuresExist` | src/crypto_quant/ingestion/liquidation_soak.py:240-250 | the two failures of that family exist: an operating-system error, then an error that mentions a symbol |
| `SoakRunner.FiledAt` | src/crypto_quant/ingestion/liquidation_soak.py:263-286 | the gaps of a run are filed under consecutive fresh ids, each with its own interval and reason, UNRECOVERABLE |
| `SoakRunner.ReasonCodesDistinct` | src/crypto_quant/ingestion/liquidation_soak.py:240-250 | every reason has its own code |
| `SoakRunner.UnrecoverableGap` | src/crypto_quant/ingestion/liquidation_soak.py:253-286 | registers a gap, never ending before it starts, and leaves it listed as UNRECOVERABLE |
| `SoakRunner.CountHashes` | src/crypto_quant/ingestion/liquidation_soak.py:359-362 | the loop over the wire hashes counts the repeats |
| `SoakRunner.OnFailure` | src/crypto_quant/ingestion/liquidation_soak.py:417-484 | the except branch; `errors[-2]` is always defined |
| `SoakRunner.OnSuccess` | src/crypto_quant/ingestion/liquidation_soak.py:347-402 | the try branch: pending interval first, then the drop with its evidence |
| `SoakRunner.RunStream` | src/crypto_quant/ingestion/liquidation_soak.py:289-533 | the run reports the fold over the attempts it makes and leaves the registry listing, after what it listed before, every gap of the run as UNRECOVERABLE |
| `TradeContinuity.ProvenHasNoHole` | src/crypto_quant/ingestion/realtime_recovery.py:39-64 | a proven recovery fetched every trade id strictly between the edges |
| `TradeContinuity.ProvenExactly` | src/crypto_quant/ingestion/realtime_recovery.py:36-68 | for a gap with something in it the check holds if and only if all ids convert and none between the edges is missing |
| `TradeContinuity.ProvenNeedsEnoughItems` | src/crypto_quant/ingestion/realtime_recovery.py:59-63 | pigeonhole: a proven gap holds no more trades than were fetched |
| `RecoverySources.EmptyGapExactly` | src/crypto_quant/ingestion/realtime_recovery.py:51-63 | a gap with nothing in it is proven by a trade at or before its start and one at or after its end |
| `RecoverySources.EdgesAreNeeded` | src/crypto_quant/ingestion/realtime_recovery.py:36-41 | without both edges recorded as numbers, or without items, nothing is proven |
| `RecoverySources.ChosenExactly` | src/crypto_quant/ingestion/realtime_recovery.py:43-47 | the id of an item is its first present column of id, a, t, i |
| `GapRecovery.RecoveredIffProven` | src/crypto_quant/ingestion/realtime_recovery.py:229-275 | corollary of the definition: RECOVERED if and only if coverage is proven; UNRECOVERABLE if and only if the class is unsupported or nothing was fetched |
| `GapRecovery.SequenceCompleteHasNoHole` | src/crypto_quant/ingestion/realtime_recovery.py:127-167 | RECOVERED by `trade_id_sequence_complete`: every id strictly between the edges was fetched |
| `GapRecovery.LargerGapsAreNeverRecovered` | src/crypto_quant/ingestion/realtime_recovery.py:136-167 | no Binance server that honours the page limit gets a gap of more than 10 x 1000 trades recovered |
| `GapRecovery.HonestRecoversExactly` | src/crypto_quant/ingestion/realtime_recovery.py:127-207 | an honest contiguous Binance server recovers a gap if and only if it holds at most 10 x 1000 trades |
| `RecoverySources.BybitExactly` | src/crypto_quant/ingestion/realtime_recovery.py:209-221 | Bybit recovers a gap if and only if it answers at least one trade and at most 59 for spot, 999 otherwise |
| `RecoverySources.FixtureExactly` | src/crypto_quant/ingestion/realtime_recovery.py:111-120 | a fixture recovers a gap if and only if its ids prove it, or it is short and no id is recorded before the gap |
| `RecoverySources.AttemptRecords` | src/crypto_quant/ingestion/realtime_recovery.py:229-260 | what an attempt records, and that PARTIAL means items without proof |
| `RecoverySources.OtherDatasetsAreGivenUp` | src/crypto_quant/ingestion/realtime_recovery.py:90-97 | a dataset of neither kind of trades is given up without asking |
| `RecoverySources.FallbackExactly` | src/crypto_quant/ingestion/realtime_recovery.py:136-149 | an error answer sends individual trades to the fallback and aggregate ones nowhere; an id of 0 is not sent |
| `RecoverySources.BrokenPageIsPartial` | src/crypto_quant/ingestion/realtime_recovery.py:151-163 | a first page whose last item has no numeric id under its own column leaves the gap PARTIAL |
| `GapRecovery.FetchLoop` | src/crypto_quant/ingestion/realtime_recovery.py:135-163 | the paging loop meets its specification in at most ten requests |
| `GapRecovery.PerformGapRecovery` | src/crypto_quant/ingestion/realtime_recovery.py:71-275 | updates the gap in place and appends its new state to the registry |
| `RetentionHolds.DeactivateRemoves` | src/crypto_quant/ingestion/retention.py:115-122 | deactivating a hold takes exactly it out of the active ones |
| `RetentionHolds.HoldRegistry.AddHold` | src/crypto_quant/ingestion/retention.py:86-113 | a new active hold; list and event log keep agreeing |
| `RetentionHolds.HoldRegistry.RemoveHold` | src/crypto_quant/ingestion/retention.py:115-135 | true exactly for an active hold of that id, which alone stops applying; list and event log keep agreeing |
| `RetentionHolds.UnreadableListForgetsHolds` | src/crypto_quant/ingestion/retention.py:140-154 | corollary of the definition: a hold added while the list cannot be parsed leaves the list agreeing with the event log if and only if nothing was held before |
| `Retention.Store.Enforce` | src/crypto_quant/ingestion/retention.py:320-421 | a run over the scanned files: counts, remaining files and ledger lines; a dry run counts the same and changes nothing |
| `Retention.FilesConserved` | src/crypto_quant/ingestion/retention.py:357-397 | every scanned file is kept or deleted, never both |
| `Retention.LinePerDeletion` | src/crypto_quant/ingestion/retention.py:377-395 | one ledger line per deleted file |
| `Retention.CountsAgainstLedger` | src/crypto_quant/ingestion/retention.py:375-397 | the counts exceed the deletions by exactly the expired files that could not be removed |
| `Retention.DeletedExactly` | src/crypto_quant/ingestion/retention.py:357-397 | a file is deleted if and only if it was scanned, judged, strictly older than allowed, unprotected and removable; every other scanned file is kept |
| `RetentionRules.DeletedAfterPeriod` | src/crypto_quant/ingestion/retention.py:357-395 | in columns: a file goes if and only if it is judged, no active hold target, unresolved gap id or recorded conflict id occurs in its name, it can be removed, and it is older than days x 86400 seconds of its category |
| `RetentionRules.DefaultPeriods` | src/crypto_quant/ingestion/retention.py:226-231 | by default raw and realtime files are kept 30 days and marked buckets 90, to the second |
| `RetentionRules.CountsExactly` | src/crypto_quant/ingestion/retention.py:350-376 | each count is the number of expired files of its category |
| `RetentionRules.LedgerExactly` | src/crypto_quant/ingestion/retention.py:377-395 | one line per deleted file, in scan order, with its path, category and age |
| `Retention.NothingProtectedIsDeleted` | src/crypto_quant/ingestion/retention.py:357-375 | corollary: no deleted name contains an active hold target, an unresolved gap id or a recorded conflict trade id |
| `Retention.UnresolvedGapsProtect` | src/crypto_quant/ingestion/retention.py:335-339 | the last recorded state decides which gap ids protect |
| `RetentionRules.UnresolvedExactly` | src/crypto_quant/ingestion/retention.py:335-339 | a gap id protects if and only if the last state on record of its gap is open, partial or unknown |
| `RetentionRules.ConflictIdsExactly` | src/crypto_quant/ingestion/retention.py:341-348 | a trade id protects if and only if a reconciliation without proven coverage or without a match recorded it |
| `Retention.ConflictsProtect` | src/crypto_quant/ingestion/retention.py:341-348 | every discrepancy among the recorded ones of a reconciliation without proven coverage protects its key, which is a key that reconciliation found missing, extra or in conflict |
| `Retention.SecondRunDeletesNothing` | src/crypto_quant/ingestion/retention.py:371-397 | a second run at the same clock deletes nothing and counts only what could not be removed |
| `Retention.LaterRunSubsumes` | src/crypto_quant/ingestion/retention.py:371-397 | a run followed by a later one that protects no more leaves what the later one alone leaves |
| `Retention.LedgerGainsAdd` | src/crypto_quant/ingestion/retention.py:371-397 | both runs together write as many ledger lines as the later one alone would |
| `Retention.BucketKeptExactly` | src/crypto_quant/ingestion/retention.py:411-419 | a bucket old enough to go, unprotected and removable is kept if and only if its path carries neither granularity marker |
| `Retention.UnmarkedBucketsAreKept` | src/crypto_quant/ingestion/retention.py:411-419 | corollary: a bucket whose path carries neither marker is kept whatever its age |
| `RetentionBuckets.BucketPathIsUnmarked` | src/crypto_quant/ingestion/trade_buckets.py:326-337 | a path the bucket builder writes carries neither marker, unless a text put into it itself sets a key ending in y |
| `RetentionBuckets.BuilderBucketsAreKept` | src/crypto_quant/ingestion/retention.py:411-419 | no run ever deletes such a bucket, whatever its age |
| `RetentionBuckets.SecondBucketIsUnmarked` | src/crypto_quant/ingestion/trade_buckets.py:326-337 | an instance: the path of a 1 s bucket of BTCUSDT |
| `RevisionChain.ValidateRevisionChain` | src/crypto_quant/lifecycle.py:61-145 | the loop accepts a chain if and only if every revision fits: lineage, own times, order after its parent, allowed transition (TransitionsExactly), target (ProgressExactly) and stop |
| `RevisionChain.PrefixAccepted` | src/crypto_quant/lifecycle.py:69-125 | every non-empty prefix of an accepted chain is accepted |
| `RevisionChain.NewFirstTerminalLast` | src/crypto_quant/lifecycle.py:20-48 | NEW exactly first, terminal states only last, no unknown state anywhere |
| `RevisionChain.ExitIsFinal` | src/crypto_quant/lifecycle.py:47-48 | after EXIT_RECOMMENDED only EXIT_RECOMMENDED or a final terminal state |
| `RevisionChain.ChainIsMonotone` | src/crypto_quant/lifecycle.py:110-123 | revision times increase strictly and knowledge time never falls, across the whole chain; targets are compared by rank, which TargetNeverRegresses spells out |
| `RevisionTargets.TargetNeverRegresses` | src/crypto_quant/lifecycle.py:120-123 | across an accepted chain a target stays or moves on in NONE, TP1, TP2, TP3, and a known one never becomes unknown |
| `RevisionTargets.ProgressExactly` | src/crypto_quant/lifecycle.py:110-125 | a revision that passes every other check is accepted if and only if its target is the same or later |
| `RevisionTargets.TransitionsExactly` | src/crypto_quant/lifecycle.py:20-48 | the transition table by rule: what is never allowed, what each restricted state allows, and the eight moves left out; every other move is allowed |
| `RevisionTargets.ChainObeysTable` | src/crypto_quant/lifecycle.py:115-119 | no move within an accepted chain breaks that rule; nothing of an open position follows TP3_REACHED |
| `RevisionTargets.EndingsExactly` | src/crypto_quant/lifecycle.py:103-117 | an ended revision is the last and schedules no review |
| `RevisionTargets.LineageExactly` | src/crypto_quant/lifecycle.py:70-85 | one signal, numbers from 1, each revision the child of the one before, no id twice |
| `RevisionTargets.TimesExactly` | src/crypto_quant/lifecycle.py:87-108 | one creation time, expiry not before it, a review only after the revision and not after expiry |
| `RevisionTargets.TimesRefusedExactly` | src/crypto_quant/lifecycle.py:87-108 | well-formed times are refused exactly for these reasons |
| `RevisionChain.KnowledgePrecedesRevision` | src/crypto_quant/lifecycle.py:87-114 | knowledge_time[i] <= revision_time[j] for all i <= j |
| `RevisionChain.StopNeverWidens` | src/crypto_quant/lifecycle.py:128-145 | over any uninterrupted LONG (SHORT) run with priced, non-cancelled stops the stop never falls (rises) |
| `RevisionChain.DetourWidensStop` | src/crypto_quant/lifecycle.py:128-135 | an instance of an interruption: one revision neither LONG nor SHORT, and an accepted chain lowers a LONG stop |
| `StopWidening.StopProtectedExactly` | src/crypto_quant/lifecycle.py:128-145 | for every accepted chain and two revisions of one position, LONG or SHORT, with finite stop prices: no accepted chain that differs only in stop prices widens the stop between them if and only if the position is held, priced and uncancelled all the way |
| `StopWidening.InterruptedWidens` | src/crypto_quant/lifecycle.py:128-145 | across any interruption (a flip, another decision, a missing price, a cancelled stop) some accepted chain of the same shape widens the stop |
| `Reconciliation.ByKeyKeepsLast` | src/crypto_quant/ingestion/reconciliation.py:179-181 | of several trades with one key the last stays |
| `Reconciliation.ReconcileTradeDatasets` | src/crypto_quant/ingestion/reconciliation.py:143-307 | over the three lists, every counter is the size of its set of keys and the verdict follows from them |
| `Reconciliation.Classify` | src/crypto_quant/ingestion/reconciliation.py:194-260 | the loop body counts a key in exactly the counters whose sets hold it, and lists its discrepancies |
| `Reconciliation.Reconcile` | src/crypto_quant/ingestion/reconciliation.py:143-307 | every counter is the size of its set of keys, and the first 50 discrepancies in key order are recorded |
| `Reconciliation.ArchiveIsAccountedFor` | src/crypto_quant/ingestion/reconciliation.py:185-258 | a non-empty archive is missing plus exact plus conflicted, and conflicted <= field + side + timestamp <= 3 x conflicted |
| `Reconciliation.ConflictsExactly` | src/crypto_quant/ingestion/reconciliation.py:209-258 | column by column: a field conflict is another price or quantity, a side conflict two different sides both present, a time conflict two present times further apart than the tolerance; without any the key is exact |
| `Reconciliation.UnpairedExactly` | src/crypto_quant/ingestion/reconciliation.py:199-204 | a key one side lacks is missing, or extra when there is an archive |
| `Reconciliation.RestMissingExactly` | src/crypto_quant/ingestion/reconciliation.py:206-207 | a key is missing on the REST side only if that side answered at all |
| `Reconciliation.ProvenIffAllExact` | src/crypto_quant/ingestion/reconciliation.py:264-269 | corollary of the definition: coverage is proven if and only if every archive trade was matched exactly, which is when each is in the websocket data without a conflict |
| `Reconciliation.EmptyArchiveProvesNothing` | src/crypto_quant/ingestion/reconciliation.py:259-269 | corollary of the definition: with an empty archive coverage is always proven and every websocket trade counts as exact |
| `Reconciliation.SwapSymmetric` | src/crypto_quant/ingestion/reconciliation.py:194-258 | corollary of the definition: swapping two non-empty sides swaps missing with extra and keeps every match and mismatch |
| `Reconciliation.OnlyTheArchiveDecides` | src/crypto_quant/ingestion/reconciliation.py:199-269 | trades only the websocket or REST side has do not change the verdict on a non-empty archive |
| `Reconciliation.DetailsExactly` | src/crypto_quant/ingestion/reconciliation.py:199-255 | the discrepancy list names every missing, extra and conflicting key once per category, and its length is the sum of those counters |

## Left out

- HTTP, WebSocket, Parquet, gzip, DuckDB and JSON encoding; retries inside one REST request are part of the server's answer.
- SessionProtocol.ReachableInv: a run starts its consumer once; what holds after an ended consumer task is started again is not stated (RealtimeSession.RealtimeSessionLifecycle.StartConsumer models the restart itself).
- SessionTheorems.OrderKeptExactly: that asyncio wakes the oldest suspended push first is asked of the run, not derived from the event loop.
- RealtimeSession.BoundedWsEnvelopeQueue.Put: the `timeout` argument of `put`, which the session never passes, wait counters and durations, and the writer lag are not modelled; a push cancelled while suspended is.
- RealtimeSession.RawWsSegmentWriter.WriteEnvelope: byte counts and the name of a segment are not modelled; the log is one sequence of envelopes.
- RealtimeSession.RealtimeSessionLifecycle.TransitionTo: timestamps and reasons recorded with a transition are not modelled.
- RealtimeSession.RealtimeSessionLifecycle.ConsumerWrite: what the normalizers put in a batch, and the count of normalized records, are not modelled, only whether they raise.
- SessionTheorems.DrainRun: shows that a draining schedule exists; that the event loop runs it before the drain timeout is a matter of timing.
- LiquidationWriter.Writer.Persist: fsync followed by a rename, and the append of one manifest line, are atomic; a torn last line of the manifest is not modelled.
- LiquidationWriter.PrepareBatch: parsing a message is a parameter that yields a record or an error.
- TradeRollup.RoundHalfEvenExact: the sum and the division of the average are exact here; Python's Decimal first rounds both to 28 significant digits, which agrees while they fit.
- TradeBuckets.OnePassIsGroupBy: microsecond times that pass through a float may lose their last digit (TradeBuckets.FloatTruncationIsHarmless says why the bucket is the same); the order check then sees the rounded time.
- BucketBuilder.BuildBuckets: provenance checks of the source object (hash, descriptor, path) and writing the output file are not modelled.
- CatalogResolver.ResolveActiveArtifacts: the check that a reference stays under the data root, symbolic links, and names that end in a slash are not modelled; the order of the result by path is that of a map.
- The mapping of a manifest row to its dataset class (src/crypto_quant/storage/catalog.py:85-112): a row carries its class.
- BybitOhlcv.FetchFinal: the raw pages returned beside the candles, and the envelope checks of a response, are not modelled; a rejected response is a refused request.
- BybitOhlcv.CompleteExactly: candles are compared as rows with an integer open time; text that is not a number is a refused request.
- BinanceOhlcv.CompleteOrSafetyLimit: asks for opens at least a minute apart that close a millisecond before the next minute, which is what the boundary check of the normalizer enforces later.
- KlineGaps.FindGaps: times are whole milliseconds, where the source's float arithmetic is exact; identifiers of a gap are its start.
- GapRegistry.Registry.ListGaps: blank lines, parsing and legacy gap types are not modelled.
- SoakRunner.RunStream: a cancelled task, an exception while a success is being recorded, first and last event times, and the incident and session logs are not modelled.
- LiquidationSoak.ReasonsRightExactly: upper-casing is that of ASCII letters.
- The reconnect delay and its jitter, disk and memory gates, and the writer lease.
- GapRecovery.PerformGapRecovery: notes, timestamps, source names, first and last recovered ids, and the file of recovered items are not modelled.
- GapRecovery.SequenceCompleteHasNoHole: nothing is claimed for `timestamp_range_bounded` and `recent_trade_window_bounded`, which do not look at ids.
- TradeContinuity.ProvenExactly: JSON ids are integers, numeric text, empty text or other text; booleans and floats are not modelled.
- Retention.Store.Enforce: resolving the semantic age from manifest, name or file time is a parameter; a failing append to the ledger after a file was removed is not modelled.
- Retention.ConflictsProtect: keys only among discrepancies beyond the first 50 (src/crypto_quant/ingestion/reconciliation.py:301) are not recorded and not protected.
- RevisionChain.ValidateRevisionChain: which of several faults is reported is modelled in the order of the source but not part of the contract; stop prices are finite or not a number.
- Reconciliation.Reconcile: extraction of keys and columns from an item, the match rate (a rounded float) and the other fields of the record are not modelled.
- The Bybit liquidation and open-interest merges, which overwrite equal keys and read generations in file-name order, and Bybit's open-interest cursor pagination.
- Field-by-field normalizers, schemas, identities, configuration, logging and the health reports, which would only add easy members.
- LiquidationRecords.CheckpointExactly: the latest time is that of the first record of each fingerprint, which is what the source takes; LatestOfAll says when it is the latest of all.
- BucketColumns.ErrorsExactly: which of its three faults a faulty trade raises is modelled in the order of the source but not part of the contract.
