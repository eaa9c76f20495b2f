# Koinos EVM: a verified model of the relay, the engine codecs, the V3 maths and the pixel canvas

The repository runs an EVM as a Koinos contract (the *engine*), puts an Ethereum JSON-RPC *relay* in front of it, and
adds a small UI with a Uniswap V3 front end and a shared pixel canvas. This project models the parts whose correctness
spans several functions or a whole run, and proves what they promise for all inputs, runs and reachable states.

`dafny verify dfyconfig.toml` checks everything.

| file | what it models |
|---|---|
| `Common.dfy`, `Radix.dfy` | options, results and bytes; numbers in any base |
| `NonceProtocol.dfy`, `NonceNode.dfy` | the operator-nonce protocol as a step relation, alone and against a well-behaved node |
| `Store.dfy`, `Indexer.dfy` | the durable tables with their two tiers of writers, and the history indexer over them |
| `Rlp.dfy`, `EngineTx.dfy`, `RelayTx.dfy` | RLP, the engine's strict transaction parser and the relay's lax decoder |
| `Base58.dfy` | Base58 with in-place division and multiplication, and Base58Check |
| `Proto.dfy`, `FieldLoops.dfy`, `Receipts.dfy`, `EngineCalls.dfy` | the two protobuf codecs, the submit handler with its events, and the relay's decoders |
| `History.dfy` | the indexer's reading of an entry, and a transaction's whole way from relay to engine to indexer |
| `TxMetaStore.dfy`, `TxMetaOrder.dfy`, `RateLimiter.dfy` | the two lazily evicted bounded structures, and when the first is its plain list |
| `TickMath.dfy`, `V3Math.dfy` | the V3 tick price, liquidity amounts, mint helper and single-tick quote |
| `PixelCanvas.dfy`, `Chunker.dfy` | the canvas contract with its word cache, and the page's greedy chunker |

## How the model relates to the code

* **Concurrency.** Every action that another actor of the nonce protocol can observe is one `Step`; a run is any
  sequence of enabled steps. The reconciler's two atomic loads are one step, storing the current time is one step, and
  the clock never goes back. A task can panic while it waits for the gate, holds it or records its success, but not
  between the node's Ok and the stored success time, where the code does nothing that panics.
* **The environment.** Hashes, checksums and signature recovery are functions given as parameters, shared by both
  sides; the node's replies, history pages, clock readings and the EVM's results are inputs of the runs.
  `alloy_rlp` is strict canonical RLP as in Appendix B of the Ethereum Yellow Paper.
* **State.** Objects that update fields are classes whose methods are specified by functions of the old state; the
  lemmas are about those functions and about whole runs of them. A reverted contract call is undone by the chain, which
  `PixelCanvas.SetPixels` writes out.
* **Numbers.** Integers are unbounded except where a width decides something: varints, field numbers, RLP lengths,
  scalars, Base58 bytes, ticks and buffer positions carry their bounds. Buffers are slices and so shorter than 2^64.
  Where a build may or may not check an overflow, both builds are modelled. The token bucket works on real numbers.
* **Panics.** A call that can panic ends in `Call`: `Returned` or `Panicked`. A panic while an entry is processed takes
  the indexer's cycle down, and the next cycle or process starts again from the cursor.

### Where the code does less than it says

* A swept bucket "has refilled to full anyway" only when a minute refills a whole burst:
  `RateLimiter.BoundedExactlyWhen` and `InvisibleExactlyWhen` give both directions.
* `TxMetaStore` can keep an older insertion and lose a newer one when a hash is removed and inserted again at one clock
  reading (`TxMetaOrder.EqualInstantsLoseNewer`); `AgreesExactlyWhen` gives the exact condition on a state.
* A reconciler slower than the quiet period allows lowers the cached nonce too far
  (`NonceNode.SlowReadLowersTooFar`), and the bound on the delays is exact (`ExactIffDelaysShort`).
* The relay's field iterator adds a claimed length to its position unchecked, and panics exactly when the sum leaves
  64 bits (`Proto.TakePanicsExactlyWhen`); eleven bytes do (`OverlongPanics`). Every loop over it returns exactly
  otherwise, and a history entry on which the indexer panics is never passed (`Indexer.NothingPassesPanic`).
* Base58 looks a character up by its low eight bits, so that a character above 255 passes for another
  (`Base58.WideCharacter`); `EncodeDecodeExactlyWhen` says for which strings encoding inverts decoding.
* Of several `raw_tx` fields the engine runs the last and the indexer records the first
  (`EngineCalls.TwoRawTxs`); `SameRawTxExactlyWhen` says when they agree.

## Model

| member | source | states |
|---|---|---|
| NonceProtocol.LoweringIsQuiet | koinos-evm/rpc/src/rpc.rs:750-795 | in every interleaving of handlers, submit tasks and reconciler, when the reconciler lowers the cached nonce no submit task is alive and every accepted submit is at least the quiet period old |
| NonceProtocol.ReconcilerDecides | koinos-evm/rpc/src/rpc.rs:758-795 | after a decision the cache is the chain's next nonce exactly when it was populated and the chain is ahead or level, or is behind with nothing in flight and the last acceptance at least the quiet period old; otherwise it is unchanged, and so is everything but gate and log |
| NonceProtocol.NextSubmitAfterResync | koinos-evm/rpc/src/rpc.rs:594-795 | in every run, after a decision made while the chain is ahead, the next submit carries the chain's next nonce, unless the counter is set again before it |
| NonceProtocol.EnterExactlyWhen | koinos-evm/rpc/src/rpc.rs:484-506 | a request gets a placeholder exactly when its hash has none and is not settled |
| NonceProtocol.FailedCanReenter | koinos-evm/rpc/src/rpc.rs:667-676 | after a refused submit its hash can enter again |
| NonceProtocol.AcceptedStaysKnown | koinos-evm/rpc/src/rpc.rs:645-678 | an accepted submit keeps its placeholder, so that its hash cannot enter again |
| NonceProtocol.SubmitOutcomes | koinos-evm/rpc/src/rpc.rs:645-678 | what each reply of the node does to its task, the cache and the log |
| NonceProtocol.ReadOutcomes | koinos-evm/rpc/src/rpc.rs:582-666 | what each answer to a nonce read does |
| NonceProtocol.AcceptedAdvances | koinos-evm/rpc/src/rpc.rs:680-687 | an acceptance moves a populated cache on by one |
| NonceProtocol.InflightCountsLiveTasks | koinos-evm/rpc/src/rpc.rs:484-563 | in every run the in-flight counter is the number of live submit tasks |
| NonceProtocol.SubmitsAreConsecutive | koinos-evm/rpc/src/rpc.rs:575-683 | between two resets a later submit's nonce is an earlier one's plus the acceptances in between, acceptances come in gate order, and no task submits more than twice |
| NonceProtocol.FreeGateCache | koinos-evm/rpc/src/rpc.rs:594-683 | with the gate free the cached nonce is what the log of resets and submits amounts to |
| NonceProtocol.OneOkPerHash | koinos-evm/rpc/src/rpc.rs:483-563 | without eviction every unsettled task past its handler has its placeholder, no two unsettled tasks share a hash, and no hash is accepted twice |
| NonceProtocol.EvictionAdmitsAgain | koinos-evm/rpc/src/rpc.rs:484-506 | and that condition is needed: from any state with the gate free, a run that evicts a hash goes on to its acceptance, whatever was accepted before |
| NonceProtocol.Reachable | koinos-evm/rpc/src/rpc.rs:443-795 | every reachable state keeps the gate, counter, quiet-period, log, attempt and turn invariants together |
| NonceProtocol.GateStep | koinos-evm/rpc/src/rpc.rs:484-506 | each step keeps the gate with the one request or reconciler that holds it |
| NonceProtocol.InflightStep | koinos-evm/rpc/src/rpc.rs:540-563 | each step keeps the counter equal to the live tasks |
| NonceProtocol.QuietStep | koinos-evm/rpc/src/rpc.rs:680-687 | each step keeps every acceptance covered by the stored time or by a task that has yet to store it |
| NonceProtocol.DedupeStep | koinos-evm/rpc/src/rpc.rs:484-534 | each step but eviction keeps unsettled tasks and stored placeholders in step, one per hash |
| NonceNode.CacheIsExact | koinos-evm/rpc/src/rpc.rs:575-683 | against a truthful node that admits only its next nonce and drops nothing, with inclusion plus read delay below the quiet period, a populated cache with the gate free is the node's next nonce and no submit can be refused for its nonce |
| NonceNode.ReconcilerLeavesCache | koinos-evm/rpc/src/rpc.rs:765-795 | with nothing overdue a stale chain read never makes the reconciler change the cache |
| NonceNode.SlowReadLowersTooFar | koinos-evm/rpc/src/rpc.rs:750-795 | whenever the delays reach the quiet period there is a run after which the cache is behind the node |
| NonceNode.ExactIffDelaysShort | koinos-evm/rpc/src/rpc.rs:1798-1821 | the cache is exact in every run if and only if inclusion plus read delay is below the quiet period |
| Store.Db.UpsertTx | koinos-evm/rpc/src/db.rs:185-214 | inserts a row or refreshes only its Koinos id |
| Store.Db.ReplaceLogs | koinos-evm/rpc/src/db.rs:278-311 | removes exactly the hash's log rows and appends the receipt's, numbered from the base |
| Store.Db.SettleReceipt | koinos-evm/rpc/src/db.rs:252-274 | a provisional settle, an error and no change when the row is missing |
| Store.Db.Index | koinos-evm/rpc/src/db.rs:317-417 | the authoritative write with indexes from the block's counters; it is skipped exactly when the row is indexed at the same height, or is a success that a failure would replace |
| Store.RunsKeepStore | koinos-evm/rpc/src/db.rs:252-417 | after any run of the writers indexed rows of a block have distinct indexes below the counter, disjoint contiguous log ranges below the log counter, and every log row agrees with its parent on the block |
| Store.SettleStep | koinos-evm/rpc/src/db.rs:252-274 | a provisional settle keeps all of these |
| Store.IndexStep | koinos-evm/rpc/src/db.rs:317-417 | an index write keeps all of these, at any height |
| Store.TileFresh | koinos-evm/rpc/src/db.rs:352-413 | indexing a new transaction keeps the indexes tiling 0..count with no gap |
| Store.CountedOnce | koinos-evm/rpc/src/db.rs:327-350 | when each hash has one height and no settle follows its indexing, repeated passes count each transaction once, the indexes tile 0..count, and a row is indexed exactly when some pass wrote it |
| Store.ReceiptsReadBack | koinos-evm/rpc/src/db.rs:529-581 | a re-relay changes no receipt; a settle changes exactly its own; an index write changes exactly its own, to what was written, if the row was not indexed, or its height differs and it was not a success or now is one, and nothing otherwise |
| Store.SuccessIsKept | koinos-evm/rpc/src/db.rs:336-350 | once indexed as a success a transaction stays one through re-relays and failed duplicates |
| Store.SuccessWins | koinos-evm/rpc/src/db.rs:336-350 | once some pass wrote a success for a hash, and no settle of it follows, it reads as a success |
| Store.SameHeightIsFinal | koinos-evm/rpc/src/db.rs:336-350 | a row indexed at a height is not rewritten at that height |
| Store.MetaReadsBack | koinos-evm/rpc/src/db.rs:187-244 | a transaction is read back with the body first written and the Koinos id written last, a skipped index write leaving it; no other changes |
| Store.BlocksOnlyGrow | koinos-evm/rpc/src/db.rs:352-364 | a block row keeps its first hash and time and its counters only grow |
| Indexer.Cursor.ProcessEntry | koinos-evm/rpc/src/indexer.rs:275-285 | what an entry comes to, once read, writes its transaction or nothing |
| Indexer.Cursor.ProcessPage | koinos-evm/rpc/src/indexer.rs:95-135 | one page moves the position by each entry's listed number, a missing one being zero, and the candidate and the freeze flag by its outcome, and writes them all up to a panic |
| Indexer.Cursor.Settle | koinos-evm/rpc/src/indexer.rs:104-135 | an entry that is non-EVM or lies at or below the LIB moves the candidate while nothing is frozen, and any other freezes it |
| Indexer.Cursor.ReadPages | koinos-evm/rpc/src/indexer.rs:65-140 | the page loop processes the pass from the cursor and stops at the end of the history, a failed request or a panic |
| Indexer.Cursor.RunCycle | koinos-evm/rpc/src/indexer.rs:49-159 | a cycle persists exactly the candidate of a completed pass and otherwise leaves the cursor |
| Indexer.MarkIsLeading | koinos-evm/rpc/src/indexer.rs:95-135 | the candidate passes exactly the leading entries that are non-EVM or lie at or below the LIB |
| Indexer.CursorIsFinal | koinos-evm/rpc/src/indexer.rs:61-147 | over all cycles, failures and restarts every entry at or below the cursor was non-EVM or processed in a cycle whose LIB covered its block |
| Indexer.CursorNeverRetreats | koinos-evm/rpc/src/indexer.rs:142-147 | no cycle moves the cursor back |
| Indexer.CursorStopsAtFirstOpen | koinos-evm/rpc/src/indexer.rs:92-147 | after a completed and persisted cycle every entry passed is non-EVM or lies at or below the LIB, and the first one not passed is neither |
| Indexer.PassReachesEnd | koinos-evm/rpc/src/indexer.rs:88-140 | a completed pass ends on a request that saw nothing beyond what it processed |
| Indexer.PageIs | koinos-evm/rpc/src/indexer.rs:65-95 | what the node answers a page request: the entries from a position on, as many as asked for while there are any, each under its number, zero left out |
| Indexer.PassReadsHistory | koinos-evm/rpc/src/indexer.rs:71-95 | every entry of a pass is what a page request saw at its position |
| Indexer.RereadsTail | koinos-evm/rpc/src/indexer.rs:65-140 | a completed cycle visits every entry above the cursor |
| Indexer.PassEndsAtPanic | koinos-evm/rpc/src/indexer.rs:95-135 | a pass ends with an entry that panics |
| Indexer.NothingPassesPanic | koinos-evm/rpc/src/indexer.rs:36-159 | an entry that always panics is never passed, and nothing behind it is ever visited, over all cycles and restarts |
| Indexer.IndexedExactlyOnce | koinos-evm/rpc/src/indexer.rs:49-159 | composed with the store: everything below the cursor is durably indexed and each transaction is counted exactly once however often it is re-read |
| Rlp.ReadLength | koinos-evm/rpc/src/eth_tx.rs:105-121 | accumulates a big-endian length |
| Rlp.ReadHeader | koinos-evm/rpc/src/eth_tx.rs:91-123 | the header's kind, start and length, or an error on truncated input |
| Rlp.ReadItems | koinos-evm/rpc/src/eth_tx.rs:61-79 | splits a payload into items, terminating on all input |
| Rlp.FromList | koinos-evm/rpc/src/eth_tx.rs:50-80 | a list's items, or an error for a non-list or a truncated one |
| Rlp.ItemsTile | koinos-evm/rpc/src/eth_tx.rs:61-79 | the items of every accepted payload tile it exactly, and none is empty |
| Rlp.SplitConcat | koinos-evm/rpc/src/eth_tx.rs:61-79 | splitting inverts concatenating any self-delimiting items |
| Rlp.ListRoundTrip | koinos-evm/rpc/src/eth_tx.rs:338-354 | `from_list` inverts `wrap_rlp_list` in short and long header form |
| Rlp.BytesDelimit | koinos-evm/rpc/src/eth_tx.rs:91-135 | what an encoder of strings writes delimits itself, and the lax reader reads it back |
| Rlp.ListDelimits | koinos-evm/rpc/src/eth_tx.rs:338-354 | what an encoder of lists writes delimits itself |
| Rlp.LaxTakesMore | koinos-evm/rpc/src/eth_tx.rs:91-123 | the lax reader finds a header exactly unless its bytes end; it takes a long form of nothing, which the strict reader refuses |
| Rlp.StrictIsCanonical | koinos-evm/engine/src/tx.rs:111-135 | an item the strict reader takes is the canonical encoding of its payload |
| Rlp.EncodingIs | koinos-evm/engine/src/tx.rs:322-362 | the encoder is RLP as its standard gives it: a small byte as itself, a length added to 128 or 192, or the length's own minimal big-endian bytes counted on top of 183 or 247 |
| Rlp.StrictSplitIsLax | koinos-evm/engine/src/tx.rs:111-135 | what the strict reader splits the lax one splits alike |
| EngineTx.DecodeScalar | koinos-evm/engine/src/tx.rs:263-302 | the accumulating scalar decoders: canonical, in range, and the value |
| EngineTx.BuildListWithTail | koinos-evm/engine/src/tx.rs:322-349 | the list builders write header, items and tail |
| EngineTx.AcceptedIsCanonical | koinos-evm/engine/src/tx.rs:91-256 | any accepted transaction is byte for byte the canonical re-encoding of its fields and signature |
| EngineTx.AcceptedBytes | koinos-evm/engine/src/tx.rs:91-256 | the same spelled out: the nine items of an EIP-155 transaction, the type byte and twelve items of an EIP-1559 one |
| EngineTx.SenderIsRecovered | koinos-evm/engine/src/tx.rs:152-256 | the sender of an accepted transaction is the one recovered from its own fields as EIP-155 or EIP-1559 sign them, written out item by item |
| EngineTx.AcceptedExactlyWhen | koinos-evm/engine/src/tx.rs:91-256 | the parser takes exactly the canonical encodings of well-formed transactions whose signature recovers, each to the transaction it encodes |
| EngineTx.RefusedBy | koinos-evm/engine/src/tx.rs:91-256 | with which error anything else is refused: no list, an unknown type, a wrong number of items, the first item or check that fails in order, or no sender |
| EngineTx.ItemFaults | koinos-evm/engine/src/tx.rs:263-320 | with which error an item is refused |
| EngineTx.Injective | koinos-evm/engine/src/tx.rs:91-256 | equal fields and signature mean equal bytes |
| EngineTx.CanonicalIsAccepted | koinos-evm/engine/src/tx.rs:111-256 | every well-formed transaction whose signature over its signed bytes recovers is accepted in canonical encoding with exactly its fields |
| EngineTx.ExactlyOneMirror | koinos-evm/engine/src/tx.rs:413-430 | of a signature and its mirror exactly one passes |
| RelayTx.BuildList | koinos-evm/rpc/src/eth_tx.rs:338-354 | the relay's list builder writes header and items |
| RelayTx.U64RoundTrip | koinos-evm/rpc/src/eth_tx.rs:143-153 | `decode_u64` inverts `rlp_encode_u64` |
| RelayTx.EncodersAgree | koinos-evm/rpc/src/eth_tx.rs:322-336 | the relay's integer encoder writes what the engine's does |
| RelayTx.WrapsAgree | koinos-evm/rpc/src/eth_tx.rs:338-354 | the relay's list wrapper writes what the engine's does |
| RelayTx.LegacyPreimagesAgree | koinos-evm/rpc/src/eth_tx.rs:242-254 | the EIP-155 signing preimages are identical |
| RelayTx.Eip1559PreimagesAgree | koinos-evm/rpc/src/eth_tx.rs:256-293 | the EIP-1559 signing preimages are identical |
| RelayTx.RelayAcceptsWhatEngineAccepts | koinos-evm/rpc/src/eth_tx.rs:29-293 | whatever the engine accepts the relay decodes to the same type, chain id, nonce, gas limit, to, value, data, signature and sender |
| RelayTx.RelaySenderIsRecovered | koinos-evm/rpc/src/eth_tx.rs:186-293 | on any bytes, the sender is the one recovered from what its kind signs: six items before EIP-155 (v of 27 and 28 meaning parity 0 and 1), the chain id and two zeros after them for EIP-155, the type byte and nine items for EIP-1559 |
| RelayTx.RelayFieldsAre | koinos-evm/rpc/src/eth_tx.rs:186-293 | which item each field is read from, for either kind |
| RelayTx.RelayTakesExactlyWhen | koinos-evm/rpc/src/eth_tx.rs:29-293 | the relay takes a transaction exactly when its items decode, v is 27, 28 or at least 35, and the sender recovers |
| RelayTx.NoListNoTransaction | koinos-evm/rpc/src/eth_tx.rs:29-80 | without a list nothing is taken |
| Base58.DivideInPlace | koinos-evm/rpc/src/state.rs:624-633 | one pass over the buffer is one long division by 58, in place |
| Base58.DivisionExact | koinos-evm/rpc/src/state.rs:624-633 | the quotient and remainder are those of the number in the buffer |
| Base58.DivisionLeads | koinos-evm/rpc/src/state.rs:624-633 | no spurious leading digit: at most one leading byte becomes zero, and then something is left |
| Base58.DivideOut | koinos-evm/rpc/src/state.rs:621-634 | the digits come out least significant first until the buffer is spent |
| Base58.Encode | koinos-evm/rpc/src/state.rs:611-638 | the text of the number's digits after one '1' for each leading zero byte |
| Base58.MultiplyInPlace | koinos-evm/rpc/src/state.rs:656-661 | the buffer becomes 58 times itself plus the digit, with the carry returned |
| Base58.PushDigit | koinos-evm/rpc/src/state.rs:656-666 | one character lengthens the number by at most one byte, so the buffer is never overrun |
| Base58.Decode | koinos-evm/rpc/src/state.rs:640-672 | the bytes of the number, or the first character outside the alphabet |
| Base58.DecodeEncode | koinos-evm/rpc/src/state.rs:611-672 | decoding inverts encoding on every byte string |
| Base58.EncodeDecode | koinos-evm/rpc/src/state.rs:611-672 | encoding inverts decoding on every string over the alphabet |
| Base58.EncodeDecodeExactlyWhen | koinos-evm/rpc/src/state.rs:609-672 | a string is decoded exactly when the low byte of each character is in the alphabet, and encoding gives it back exactly when each character is |
| Base58.WideCharacter | koinos-evm/rpc/src/state.rs:649-655 | a character above 255 is decoded as the '2' that its low byte is |
| Base58.AlphabetByDigit | koinos-evm/rpc/src/state.rs:609 | the digit characters are the alphabet |
| Base58.CheckRoundTrip | koinos-evm/rpc/src/state.rs:579-609 | Base58Check decode inverts encode for every version and payload |
| Base58.CheckDecodeIsEncoding | koinos-evm/rpc/src/state.rs:595-609 | what Base58Check accepts is the encoding of the payload it returns |
| Base58.CheckRefusesExactlyWhen | koinos-evm/rpc/src/state.rs:595-609 | which error a string gets: a bad character, fewer than five bytes, or another checksum |
| Proto.PushVarint | koinos-evm/engine/src/proto.rs:14-24 | the engine's writer appends the encoding |
| Proto.WriteVarint | koinos-evm/rpc/src/engine_proto.rs:33-39 | the relay's writer appends the same encoding |
| Proto.ReadVarintStrict | koinos-evm/engine/src/proto.rs:28-47 | the engine's reader: at most ten bytes and 64 bits, else none |
| Proto.ReadVarintLax | koinos-evm/rpc/src/engine_proto.rs:13-31 | the relay's reader: value or error, and how far it moved |
| Proto.VarintRoundTrip | koinos-evm/engine/src/proto.rs:14-47 | both readers take back exactly what either writer wrote, whatever follows |
| Proto.VarintIs | koinos-evm/engine/src/proto.rs:14-24 | what is written is the shortest varint: seven bits a byte, least significant first, the top bit set in all but the last |
| Proto.ReadersTake | koinos-evm/engine/src/proto.rs:28-47 | on any bytes, what either reader takes: a varint of at most ten bytes, for its value below 2^64 in the engine and for its value modulo 2^64 in the relay |
| Proto.FieldBytes | koinos-evm/rpc/src/engine_proto.rs:33-47 | a field's bytes: number and wire type, then the varint, or length and bytes; a zero and empty bytes left out by the engine; with the two examples of the protobuf documentation |
| Proto.EngineVarintReadsInRelay | koinos-evm/rpc/src/engine_proto.rs:13-31 | on any bytes, a varint the engine accepts reads alike in the relay |
| Proto.FieldsOfRaw | koinos-evm/rpc/src/engine_proto.rs:42-111 | a field list laid out field after field in a slice is read back by either iterator, without an error or a panic |
| Proto.EngineSkipsDefaults | koinos-evm/engine/src/proto.rs:55-80 | the engine's encoders lay out exactly the fields that are not default values |
| Proto.FieldsOfEngine | koinos-evm/engine/src/proto.rs:55-162 | what the engine writes is read back by either iterator without the default values |
| Proto.EngineFieldReadsInRelay | koinos-evm/engine/src/proto.rs:124-161 | on any bytes, the engine's next field is the relay's |
| Proto.LaxItemMoves | koinos-evm/rpc/src/engine_proto.rs:71-111 | unless it panics the relay's iterator moves, so that its loops end |
| Proto.TakePanicsExactlyWhen | koinos-evm/rpc/src/engine_proto.rs:91-100 | the length guard and the slice after it, with overflow checks or without: they panic exactly when position plus claimed length reaches 2^64, and otherwise compare the true end |
| Proto.OverlongPanics | koinos-evm/rpc/src/engine_proto.rs:91-100 | eleven bytes on which the relay's iterator panics, where the engine's finds no field |
| Proto.FieldIter.Next | koinos-evm/engine/src/proto.rs:124-161 | the engine's iterator yields the next field and its end, or stops |
| Proto.ProtoIter.Next | koinos-evm/rpc/src/engine_proto.rs:71-111 | panics exactly when the field is length-delimited and the position after its length plus that length reaches 2^64; otherwise yields a field or an error item, and moves |
| FieldLoops.RunEngineLoop | koinos-evm/engine/src/engine.rs:51-86 | the engine's field loop folds the fields up to the first malformed one |
| FieldLoops.RunFlatLoop | koinos-evm/rpc/src/rpc.rs:1340-1375 | the relay's flattened loop folds the well-formed fields, and panics exactly when some item overruns |
| FieldLoops.RunTryLoop | koinos-evm/rpc/src/engine_proto.rs:157-175 | the relay's failing loop folds the fields or fails at the first malformed one, and panics exactly when an overrun comes first |
| FieldLoops.FlatReturnsExactlyWhen | koinos-evm/rpc/src/rpc.rs:1340-1375 | a flattened loop returns exactly when no item overruns, and has then seen every well-formed field |
| FieldLoops.TryEndsBy | koinos-evm/rpc/src/engine_proto.rs:157-175 | a failing loop ends by the first item that is not a field |
| FieldLoops.DecodersSeeFields | koinos-evm/rpc/src/engine_proto.rs:42-111 | every kind of loop sees exactly the fields that were laid out |
| Receipts.PushField | koinos-evm/engine/src/proto.rs:50-80 | the engine's field writers, skipping default values |
| Receipts.Engine.EmitLogs | koinos-evm/engine/src/engine.rs:236-255 | one event per log, in order |
| Receipts.Engine.EmitResult | koinos-evm/engine/src/engine.rs:271-281 | one result event, its success flag written even when zero |
| Receipts.Engine.Reject | koinos-evm/engine/src/engine.rs:296-299 | a failure event before the failure bytes |
| Receipts.Engine.Respond | koinos-evm/engine/src/engine.rs:310-353 | events when committing, none otherwise, and the response bytes |
| Receipts.Engine.HandleSubmitRawTx | koinos-evm/engine/src/engine.rs:484-574 | every return path emits the events and bytes of its outcome |
| Receipts.OneResultEach | koinos-evm/engine/src/engine.rs:484-574 | every outcome emits exactly one `evm.result`, after the logs |
| Receipts.DecidedBy | koinos-evm/engine/src/engine.rs:484-574 | which check a submission fails, in order, with the values it reports, and otherwise what the EVM made of it |
| Receipts.DecodeReceiptEvents | koinos-evm/rpc/src/rpc.rs:1319-1390 | the relay's decoding loop with its per-transaction log index; panics exactly when the data of an EVM event overrun |
| Receipts.ReceiptReturnsExactlyWhen | koinos-evm/rpc/src/rpc.rs:1319-1390 | decoding returns exactly when none of the events it looks into overruns |
| Receipts.LogTravels | koinos-evm/rpc/src/rpc.rs:1355-1385 | a log arrives whole, empty data included |
| Receipts.ResultTravels | koinos-evm/rpc/src/rpc.rs:1334-1354 | the result event arrives with status, gas and created address, failures included |
| Receipts.ReceiptIsOutcome | koinos-evm/rpc/src/rpc.rs:1319-1390 | the relay's receipt says exactly status, gas used, created address and ordered logs of the outcome, whatever other events stand in between; each spelled out from the outcome |
| Receipts.DecodeEvmResult | koinos-evm/rpc/src/engine_proto.rs:157-175 | the relay's result decoder; panics exactly when an overrun comes before any malformed field |
| Receipts.ResponseIsOutcome | koinos-evm/engine/src/engine.rs:108-122 | the response bytes decode to the outcome |
| Receipts.EvmResultIs | koinos-evm/rpc/src/engine_proto.rs:157-175 | on any bytes, an error, a panic, or the last field of each number |
| Receipts.EventFieldsAre | koinos-evm/rpc/src/rpc.rs:1334-1385 | on any bytes that do not overrun, what a log and a result event decode to, by field number |
| EngineCalls.WriteBytesField | koinos-evm/rpc/src/engine_proto.rs:42-47 | the relay's field writer, whose 32-bit shift keeps the low 29 bits of a field number |
| EngineCalls.BuildCallViewArgs | koinos-evm/rpc/src/engine_proto.rs:205-225 | the fields that are present, in order |
| EngineCalls.ParseCallArgs | koinos-evm/engine/src/engine.rs:44-95 | the engine's argument parser |
| EngineCalls.CallArgsTravel | koinos-evm/engine/src/engine.rs:44-95 | the engine parses what the relay built to what was meant, absent arguments taking the engine's defaults |
| EngineCalls.ParsedArgsAre | koinos-evm/engine/src/engine.rs:44-95 | on any bytes, each argument is what the last field of its number and shape says, or the default |
| EngineCalls.EncodeAccount | koinos-evm/engine/src/engine.rs:413-434 | an account's fields, nothing for an absent one |
| EngineCalls.DecodeAccount | koinos-evm/rpc/src/engine_proto.rs:124-145 | the relay's account decoder; panics exactly when an overrun comes before any malformed field |
| EngineCalls.AccountTravels | koinos-evm/rpc/src/engine_proto.rs:124-145 | an account arrives whole, and an absent one stays absent |
| EngineCalls.DecodedAccountIs | koinos-evm/rpc/src/engine_proto.rs:124-145 | on any bytes, an error, a panic, or the last field of each number and size |
| EngineCalls.RawTxTravels | koinos-evm/rpc/src/engine_proto.rs:228-232 | engine and indexer unwrap the very bytes the relay submitted |
| EngineCalls.SameRawTxExactlyWhen | koinos-evm/rpc/src/indexer.rs:191-201 | on any arguments the indexer records the raw transaction the engine ran if and only if the first and last that the engine sees are equal, or neither side finds one and nothing overruns |
| EngineCalls.TwoRawTxs | koinos-evm/engine/src/engine.rs:485-493 | with two different ones the engine runs the second and the indexer records the first |
| EngineCalls.OnlyCanonicalExecutes | koinos-evm/engine/src/engine.rs:484-574 | only the canonical encoding of a transaction for this chain at its sender's next nonce is ever executed |
| EngineCalls.CanonicalExecutes | koinos-evm/engine/src/engine.rs:484-574 | and every such transaction is, once the relay submits it |
| History.FindRawTx | koinos-evm/rpc/src/indexer.rs:192-198 | the first well-formed raw transaction among the argument fields, or a panic on an overrun before it |
| History.ReadEntry | koinos-evm/rpc/src/indexer.rs:167-232 | an entry is not EVM, lacks its receipt, is a relayed transaction with its decoded receipt, or panics |
| History.ReadingPanicsExactlyWhen | koinos-evm/rpc/src/indexer.rs:167-232 | reading panics exactly when an argument field overruns before any raw transaction, or the transaction decodes and an EVM event of the receipt overruns; otherwise it is not EVM exactly when no raw transaction decodes, and lacks its receipt exactly when there is none |
| History.OverlongEntryPanics | koinos-evm/rpc/src/indexer.rs:192-198 | arguments that the engine refuses as empty and on which the indexer panics |
| History.IndexerSeesOutcome | koinos-evm/rpc/src/indexer.rs:167-232 | the whole way: what the relay submits and the engine executes and reports, the indexer reads as the same transaction with exactly that outcome |
| History.OutcomeIsSeen | koinos-evm/engine/src/engine.rs:284-299 | every submission, refused ones included, is read with exactly its outcome as long as the relay's decoder takes the transaction: as a success if and only if it was executed with success |
| History.ProcessEntry | koinos-evm/rpc/src/indexer.rs:167-285 | an entry from reading to writing: what it comes to, and the write of exactly that |
| History.AttemptExactly | koinos-evm/rpc/src/indexer.rs:167-285 | what an entry comes to, each outcome by an if-and-only-if: only an entry with no transaction that decodes is non-EVM, and one with a receipt and a known block is written under its hash, block and time |
| History.PassedOnlyOnceWritten | koinos-evm/rpc/src/indexer.rs:95-147 | the candidate passes an entry with a transaction that decodes only once it is indexed in the tables, in a block at or below the LIB |
| History.StoredReceiptIsOutcome | koinos-evm/rpc/src/indexer.rs:213-285 | end to end: the receipt read from the tables is the engine's outcome at the block's next indexes, unless one of the same block is there or it would undo a success, and no other receipt changes |
| TxMetaStore.TxMetaStore.constructor | koinos-evm/rpc/src/state.rs:350-357 | an empty store with room for at least one entry |
| TxMetaStore.TxMetaStore.Contains | koinos-evm/rpc/src/state.rs:359-361 | looks the hash up |
| TxMetaStore.TxMetaStore.Get | koinos-evm/rpc/src/state.rs:365-367 | returns a stored entry, expired or not |
| TxMetaStore.TxMetaStore.Add | koinos-evm/rpc/src/state.rs:369-374 | insert, queue and evict |
| TxMetaStore.TxMetaStore.SetKoinosTxId | koinos-evm/rpc/src/state.rs:377-381 | patches one field of an existing entry |
| TxMetaStore.TxMetaStore.Remove | koinos-evm/rpc/src/state.rs:383-386 | removes the entry and leaves its queue entry stale |
| TxMetaStore.TxMetaStore.Evict | koinos-evm/rpc/src/state.rs:393-418 | the two eviction loops, with the queue never empty where the second pops |
| TxMetaStore.InsertKeeps | koinos-evm/rpc/src/state.rs:369-418 | for any clock that does not go back, after an insert the table fits, every entry is queued and every queued entry is younger than the TTL |
| TxMetaStore.RunKeeps | koinos-evm/rpc/src/state.rs:340-419 | over every run the table fits, its entries are queued, and the queue is in time order and younger than the TTL |
| TxMetaStore.InsertRefines | koinos-evm/rpc/src/state.rs:369-418 | an insert does to the store what it does to the plain list (replace, append, drop expired, keep the newest) unless its hash is still queued at this instant |
| TxMetaStore.StoreIsListFrom | koinos-evm/rpc/src/state.rs:340-419 | from any state on the store does what the plain list of its live entries does |
| TxMetaStore.StoreIsList | koinos-evm/rpc/src/state.rs:340-419 | over every run in which no hash is inserted twice at one instant the store is the plain ordered list |
| TxMetaStore.LookupsAgree | koinos-evm/rpc/src/state.rs:359-367 | lookups answer exactly what the list holds |
| TxMetaOrder.EqualInstantsLoseNewer | koinos-evm/rpc/src/state.rs:393-418 | a run at one clock reading after which the store lost a newer insertion and kept an older one |
| TxMetaOrder.InOrderExactlyWhen | koinos-evm/rpc/src/state.rs:393-418 | eviction order and insertion order of the live entries are one exactly when first and last queue places order the hashes alike |
| TxMetaOrder.OrdersApart | koinos-evm/rpc/src/state.rs:408-418 | when they differ, inserting new hashes makes the store lose an entry that the list keeps |
| TxMetaOrder.AgreesExactlyWhen | koinos-evm/rpc/src/state.rs:340-419 | the store agrees with the list of its insertions after every ticking continuation if and only if first and last queue places order its live hashes alike |
| TxMetaOrder.RunAgreesExactlyWhen | koinos-evm/rpc/src/state.rs:340-419 | the same at the end of every run |
| TxMetaOrder.OrderlyInsert | koinos-evm/rpc/src/state.rs:369-418 | any insert, at whatever instant, does what it does to the list if what is left to trim is in that order |
| TxMetaOrder.OrderlyRunIsList | koinos-evm/rpc/src/state.rs:340-419 | over every run that trims only in that order the store is the plain list, whatever the clock |
| RateLimiter.RateLimiter.Allow | koinos-evm/rpc/src/limit.rs:82-112 | sweep when full, refill, and debit or refuse |
| RateLimiter.ServeKeeps | koinos-evm/rpc/src/limit.rs:82-112 | the map never exceeds its bound and tokens stay between zero and the burst |
| RateLimiter.TokensAt | koinos-evm/rpc/src/limit.rs:99-105 | a client's tokens are what it had plus the flow since, up to the burst |
| RateLimiter.GrantedExactlyWhen | koinos-evm/rpc/src/limit.rs:88-111 | a newcomer is turned away exactly when the map is full of clients seen within a minute; any other request is granted exactly when the client's tokens, written out, cover its cost |
| RateLimiter.DisabledGrantsAll | koinos-evm/rpc/src/limit.rs:73-85 | a limiter of rate zero grants every request of every run and keeps nothing |
| RateLimiter.New | koinos-evm/rpc/src/limit.rs:62-69 | the rate as given, and a burst that is the largest of burst, rate and one |
| RateLimiter.ServeSpends | koinos-evm/rpc/src/limit.rs:88-111 | a request takes what it is granted from its own client and touches nobody else's tokens |
| RateLimiter.AfterIsValid | koinos-evm/rpc/src/limit.rs:50-112 | over every run the map stays within its bound |
| RateLimiter.SpentFrom | koinos-evm/rpc/src/limit.rs:82-112 | in any interval a client is granted at most the burst plus rate times length |
| RateLimiter.BoundedExactlyWhen | koinos-evm/rpc/src/limit.rs:47-112 | for an enabled limiter that bound holds in every run if and only if a minute refills a whole burst |
| RateLimiter.PlaySame | koinos-evm/rpc/src/limit.rs:82-112 | beside an unbounded map every decision is the same, apart from newcomers refused when full |
| RateLimiter.InvisibleExactlyWhen | koinos-evm/rpc/src/limit.rs:47-112 | for an enabled limiter sweeping is invisible in every run if and only if a minute refills a whole burst |
| TickMath.Multiply | koinos-evm/ui/v3math.js:20-41 | the conditional steps multiply the constants of the tick's bits |
| TickMath.GetSqrtRatioAtTick | koinos-evm/ui/v3math.js:15-49 | the price of the tick wrapped to 32 bits, or an error out of range |
| TickMath.PriceWraps | koinos-evm/ui/v3math.js:16-18 | a tick in range has its own price, and so has any number a multiple of 2^32 off |
| TickMath.RatioInRange | koinos-evm/ui/v3math.js:20-41 | every intermediate ratio is in (0, 2^128] |
| TickMath.OppositeTicks | koinos-evm/ui/v3math.js:43-48 | the prices of t and -t multiply to 2^192 with an error from -2^64 to their sum |
| TickMath.FactorClose | koinos-evm/ui/v3math.js:20-41 | every constant is the power of the inverse square root of 1.0001 it stands for |
| TickMath.PriceIsPower | koinos-evm/ui/v3math.js:14-49 | for every tick up to zero the price is 1.0001^(tick/2) * 2^96 within two units |
| TickMath.PriceIsInversePower | koinos-evm/ui/v3math.js:14-49 | for every tick from zero on the price inverts that power within units of the two prices |
| V3Math.AmountsNotExceeded | koinos-evm/ui/v3math.js:61-104 | in all three price regions and either order of the ends, amounts recomputed from the derived liquidity never exceed the amounts supplied |
| V3Math.LiquidityIsLargest | koinos-evm/ui/v3math.js:72-81 | the liquidity of two amounts is the largest that both cover, each for its part of the range |
| V3Math.AmountsAreExact | koinos-evm/ui/v3math.js:83-104 | both amounts of a liquidity are the exact ones rounded down, for the part of the range above and below the price |
| V3Math.LiquidityForAmount0IsLargest | koinos-evm/ui/v3math.js:63-67 | the liquidity is the largest that amount 0 covers at the product of the prices rounded down |
| V3Math.LiquidityLoss | koinos-evm/ui/v3math.js:63-67 | what that rounding costs: the amount covers the liquidity exactly, and a liquidity it covers is above it by at most one unit and the amount over the width of the range |
| V3Math.LossAtLeastPrices | koinos-evm/ui/v3math.js:63-67 | between the prices 1 and 2 an amount that covers liquidity two is derived none |
| V3Math.LiquidityForAmount1IsLargest | koinos-evm/ui/v3math.js:68-71 | the liquidity is the largest that amount 1 covers, and its amount the exact one rounded down |
| V3Math.Amount0IsExact | koinos-evm/ui/v3math.js:83-87 | two roundings come to one: amount 0 is the exact amount rounded down |
| V3Math.QuoteSingleTick | koinos-evm/ui/v3math.js:115-135 | the quote of the specification that the next rows are about, or the error of a zero price |
| V3Math.FallQuoteIsBest | koinos-evm/ui/v3math.js:111-126 | the quote itself, from the original input: after three thousandths rounded against the trader, the next price is the least that covers the rest, and the output all that it leaves over |
| V3Math.RiseQuoteIsBest | koinos-evm/ui/v3math.js:111-132 | the same the other way: the next price is the greatest that is paid for; no answer exactly at price zero |
| V3Math.NothingQuoted | koinos-evm/ui/v3math.js:116-118 | without liquidity or input nothing moves |
| V3Math.FallIsBest | koinos-evm/ui/v3math.js:120-126 | token 0 in: the next price is the least that covers the input, and the output all that it leaves over |
| V3Math.RiseIsBest | koinos-evm/ui/v3math.js:127-132 | token 1 in: the next price is the greatest the input pays for, and the output all that it leaves over |
| V3Math.ProductNeverFalls | koinos-evm/ui/v3math.js:111-135 | neither direction lowers the virtual constant product |
| V3Math.NoGainFromRoundTrip | koinos-evm/ui/v3math.js:111-135 | swapping out and straight back at the returned price never yields more than was put in |
| V3Math.ComputeMint | koinos-evm/ui/v3math.js:140-164 | the mint helper, with the error of an empty range or a tick out of range after wrapping |
| V3Math.MintIs | koinos-evm/ui/v3math.js:140-164 | the kind by the price, the liquidity the largest that the deciding amount covers, and the amounts of that liquidity; nothing without the amount |
| V3Math.MintDefined | koinos-evm/ui/v3math.js:140-164 | a mint has no answer exactly when the range is empty and the amount it needs is given |
| V3Math.MintWithinProvided | koinos-evm/ui/v3math.js:140-164 | the amounts quoted for a mint never exceed the amount it was derived from, even for a range upside down |
| V3Math.TickMintWithinProvided | koinos-evm/ui/v3math.js:140-164 | the same for the prices of any two ticks |
| PixelCanvas.WriteRead | scripts/forge/src/PixelCanvas.sol:84-93 | a masked write is read back at its own byte and changes no other |
| PixelCanvas.PaintFlat | scripts/forge/src/PixelCanvas.sol:77-95 | painting the packed words is painting the flat canvas |
| PixelCanvas.LastWins | scripts/forge/src/PixelCanvas.sol:77-95 | a position gets its last color in the batch and every other pixel stays |
| PixelCanvas.PixelCanvas.Write | scripts/forge/src/PixelCanvas.sol:72-95 | the loop with its one-word cache equals one write after the other, or fails at the first entry out of range |
| PixelCanvas.PixelCanvas.SetPixels | scripts/forge/src/PixelCanvas.sol:62-100 | accepted: words, counters and log; refused: the first error and no change at all |
| PixelCanvas.PixelCanvas.GetCanvas | scripts/forge/src/PixelCanvas.sol:104-114 | byte p is the color at position p |
| PixelCanvas.PixelCanvas.GetPixel | scripts/forge/src/PixelCanvas.sol:117-120 | the same color, or an error out of range |
| PixelCanvas.PixelCanvas.SetPaused | scripts/forge/src/PixelCanvas.sol:123-125 | only the owner pauses |
| PixelCanvas.SetPixelsKeeps | scripts/forge/src/PixelCanvas.sol:62-100 | a call keeps the canvas, color, counter and cap invariants |
| PixelCanvas.RunsKeepCanvas | scripts/forge/src/PixelCanvas.sol:62-125 | over every run the canvas is the log replayed, every color is below 16, each artist's and each block's counter and the total count the pixels of the logged batches, and no block exceeds 1024 |
| PixelCanvas.RunIs | scripts/forge/src/PixelCanvas.sol:62-125 | from the calls alone: the deployer stays the owner, painting is paused exactly while the owner says so, and the log holds exactly the batches that could be painted when they came, under their senders |
| PixelCanvas.RefusedExactlyWhen | scripts/forge/src/PixelCanvas.sol:62-80 | a batch is taken exactly when not paused, with as many colors as positions, one to 128, room in the block and every entry in range |
| PixelCanvas.FirstBadIsFirst | scripts/forge/src/PixelCanvas.sol:77-82 | the error is that of the first entry out of range, the position coming first |
| Chunker.StillFits | koinos-evm/ui/quest.js:609-613 | the running estimate decides by the exact distinct-word count |
| Chunker.Chunks | koinos-evm/ui/quest.js:603-624 | the loop cuts the longest fitting prefix again and again |
| Chunker.ChunkPending | koinos-evm/ui/quest.js:603-624 | an order-preserving partition of the sorted pending set, every chunk within batch size and gas budget, and no contiguous partition under the same limits has fewer chunks |
| Chunker.GreedyStaysAhead | koinos-evm/ui/quest.js:600-624 | cutting any suffix greedily takes no more parts than any cutting of the whole |
| Chunker.AscendingSorts | koinos-evm/ui/quest.js:604 | the pending positions, each once, in increasing order |
| Chunker.FitsIsHereditary | koinos-evm/ui/config.js:145-184 | any contiguous part of a chunk within the limits is within them |
| Chunker.FitsExactlyWhen | koinos-evm/ui/config.js:167-184 | the limits in numbers |
| Chunker.ChunkAccepted | koinos-evm/ui/quest.js:626-650 | the contract refuses a chunk only while paused or when the block is full |
| Chunker.ChunkTouches | scripts/forge/src/PixelCanvas.sol:72-95 | painting a chunk writes the storage words counted for it and no other |
| Chunker.PendingPainted | koinos-evm/ui/quest.js:596-624 | painted chunk by chunk the canvas shows every pending color and is unchanged elsewhere |

## Left out

- HTTP and WebSocket servers, JSON rendering, CORS, environment parsing and the REST and JSON-RPC clients: plumbing.
- EVM execution, precompiles, Koinos system calls and the WASM entry shim: the EVM's result is an input.
- Cryptography: hashes, checksums and signature recovery are parameters, and a failing hash counts as a failing recovery.
- Bloom filters, the WebSocket log filter, `eth_codec.rs` and the Koinos transaction encoder: easy members beside the codecs.
- `PendingNonceStore`: its maximum rule and size cap would only add easy members.
- `query_logs`, the poller's queue and block queries: they read the tables whose invariants are proved.
- Base64 of event data: a receipt's data is the decoded bytes, or absent when it does not decode.
- Nonce overflow at 2^64, the i64 casts of the tables and checked-arithmetic overflow of the canvas counters are not modelled.
- Floating-point rounding of the token bucket.
- Log topics beyond the fourth, which the tables drop and the EVM cannot produce.
- A process killed in the middle of an indexer page is not told apart from an entry that panics there.
- The node's history pages are consecutive entries of one sequence, each listed under its number, with zero left out.
- Indexer.RereadsTail: needs a positive page size, because the loop with page size zero ends after one empty page.
- NonceNode.CacheIsExact: the relay starts with nothing of its own waiting for inclusion, the case that the first chain read serves.
- NonceProtocol.OneOkPerHash: holds while no placeholder is evicted from the metadata store, which the relay's cap and TTL make a matter of configuration.
- RelayTx.RelayAcceptsWhatEngineAccepts: the raw transaction is at most 2^63 - 1 bytes, the largest slice there is.
- Base58.EncodeDecode: for strings over the alphabet, where `EncodeDecodeExactlyWhen` shows it to hold.
- Store.CountedOnce: density after reorganisations, after one failed hash in two blocks, or after a provisional settle of an indexed row is not claimed, because the counters are not rewound.
- TxMetaStore.RunKeeps: no bound on the queue, which holds as many entries as were inserted within one TTL.
- V3Math.NoGainFromRoundTrip: negative prices are not modelled.
- TickMath.GetSqrtRatioAtTick: ticks are integers; fractions and numbers that a double cannot hold are not modelled.
- TxMetaOrder.AgreesExactlyWhen: hashes are byte strings of any length, where the source has 2^256 of them, so that a store never runs out of new ones.
- Strict monotonicity of the tick price, and the snapping of ticks to a spacing.
- The block pixel cap between chunks: the page does not spread its transactions over blocks.
