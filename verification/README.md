# Verified models of go-juchain

Dafny models of the parts of go-juchain where state, arithmetic or concurrency decide correctness, and
proofs of what those parts promise. `dafny verify dfyconfig.toml` checks the whole project.

| component | modules |
|---|---|
| shared entities | `Types` |
| transaction pool | `Heap`, `TxTypes`, `TxSortedMap`, `TxList`, `PricedList`, `PoolState`, `Sums`, `PendingLevels`, `PoolBook`, `TxPool` |
| chain selection | `ChainTree`, `HeaderChain`, `CommonAncestor`, `BlockChain` |
| consensus rules and accounting | `HeaderRules`, `HeaderVerifier`, `Uncles`, `StateDb`, `Gas` |
| sparse bitset codec | `BitsetCodec` |
| peer admission and multiplexing | `Protocols`, `Dialer`, `Server` |

How the models read:

- Code that updates an object is a class whose methods are proved against functions on values; concurrent
  code is a state machine over its atomic steps; straight-line computations are functions.
- `PoolBook` holds snapshots of the transaction pool and what each operation does to one; a method of the
  pool names the snapshots it goes through as ghost results.
- A loop over a Go map visits its keys in an arbitrary order (`:|`). The coin of a tie between equally
  heavy chains, cache evictions, clocks, the nodes a table offers and the verdict on a seal are inputs.
- Hashes are collision-free: `txOf` and `headerOf` give the one transaction or header behind a hash. A
  missing canonical entry and the zero hash are one thing, and no header hashes to it.
- Where wrap-around matters (gas pool, intrinsic gas, gas limits, receipts) arithmetic is on 64 bits;
  block numbers, nonces, difficulties and balances are unbounded.
- The virtual machine is an arbitrary function that conserves balances, overdraws nobody, returns no more
  gas than it was given and never takes back the nonce of an account among the senders.
- `HeaderChain` assumes headers numbered one above the parent their hash names. `BlockChain` assumes
  that a written block passed `HeaderRules.VerifyHeader` with its seal against the parent its hash names.
- That a chain carries no transaction twice is an assumption of `BlockChain`; `Gas.Process` proves the
  reason for it, that no sender spends a nonce twice.

Where code and comment differ the model follows the code: the queue overflow stage announces that it drops
the oldest transactions (core/tx_pool.go:1116) but drops those of the accounts heard of most recently first.

Three properties that one might expect do not hold, and the exact condition is proved instead: a chosen gas
limit can fail the header check when the target is small (`HeaderRules.ChosenLimitAccepted`,
`HeaderRules.LowTargetRefused`), compressing a decompressed block does not always return the input
(`BitsetCodec.RawBlockLost`, `BitsetCodec.CompressDecompress`), and an aborted header verification can leave a
worker behind (`HeaderVerifier.AbortStrandsIff`).

## Model

| member | source | states |
|---|---|---|
| `BitsetCodec.DecodeEncode` | common/bitutil/compress.go:71-97 | decoding an encoding at the original length returns the data, for every byte string |
| `BitsetCodec.EncodeDecode` | common/bitutil/compress.go:115-125 | whatever the decoder accepts for a length re-encodes to exactly the bytes it was given |
| `BitsetCodec.AcceptedAreEncodings` | common/bitutil/compress.go:115-170 | the decoder accepts an input for a length if and only if it is the encoding of some data of that length |
| `BitsetCodec.DecodePartialEncode` | common/bitutil/compress.go:130-170 | non-zero data decodes from its encoding whatever bytes follow, and the decoder says how many it used |
| `BitsetCodec.EncodeDecodePartial` | common/bitutil/compress.go:130-170 | re-encoding what a level decoded gives back just the bytes that level consumed |
| `BitsetCodec.DecompressCompress` | common/bitutil/compress.go:60-111 | decompressing a compressed block at its own length returns it |
| `BitsetCodec.CompressDecompress` | common/bitutil/compress.go:60-111 | compressing a decompressed block returns the input exactly when the input is shorter than the target or a raw block the encoder cannot shorten |
| `BitsetCodec.RawBlockLost` | common/bitutil/compress.go:60-111 | the raw block [0] decompresses to [0], which compresses to nothing, so the round trip from that side fails |
| `BitsetCodec.EncodeBytes` | common/bitutil/compress.go:71-97 | the encoder that fills its bitset in place writes exactly the stored form: nothing for zeros, a byte for itself, otherwise the stored form of the bitset, most significant bit first, and then the non-zero bytes in order |
| `BitsetCodec.DecodePartialBytes` | common/bitutil/compress.go:130-170 | the decoder that writes its output in place returns data of which the consumed bytes are the stored form, and finds whatever non-zero data has its stored form in front of the input |
| `BitsetCodec.CompressBytes` | common/bitutil/compress.go:60-66 | a shorter result is the stored form of the data; otherwise the data comes back as it is and no stored form of it is shorter; in both cases it decompresses to the data |
| `BitsetCodec.DecompressBytes` | common/bitutil/compress.go:102-111 | a longer input is refused, one of the target length is returned as it is, and a shorter one gives exactly the data of the target length of which it is the stored form, or an error |
| `BitsetCodec.MarkBytes` | common/bitutil/compress.go:83-92 | digit k of byte j of the bitset, the most significant first, is one exactly when byte 8j+k of the data is non-zero; the bytes are the non-zero ones by increasing position |
| `BitsetCodec.EncodeFormat` | common/bitutil/compress.go:40-55 | an output is the stored form of some data if and only if it is its encoding, so the format has exactly one form for each data |
| `BitsetCodec.DecodeFormat` | common/bitutil/compress.go:115-125 | the decoder returns some data if and only if it has the target length and the input is its stored form |
| `BitsetCodec.DecodeErrors` | common/bitutil/compress.go:144-170 | the decoder fails where the bitset does, or at the first set bit whose byte is missing, has no place in the target or is zero, with that reason, and otherwise succeeds |
| `BitsetCodec.SparseBlock` | common/bitutil/compress.go:60-97 | the block 5, 0, 0, 0 compresses to 0x80, 5 |
| `Heap.PushCorrect` | core/tx_list.go:38-40 | sift-up after a push leaves a heap of the old elements and the new one |
| `Heap.PopCorrect` | core/tx_list.go:42-48 | popping a heap takes out an element that none is less than and leaves a heap of the others |
| `Heap.RemoveCorrect` | core/tx_list.go:152-170 | removing at any position leaves a heap of the other elements |
| `Heap.InitCorrect` | core/tx_list.go:102-123 | building a heap from an arbitrary slice permutes it into heap order |
| `TxSortedMap.SortedMap.Put` | core/tx_list.go:73-79 | the map gains or replaces the nonce; index and cache stay coherent with it |
| `TxSortedMap.SortedMap.Forward` | core/tx_list.go:84-98 | takes out exactly the nonces below the threshold, in order; a shifted cache is still the sorted contents |
| `TxSortedMap.SortedMap.Filter` | core/tx_list.go:102-123 | takes out exactly the transactions that match, each once, and rebuilds the index |
| `TxSortedMap.SortedMap.Cap` | core/tx_list.go:127-148 | keeps exactly the lowest nonces; the dropped ones come out highest first; a cut cache is still the sorted contents |
| `TxSortedMap.SortedMap.Remove` | core/tx_list.go:152-170 | takes out the nonce if present and says so; index and cache stay coherent |
| `TxSortedMap.SortedMap.Ready` | core/tx_list.go:178-194 | takes out exactly the maximal consecutive run from the lowest nonce when that nonce is at most the start, and otherwise nothing |
| `TxSortedMap.SortedMap.Flatten` | core/tx_list.go:203-216 | returns the sorted contents, from the cache or by sorting |
| `TxSortedMap.SortingUnique` | core/tx_list.go:203-216 | a map has only one listing by increasing nonce, so what Flatten returns is determined by the contents |
| `TxSortedMap.RunEndIs` | core/tx_list.go:178-194 | the run that Ready takes holds every nonce from its first to its last and ends before a missing one |
| `TxList.TxListObject.Add` | core/tx_list.go:251-272 | a transaction whose nonce is free goes in; one whose nonce is taken goes in if and only if its price is above the old one and 100 (price + 1) exceeds (100 + bump) times the old; the caps keep bounding the contents |
| `TxList.TxListObject.Filter` | core/tx_list.go:290-314 | with the caps as shortcut, the outcome is that of a full scan: out go exactly those whose value plus price times gas exceeds the cost limit or whose gas exceeds the gas limit, in strict mode also everything after the lowest of them |
| `TxList.TxListObject.Cap` | core/tx_list.go:318-320 | keeps exactly the lowest nonces |
| `TxList.TxListObject.Remove` | core/tx_list.go:325-336 | strict mode takes the later nonces out as well and returns exactly those |
| `TxList.TxListObject.Ready` | core/tx_list.go:352-354 | returns the executable run in order and keeps the rest |
| `TxList.ShortCircuit` | core/tx_list.go:290-297 | when the caps are within the limits a full scan would find nothing to remove |
| `TxList.FilterPartition` | core/tx_list.go:290-314 | removed, invalidated and remaining transactions partition the list |
| `TxList.FilterStrict` | core/tx_list.go:302-313 | a strict list that loses something keeps exactly what lies below the lowest loss |
| `TxList.StrictStaysGapFree` | core/tx_list.go:277-336 | filtering, removing, capping and forwarding keep a gap-free strict list gap-free |
| `PricedList.PriceList.Put` | core/tx_list.go:421-423 | the heap gains one entry |
| `PricedList.PriceList.Removed` | core/tx_list.go:428-442 | counts a stale entry, or, when a quarter is stale, rebuilds the heap to hold exactly the pooled transactions |
| `PricedList.PriceList.Cap` | core/tx_list.go:446-473 | drops only live remote entries below the threshold, leaves none of them, and loses no other live entry |
| `PricedList.PriceList.Underpriced` | core/tx_list.go:477-499 | for a remote transaction and a non-empty pool, true if and only if no pooled transaction is cheaper |
| `PricedList.PriceList.Discard` | core/tx_list.go:503-526 | drops live remote entries, none dearer than a remote one that stays, and fewer than asked only when no remote one is left |
| `PricedList.CapExact` | core/tx_list.go:446-473 | a pooled transaction is dropped by Cap if and only if it is remote and below the threshold |
| `PricedList.DiscardExact` | core/tx_list.go:503-526 | with unique live entries Discard drops distinct remote transactions, exactly the smaller of the count asked for and the number of remote ones, and no remote one that stays is cheaper than one that goes |
| `PricedList.CoverageKept` | core/tx_list.go:446-526 | popping stale entries and pushing back saved ones leaves every pooled transaction in the heap |
| `TxPool.Pool.EnqueueTx` | core/tx_pool.go:732-755 | files in the queue or refuses on price; a transaction that was demoted is never refused; map, lists and heap agree afterwards |
| `TxPool.Pool.PromoteTx` | core/tx_pool.go:772-798 | files in the pending list and moves the virtual nonce, or forgets the transaction when the old one is better |
| `TxPool.Pool.RemoveTx` | core/tx_pool.go:950-989 | exactly that hash leaves the pool; a pending list keeps just the part before it, the later ones are queued, an emptied list goes with its heartbeat and the virtual nonce falls to the first nonce lost; a queued one leaves only its queue |
| `TxPool.Pool.Add` | core/tx_pool.go:658-728 | refused for the first reason that applies, and then nothing changes: known, invalid, no dearer than anything in a full pool, or not outbidding what has its nonce once room was made; otherwise it is filed; only a full pool makes room, and the lists, virtual nonces and heartbeats that leaves are given exactly |
| `TxPool.Pool.File` | core/tx_pool.go:690-728 | goes in if and only if it outbids what has its nonce, which then leaves: into the pending list if its nonce is pending, else into the queue, and then a local sender becomes local; nothing else changes |
| `TxPool.Pool.TooCheap` | core/tx_pool.go:673-678 | a remote transaction is refused on a full pool if and only if no pooled one is cheaper |
| `TxPool.Pool.MakeRoom` | core/tx_pool.go:679-686 | some room is made whenever a remote transaction can go, never more than needed; with unique live entries exactly as much as needed or as there are remote ones; none that goes is dearer than a remote one that stays; what depended on them is queued and virtual nonces follow |
| `TxPool.Pool.SetGasPrice` | core/tx_pool.go:503-512 | afterwards the pool holds exactly the local transactions and those at or above the price; pending lists are cut before the first one lost and virtual nonces follow |
| `TxPool.Pool.TruncatePending` | core/tx_pool.go:1045-1115 | exact water-filling: one level, no lower than the account allowance, cuts every remote list to it, keeping lowest nonces; no higher level meets the limit; locals are untouched; each virtual nonce falls to the first nonce its list lost |
| `TxPool.Pool.PromoteAccount` | core/tx_pool.go:1003-1043 | what stays queued and what becomes pending is exactly given: too old and unpayable ones go, the consecutive run is promoted, the rest is capped for remote accounts; the virtual nonce is one past the run and the heartbeat new, if anything was promoted; other accounts are untouched |
| `TxPool.Pool.DemoteAccount` | core/tx_pool.go:1161-1207 | what stays pending is the payable prefix from the account nonce or nothing, and then the heartbeat goes; only what is too old or unpayable leaves the pool, everything else is queued again |
| `TxPool.Pool.TruncateQueue` | core/tx_pool.go:1116-1157 | the queues end at exactly the limit or no remote one is left; each keeps its lowest nonces; an account loses something only after those heard of more recently lost everything |
| `TxPool.Pool.PromoteExecutables` | core/tx_pool.go:994-1157 | every listed account is promoted exactly and the others are untouched; that snapshot is then cut: pending lists to the highest level that meets the limit with the virtual nonces following, queues to exactly the limit from those heard of most recently; both limits hold or nothing remote is left to cut |
| `TxPool.Pool.DemoteUnexecutables` | core/tx_pool.go:1161-1207 | afterwards every pending list is exactly the payable part from the account nonce on, exactly the too old and the unpayable pending transactions have left the pool, and emptied accounts have lost their heartbeat |
| `TxPool.Pool.Reset` | core/tx_pool.go:357-469 | nothing changes when the heads share no stored ancestor; otherwise the virtual nonces start from the chain, exactly the transactions only the old branch carried are added back in order, each with the exact outcome of an addition, their senders are promoted, every pending list is cut to what can still run, and every queue is promoted and cut to the limits; each stage starts from the snapshot the one before left |
| `TxPool.Pool.Expire` | core/tx_pool.go:317-331 | exactly the queues of remote accounts without a heartbeat, or with none for longer than the lifetime, are emptied, and nothing else changes but what is known |
| `TxPool.Pool.AddTx` | core/tx_pool.go:861-882 | the exact outcome of the addition, and when the transaction is a new one its sender alone is promoted exactly, from the snapshot the addition left, and the limits are applied |
| `TxPool.Pool.AddTxs` | core/tx_pool.go:894-917 | each step is the exact addition of that transaction to the snapshot the previous one left; exactly the senders of new ones are promoted, once and exactly, from the last snapshot, before the limits are applied; if there are none nothing more happens |
| `PoolBook.AddSpares` | core/tx_pool.go:655-728 | an addition brings in nothing but its transaction and takes out only remote ones and the one it replaces; local accounts stay local |
| `PoolBook.LocalsStay` | core/tx_pool.go:655-728 | through any sequence of additions a transaction of a local account stays unless one of them takes its nonce |
| `PoolBook.AdmittedOnly` | core/tx_pool.go:596-672 | what goes in is new, at most 32768 bytes, of no negative value, within the gas limit, at the floor price unless local, not below the account nonce, paid for and above its intrinsic gas; and each refusal has its cause |
| `PoolBook.RoomForOne` | core/tx_pool.go:673-686 | below the limit nothing goes; only remote transactions go, none dearer than a remote one that stays or at its price with a lower nonce; with unique entries and enough remote ones exactly one place is free afterwards |
| `PoolBook.OutbidByBump` | core/tx_pool.go:690-728 | an addition outbids whatever has its nonce by the percentage, up to rounding, and tells whether there was anything; a refusal for the price names one that is not outbid |
| `PoolBook.SlotPriceRises` | core/tx_pool.go:690-755 | through any sequence of additions the price of a nonce never falls while the nonce stays taken |
| `PoolBook.PromotedFromChain` | core/tx_pool.go:1003-1030 | when the pool has not moved the nonce of an account, promotion takes exactly the unbroken run of affordable transactions from the nonce the account has on the chain |
| `PoolBook.LaterEmptied` | core/tx_pool.go:1116-1157 | when an account loses queued transactions, every remote account heard of later has none left; one never heard of counts as earliest |
| `TxPool.Pool.StatusOf` | core/tx_pool.go:921-937 | the nonce test tells pending from queued because no account has a nonce in both |
| `TxPool.Pool.Run` | core/tx_pool.go:658-1207 | over every sequence of adds, removals, price changes, heads and evictions each does exactly what it is for on what the one before left, the map holds exactly the listed transactions under their own hashes, no account has a nonce in both lists, and the heap covers the map |
| `PoolState.FileAgree` | core/tx_pool.go:691-755 | filing a transaction over the one it replaces keeps map and lists in agreement |
| `PoolState.TakeAgree` | core/tx_pool.go:950-989 | transactions taken out of a list are still owed by the map and collide with no listed one |
| `PendingLevels.FloodNext` | core/tx_pool.go:1061-1091 | taking in the next longest list once the earlier ones were lowered to its length keeps them all at one level |
| `PendingLevels.FloodDone` | core/tx_pool.go:1092-1113 | the stage ends with every remote list cut to one level, and no higher level meets the limit |
| `HeaderChain.Chain.WriteHeader` | core/headerchain.go:133-198 | stores a header whose parent is known, takes it as head when heavier or on a tie by the coin, and keeps the numbering exactly the ancestors of the head |
| `HeaderChain.Chain.Reroute` | core/headerchain.go:166-178 | the rewriting loop ends at a common ancestor and names the ancestors of the new head below it |
| `HeaderChain.Chain.ClearAbove` | core/headerchain.go:158-165 | deletes the entries above a number up to the first gap |
| `HeaderChain.Chain.Run` | core/headerchain.go:133-198 | over every run, whatever the coins: stored are exactly the headers whose parent was stored when they came, numbering is exact on the head's chain and empty above, each total difficulty the sum along its path, the head the heaviest |
| `HeaderChain.Chain.SetHead` | core/headerchain.go:403-437 | from any state whose numbering is the ancestors of the head, whatever side headers are stored, ends at the ancestor at the smaller of target and head; exactly the headers of the chain above it are gone, the other difficulties are unchanged, the numbering is exact for the new head, and the result can be rewound and looked up again |
| `HeaderChain.ValidRewindable` | core/headerchain.go:403-437 | every state that a run of writes can reach can be rewound |
| `HeaderChain.RewindsCompose` | core/headerchain.go:403-437 | rewinding in two steps leaves the same store and head as rewinding at once |
| `HeaderChain.Chain.Unwind` | core/headerchain.go:410-419 | deletes exactly the headers of the head's chain above the target and their difficulties and numbers |
| `HeaderChain.Chain.GetTd` | core/headerchain.go:311-324 | whatever the cache evicted, a stored difficulty is found as stored, and what is found is the difficulty stored for the hash, even on a hit with another number |
| `HeaderChain.Chain.GetHeader` | core/headerchain.go:343-356 | whatever the cache evicted, a stored header is found as stored, also while headers are being rewound |
| `HeaderChain.MeetBelow` | core/headerchain.go:166-178 | two stored headers with the same ancestor at a number share all ancestors below it |
| `CommonAncestor.FindCommonAncestor` | core/database_util.go:630-654 | returns the highest common ancestor, or nothing when none is stored, and always terminates |
| `CommonAncestor.ReinjectWalk` | core/tx_pool.go:361-403 | reinjects exactly the transactions of the old branch above the highest common ancestor that the new branch does not carry, in the order of the walk; gives up exactly when the heads are more than 64 apart in number, or share no stored ancestor |
| `CommonAncestor.TxDifference` | core/types/transaction.go:376-391 | keeps, in order, exactly the positions of the first list whose hash is not in the other |
| `BlockChain.WriteTxLookupEntries` | core/database_util.go:486-502 | every transaction of the block gets its true place; other entries are unchanged |
| `BlockChain.DeleteTxLookupEntries` | core/database_util.go:553-555 | exactly the given transactions lose their entries |
| `BlockChain.Chain.Insert` | core/blockchain.go:463-485 | the block becomes the head and is named at its number; the other heads follow unless it was named already |
| `BlockChain.Chain.Reorg` | core/blockchain.go:1244-1336 | refused exactly when the chains share no stored ancestor, and then nothing changes; otherwise the new branch is named and indexed and the transactions only the old branch carried lose their entries |
| `BlockChain.ReindexExact` | core/blockchain.go:1319-1335 | an index exact for the old head becomes exact for the new one |
| `BlockChain.Chain.Adopt` | core/blockchain.go:959-969 | in a rooted tree a block with a stored parent is never refused, and numbering below it and index are those of its chain |
| `BlockChain.Chain.WriteBlockWithState` | core/blockchain.go:865-991 | a block whose parent is known is stored with the parent's total difficulty and its own; it becomes head if heavier, never if lighter, and on a tie if its number is lower, never if higher, and by the coin if equal; the head is the lowest of the heaviest blocks; numbering up to the head, index, difficulties and heads stay right |
| `BlockChain.Chain.WriteBlockWithoutState` | core/blockchain.go:851-862 | a lighter competing block is stored and nothing else changes |
| `BlockChain.Chain.Run` | core/blockchain.go:851-991 | over every run from genesis each write does just that, numbering up to the head is the head's chain, the index holds exactly the transactions of that chain above genesis at their true places, and the head is the heaviest block and the lowest of those |
| `BlockChain.HeadsFollow` | core/blockchain.go:463-485 | a block that is heavier than the head, or as heavy and no higher, is not named in the numbering yet unless it is the head, so the header and fast-sync heads always follow |
| `BlockChain.PathTdGrows` | core/blockchain.go:950-957 | along a chain total difficulty grows strictly |
| `HeaderRules.DifficultyBounds` | consensus/defhandler.go:354-408 | the difficulty is at least the minimum and moves by between -99/2048 and 2/2048 of the parent's, the exponential part aside |
| `HeaderRules.DifficultyFalls` | consensus/defhandler.go:354-408 | a later child is never more difficult |
| `HeaderRules.DifficultyTurns` | consensus/defhandler.go:354-408 | the exponential part aside, a child is more difficult than its parent exactly when it follows within nine seconds, or eighteen if the parent has uncles, by one or two steps of 1/2048, and as difficult in the nine seconds after that |
| `HeaderRules.DifficultyStep` | consensus/defhandler.go:354-408 | every nine seconds take one step of 1/2048 off, until the minimum or 99 steps are reached |
| `HeaderRules.DifficultyFloor` | consensus/defhandler.go:354-408 | after 909 seconds a child has lost 99 steps or is at the minimum of 131072 |
| `HeaderRules.UnclesAddStep` | consensus/defhandler.go:354-408 | uncles of the parent are worth one step of 1/2048 |
| `HeaderRules.BombDoubles` | consensus/defhandler.go:393-406 | the exponential part is nothing before block 3200000, one from there, and doubles every hundred thousand blocks |
| `HeaderRules.VerifiedAddsDifficulty` | consensus/defhandler.go:271-331 | a header that passes adds to the total difficulty, if its seal was checked or it does not belong to a DApp |
| `HeaderRules.VerifiedHeader` | consensus/defhandler.go:271-331 | a header passes if and only if it is numbered next after its parent, its extra data is at most 32 bytes, it is no older than its parent nor from the future (an uncle: below 2^256), its difficulty is the calculated one unless it belongs to a DApp, its gas used is within its limit, the limit is at least 5000, below 2^63 and less than 1/1024 from the parent's, and, where the seal is checked, it is good and the difficulty positive |
| `HeaderRules.GasBand` | consensus/defhandler.go:296-319 | for parents below 2^63 the 64-bit comparison of gas limits is the comparison of distances, wrap-around included |
| `HeaderRules.ChosenLimitAccepted` | core/block_validator.go:107-134 | whatever the target, the chosen limit passes the check unless the parent limit is below 5120, at least 4779 gas was used and the target is at most four above the parent limit |
| `HeaderRules.DefaultTargetAccepted` | core/block_validator.go:107-134 | with the default target the chosen limit always passes, for parents in [5000, 2^62) |
| `HeaderRules.LowTargetRefused` | core/block_validator.go:107-134 | with a target of 5000 the limit chosen after a full block of 5000 gas is refused |
| `HeaderRules.LocalChainAccepted` | core/block_validator.go:107-134 | every header of a chain built locally passes the gas checks while its limits stay below 2^62 |
| `HeaderRules.ChosenLimitExact` | core/block_validator.go:107-134 | in the band of limits nothing wraps: the limit drifts with the use of the parent, not below 5000, and a drift below the target becomes a raise by less than 1/1024 that stops at the target |
| `HeaderVerifier.InvariantStep` | consensus/defhandler.go:162-200 | whatever worker or coordinator does next, each index is in one place, verified at most once with the right result, and results are emitted in order |
| `HeaderVerifier.EmitsSequentialResults` | consensus/defhandler.go:142-200 | in every interleaving the emitted results are a prefix of the sequential ones, no index is verified twice, and a coordinator that completed has emitted all |
| `HeaderVerifier.NeverBlocksOnOutput` | consensus/defhandler.go:187-193 | a result that is ready can be emitted at once even if nobody reads |
| `HeaderVerifier.Progress` | consensus/defhandler.go:180-199 | until the coordinator ends something other than an abort can happen |
| `HeaderVerifier.RunsAreBounded` | consensus/defhandler.go:162-200 | no run goes on for ever |
| `HeaderVerifier.RunsComplete` | consensus/defhandler.go:162-200 | a run that cannot go on and was not aborted has emitted every result and all its workers are gone |
| `HeaderVerifier.StrandsIff` | consensus/defhandler.go:162-200 | some run that was aborted ends with a worker that can never leave if and only if there are fewer workers than headers |
| `HeaderVerifier.AbortStrandsIff` | consensus/defhandler.go:142-200 | in terms of the call: an abort can strand a worker if and only if there are more headers than processors |
| `HeaderVerifier.AcceptedRunLinked` | consensus/defhandler.go:202-218 | when all results of a completed run are acceptances the headers form a chain on a stored header, and each that was not stored is the next after its parent, no older, and where asked well sealed with positive difficulty |
| `HeaderVerifier.AcceptedIff` | consensus/defhandler.go:202-218 | a header of a batch is accepted if and only if it has its parent, a stored one for the first and the one before for the others, and is stored already or passes every check against that parent, its seal included where asked |
| `Uncles.VerifyUncles` | consensus/defhandler.go:222-266 | refuses more than two at once, and otherwise accepts exactly when every uncle is new, no recent block, and a valid child of a recent block other than the parent; if not, the first offender is reported |
| `Uncles.UnclesOnChain` | consensus/defhandler.go:222-266 | on a chain, the uncles of a block pass if and only if there are at most two and each is new to the seven blocks before and to the block itself, is none of these, and is a valid child of one of the seven other than the parent |
| `Uncles.UncleNumber` | consensus/defhandler.go:233-263 | an uncle of block n is numbered between n-6 and n-1 |
| `Uncles.UnclesUnique` | consensus/defhandler.go:222-266 | no uncle occurs twice anywhere on a chain although each block looks back only seven blocks |
| `Uncles.UncleNotOnChain` | consensus/defhandler.go:222-266 | no uncle is itself a block of the chain |
| `Uncles.AccumulateRewards` | consensus/defhandler.go:490-508 | every account receives just its share and the supply grows by what the block mints |
| `Uncles.UncleRewardBounds` | consensus/defhandler.go:496-505 | an uncle d generations back, which is one to six, earns 8 - d eighths of three ether |
| `Uncles.MintedBounds` | consensus/defhandler.go:490-508 | a block mints between 3 and 8.4375 ether |
| `Uncles.SupplyBounds` | consensus/defhandler.go:490-508 | what a chain of n blocks mints lies between 3 n and 8.4375 n ether |
| `StateDb.State.AddBalance` | core/state/statedb.go:276-281 | one account and the supply grow by the amount |
| `StateDb.State.SubBalance` | core/state/statedb.go:284-289 | one account and the supply shrink by the amount, and nobody is overdrawn who could pay |
| `Gas.GasPool.AddGas` | core/gaspool.go:29-35 | grows by the amount, which must fit in 64 bits |
| `Gas.GasPool.SubGas` | core/gaspool.go:39-45 | shrinks by the amount, or refuses and changes nothing |
| `Gas.IntrinsicGas` | core/state_transition.go:79-109 | 21000, or 53000 for a creation, and 68 for each non-zero and 4 for each zero byte, refused if and only if that exceeds 64 bits |
| `Gas.StateTransition.BuyGas` | core/state_transition.go:152-165 | takes gas and price together, or refuses for the right reason and changes nothing |
| `Gas.StateTransition.RefundGas` | core/state_transition.go:229-244 | gives back the smaller of the refund counter and half of the used gas; what is left goes to the sender at the price and to the pool |
| `Gas.StateTransition.TransitionDb` | core/state_transition.go:183-226 | refused exactly for the first of: nonce too high, too low, gas not paid for, pool short, intrinsic gas above the limit, transfer not covered by the balance; otherwise applied, with the exact gas used, failure flag, nonces and balance of every account in terms of the outcome of the machine; the pool loses just the gas used, the supply is conserved and the sender's nonce is spent |
| `Gas.PaidBalances` | core/state_transition.go:218-244 | in the settled world every account has what the machine left it, but that the sender has the unused gas back at its price and the miner the fee |
| `Gas.ApplyTransaction` | core/state_processor.go:84-121 | there is a receipt if and only if there is no obstacle; it records the exact gas used, its sum so far and the failure flag, and the world is the settled one with the refund counter cleared |
| `Gas.ApplyAll` | core/state_processor.go:65-74 | world, pool and receipts are exactly those of applying the messages one by one, and there are none if and only if one of them meets an obstacle; pool plus used gas equals the limit and the receipts tally with the messages |
| `Gas.Process` | core/state_processor.go:55-79 | receipts, nonces and the balance of every account are exactly those of the messages in order and then the rewards, or the block is refused for an obstacle; gas used is the sum over the receipts and within the limit, the supply changes only by what the block mints, and no nonce of a sender is spent twice |
| `Gas.SetReceiptsData` | core/blockchain.go:717-752 | each receipt gets the difference of cumulative gas; a wrong count is refused |
| `Gas.GasRecovered` | core/blockchain.go:735-740 | the gas recovered from cumulative values is what was recorded for each transaction |
| `Protocols.SortCapsCorrect` | p2p/protocol.go:75-81 | sorting permutes the capabilities into the order of names and versions |
| `Protocols.NameDecided` | p2p/protocol.go:75-81 | a name is less than another if and only if it is smaller in the first letter that differs or is a proper beginning of it |
| `Protocols.FirstTaken` | p2p/peer.go:316-319 | of the own protocols with the name and version of a capability the first is taken |
| `Protocols.MatchProtocols` | p2p/peer.go:310-332 | each shared name gets its highest shared version, and the ranges lie one after the other from 16 on in the order of names |
| `Protocols.RangesDisjoint` | p2p/peer.go:362-369 | no code lies in the ranges of two protocols |
| `Protocols.RangesTile` | p2p/peer.go:310-332 | every code from 16 to the end of the last range lies in some range |
| `Protocols.GetProto` | p2p/peer.go:362-369 | in whatever order it looks, finds the one protocol whose range holds the code, or none exactly outside all ranges |
| `Protocols.PeersAgree` | p2p/peer.go:310-332 | two peers that agree on lengths choose the same protocols with the same ranges |
| `Protocols.CodeRoundTrip` | p2p/peer.go:381-408 | a code is written if and only if it is below the length of its protocol; it is then delivered to the same protocol of the other peer alone and reads back unchanged |
| `Dialer.Expire` | p2p/dial.go:397-401 | drops exactly the expired entries of the history |
| `Dialer.DialState.CheckDial` | p2p/dial.go:260-275 | a node passes if and only if it is not being dialed, connected, this node, restricted or recently dialed |
| `Dialer.DialState.DialStatic` | p2p/dial.go:191-202 | every static node is afterwards being dialed, connected, or recently dialed and allowed; only this node and restricted ones are forgotten |
| `Dialer.DialState.DialBoot` | p2p/dial.go:203-215 | exactly with no peers, a bootnode, a dial wanted and more than twenty seconds gone, the first bootnode is tried and goes to the end; otherwise nothing changes |
| `Dialer.DialState.DialRandom` | p2p/dial.go:216-226 | the first nodes of the table, for half of the dials wanted, are all tried |
| `Dialer.DialState.AddIdle` | p2p/dial.go:235-248 | a lookup is added exactly when candidates are short and none runs, and a timer exactly when nothing else would happen and the history is not empty |
| `Dialer.DialState.NewTasks` | p2p/dial.go:159-249 | with the tasks in flight no node is dialed twice; no connected or recently dialed node is dialed; new dynamic dials stay within the limit; every candidate was tried or none is wanted; a bootnode is tried only without peers and after twenty seconds; a lookup or a timer keeps the loop going |
| `Dialer.DialState.TaskDone` | p2p/dial.go:277-286 | just that dial leaves the table and enters the history until thirty seconds later; found nodes join the buffer |
| `Dialer.RedialSpacing` | p2p/dial.go:386-401 | a node is dialed again only after the history forgot its last dial |
| `Server.Server.StartTasks` | p2p/server.go:503-512 | starts tasks in order while fewer than sixteen run and returns the rest |
| `Server.Server.ScheduleTasks` | p2p/server.go:513-521 | queued tasks start before new ones and none is dropped; with fewer than sixteen running none waits, every static node is seen to, and candidates were all tried or a dial is no longer wanted; the limits hold afterwards |
| `Server.Server.FinishTask` | p2p/server.go:550-556 | just that task stops running, its node leaves the table and enters the history until thirty seconds later |
| `Server.Server.PostHandshake` | p2p/server.go:557-569 | a trusted node is never refused for the limits; a refusal would be repeated after the protocol handshake; what passes is admitted then if it shares a protocol and nothing changed |
| `Server.Server.AddPeer` | p2p/server.go:570-597 | a connection becomes a peer exactly when it shares a protocol where that is asked, fits the limits or is trusted, is no peer yet and not this node; the limits hold afterwards |
| `Server.Server.DelPeer` | p2p/server.go:598-606 | the peer is gone and the inbound count follows |
| `Server.AdmittedLimited` | p2p/server.go:629-652 | a connection that passes the checks keeps the count and the limits on inbound and ordinary peers |
| `Server.ChecksAdmit` | p2p/server.go:629-652 | a connection passes if and only if it shares a protocol where that is asked, fits, is no peer yet and not this node, and each refusal has its cause |
| `Server.DialedShare` | p2p/server.go:654-667 | the share of dialed peers is the quotient by the ratio, three unless configured, none when dialing is off, and inbound ones get the rest |
| `Server.Server.Handle` | p2p/server.go:535-606 | each event changes just what it is for |
| `Server.Server.Run` | p2p/server.go:523-607 | over every run of the loop each event that can happen has exactly its effect on what was scheduled, others have none, scheduling drops no task, and the limits, the counts and the tasks in flight stay right |
| `Server.DynamicPeersLimited` | p2p/server.go:523-667 | at every point dynamic peers are within the dial limit, inbound peers outside the list of trusted nodes within theirs, the inbound count is right, at most sixteen tasks run and no node is dialed twice |

## Left out

- DApp packaging in `reset` and `promoteTx` (core/tx_pool.go:422-455, core/tx_pool.go:804-833), which is unfinished.
- The transaction journal, event feeds, metrics, logging and locks; each locked method is one step.
- Trie garbage collection and the state commit in `WriteBlockWithState`; receipts, preimages and log events of a reorg.
- Import of pruned side chains beyond storing them (core/blockchain.go:1096-1125), and the future-block queue.
- Aliasing of pool lists: the pool holds lists as values and runs each operation on a list object of the same contents.
- `RemoveByNouce`, which only the DApp packaging uses.
- Chain selection above the head: a reorg onto a shorter heavier chain leaves canonical entries above the new head, so `BlockChain` claims the numbering only up to the head.
- The stale counter of the price heap is not claimed to be exact over whole runs, since a removed transaction can come back while its old entry survives.
- The returns of `reset` for a missing head and for a state that cannot be opened (core/tx_pool.go:405-412).
- TxPool.Pool.Reset: gap-freedom of pending lists across a reorg is not claimed, since demotion repairs only a gap at the front.
- TxPool.Pool.MakeRoom: the exact count needs unique live heap entries, since an entry that survived the removal of its transaction counts again when the transaction comes back.
- HeaderChain.Chain.SetHead: the block bodies deleted through the callback are not modelled, and neither are writes after a rewind that left side headers without ancestors.
- HeaderVerifier: the full-fake mode and the empty batch, which accept at once; the reports in the channel are received in any order.
- Server.Server.Handle: removing a static node also asks its peer to disconnect, which shows as the event of that peer leaving.
- Server.Server.AddPeer: a dialed connection arrives only while its dial runs, as the comment at p2p/server.go:590-592 relies on.
- Uncles.UnclesOnChain: no uncle names the block that includes it as its parent, which would need a hash cycle; block numbers are not negative.
- Seal rules other than the sign of the difficulty; the verdict on a seal is arbitrary.
- Deletion of empty accounts when a transaction is finalised, contract addresses, blooms and log indexes of receipts.
- Genesis setup, JSON and RLP codecs, signatures, hashing, the virtual machine and the tries.
- The RLPx handshake and framing, discovery, NAT, TCP dialing and endpoint resolution; message payloads and the write token of a protocol.
- `Protocols`: lengths are unbounded, so offsets do not wrap.
- `rpc/`, `cmd/`, the console and the other packages.
