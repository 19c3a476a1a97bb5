# snarkOS memory pool and block-sync planning, in Dafny

This project models two parts of the snarkOS node and proves properties of them.

- **The transaction memory pool** (`consensus/src/memory_pool.rs`), in module `Consensus`
  (`memory_pool.dfy`). `MemoryPool` is a class with the source's two fields: the table
  from transaction id to `Entry` and the running `total_size_in_bytes`. Its methods update
  those fields in place:
  - `insert` gathers what the pooled transactions hold, checks the entry against that and
    against the ledger, then pools it;
  - `cleanse` re-inserts every entry into a fresh pool;
  - `remove`, `remove_by_hash` and `contains`;
  - `get_candidates` greedily selects transactions under the block budget.

  Each method is proved against a specification function on values (`InsertSpec`,
  `RemoveSpec`, `RemoveByHashSpec`, `InsertAll`, `Greedy`). Lemmas about those functions
  state the admission rules and the pool invariant. The invariant is that every key is its
  entry's id, that no two pooled transactions share a serial number, commitment or memo,
  and that the counter is the sum of the entry sizes. The methods demand only the first two
  parts (a consistent table), which every method keeps. The counter part can be lost
  through `remove` (see Findings); the other methods then still run as in the source, and
  `cleanse` restores it.
- **Block-sync planning** (`network/src/sync/master.rs`), in module `Sync` (`sync_master.dfy`):
  - the peer filter, sort and trim of `find_sync_nodes`;
  - the message handlers of `receive_sync_hashes` and `receive_sync_blocks`, as loops over
    the finite list of messages that arrived;
  - the row-by-row merge of `order_block_hashes`;
  - the inversion of `block_peer_map`;
  - the random peer assignment of `get_peer_blocks`;
  - the planning and processing steps of `run`: dropping known hashes, filing received
    blocks by header hash, and processing them in block order.

  Each loop of the source is a method with its invariants. Each method is tied to a
  specification function (`Dedup(RowMajor(..))`, `Advertisers`, `Plan`, `ReceivedHashes`,
  `ReceivedBlocks`, `Wanted`), and lemmas state the ordering and coverage properties.

`wrappers.dfy` holds `Option` and `Result`. `seqs.dfy` (module `Seqs`) holds the list helpers:
element sets, duplicate-freedom, and order-preserving de-duplication with its lemmas.

Nondeterminism is modelled as a choice. The order in which a `HashMap` is walked is a
`:|` choice of the next key, and the ghost out-parameter `order` records it. The random
peer of `get_peer_blocks` is a choice from the block's peer list, and the ghost `picks`
records it. Every property is proved for every such order and choice.

## Model

| member | source | states |
|---|---|---|
| Consensus.MemoryPool.constructor | consensus/src/memory_pool.rs:236-243 | a new pool has an empty table, a zero counter, and satisfies the pool invariant |
| Consensus.MemoryPool.Contains | consensus/src/memory_pool.rs:200-207 | true exactly when the transaction id can be computed and is a key of the table; an id error gives false |
| Consensus.MemoryPool.Insert | consensus/src/memory_pool.rs:101-150 | on any consistent table, even one whose counter has drifted, the result and the new fields are those of `InsertSpec` on the old fields; the table stays consistent, and a pool whose counter summed the table still does |
| Consensus.InsertRejectsDuplicates | consensus/src/memory_pool.rs:111-116 | a transaction that repeats one of its own serial numbers or commitments, or whose id is already pooled, gets `Ok(None)` and leaves the pool unchanged (the duplicate-push test at lines 271-281) |
| Consensus.InsertRejectsConflicts | consensus/src/memory_pool.rs:128-142 | a transaction whose serial number, commitment or memo is in the ledger or in a pooled transaction gets `Ok(None)` and leaves the pool unchanged |
| Consensus.InsertAdmits | consensus/src/memory_pool.rs:144-149 | an entry is pooled iff it passes every check and has an id; it then returns `Some(id)`, maps the id to the entry, raises the counter by exactly the entry's size, and leaves every other entry alone; otherwise the pool is unchanged |
| Consensus.InsertKeepsConsistent | consensus/src/memory_pool.rs:109-149 | whatever the counter reads, after `insert` every key is its entry's id and no two pooled transactions share a serial number, commitment or memo |
| Consensus.InsertPreservesValid | consensus/src/memory_pool.rs:118-149 | after `insert`, no two pooled transactions share a serial number, commitment or memo, and the counter is still the sum of the entry sizes |
| Consensus.ClashIffConflicts | consensus/src/memory_pool.rs:118-142 | checking the entry's serial numbers, commitments and memo against the ledger and the holding lists finds a clash iff the transaction conflicts with the ledger or with a pooled transaction |
| Consensus.Holdings | consensus/src/memory_pool.rs:118-126 | the holding lists contain exactly the serial numbers, commitments and memos of the pooled transactions |
| Consensus.FindClash | consensus/src/memory_pool.rs:128-138 | the early-return loop reports true iff some element is in the ledger's set or in the holding list |
| Consensus.MemoryPool.Cleanse | consensus/src/memory_pool.rs:152-168 | returns `Ok(())`; the new pool is `insert` folded over the old entries in some enumeration of the old keys, starting from an empty pool; its table keeps exactly the old entries that do not clash with the ledger; the invariant holds afterwards even when the counter had drifted before, since the counter is rebuilt |
| Consensus.MemoryPool.Reinserted | consensus/src/memory_pool.rs:158-162 | every re-insertion succeeds; the fresh pool equals the fold of `insert` over the entries in the chosen key order, and its table is the ledger-compatible part of the snapshot |
| Consensus.ReinsertAll | consensus/src/memory_pool.rs:158-165 | re-inserting a consistent table into an empty pool, in any order, keeps exactly the entries free of ledger clashes, with a counter equal to their total size (the test at lines 403-406 empties the pool) |
| Consensus.MemoryPool.Remove | consensus/src/memory_pool.rs:170-184 | on any consistent table whose counter does not underflow, the result and new fields are those of `RemoveSpec`; the table stays consistent; the counter invariant survives when it held before and the argument's size equals the stored one |
| Consensus.RemoveDeletes | consensus/src/memory_pool.rs:172-183 | `remove` returns `None` and changes nothing iff the id is not pooled; otherwise it returns the id and deletes exactly that key |
| Consensus.RemovePreservesValid | consensus/src/memory_pool.rs:172-180 | when the argument's size is the stored one, the subtraction cannot underflow and the pool invariant is kept |
| Consensus.RemoveCounterDrift | consensus/src/memory_pool.rs:174 | a valid pool holding one entry of size 2, after `remove` of the same transaction with size 1, has an empty table and a counter of 1, so the invariant is broken |
| Consensus.RemoveStoredSizePreservesValid | consensus/src/memory_pool.rs:170-184 | subtracting the stored entry's size keeps the invariant for any argument size, and agrees with `remove` when the sizes agree |
| Consensus.MemoryPool.RemoveByHash | consensus/src/memory_pool.rs:186-198 | on any consistent table whose counter does not underflow, the result and new fields are those of `RemoveByHashSpec`; the table stays consistent, and the invariant is kept when it held before |
| Consensus.RemoveByHashDeletes | consensus/src/memory_pool.rs:188-197 | `remove_by_hash` returns `None` and changes nothing iff the id is absent; otherwise it returns the stored entry and deletes exactly that key |
| Consensus.RemoveByHashPreservesValid | consensus/src/memory_pool.rs:188-197 | on a valid pool the subtraction cannot underflow, and `remove_by_hash` keeps the pool invariant |
| Consensus.InsertThenRemove | consensus/src/memory_pool.rs:284-331 | removing, by hash or by entry, what `insert` just pooled returns it and restores the earlier pool, including the counter (the `remove_entry` and `remove_transaction_by_hash` tests) |
| Consensus.MemoryPool.GetCandidates | consensus/src/memory_pool.rs:209-233 | for some enumeration of the keys, the candidates are the greedy selection over the entries in that order. They are pooled entries whose total size is at most `max_size` minus the header and coinbase sizes. None clashes with the ledger and no two share a serial number, commitment or memo. Every pooled entry left out would overflow the budget or clashes with the ledger or with a candidate |
| Consensus.GreedySound | consensus/src/memory_pool.rs:217-230 | the greedy selection fits the budget, takes only entries of its input, none clashing with the ledger, and no two sharing anything |
| Consensus.GreedyMaximal | consensus/src/memory_pool.rs:221-230 | every entry the greedy walk skipped would overflow the budget, clashes with the ledger, or shares something with a selected transaction |
| Consensus.SelectionMaximal | consensus/src/memory_pool.rs:334-356 | over a whole table, a pooled entry left out of the selection would overflow the budget or clashes; so a lone fitting, conflict-free entry is selected, as in the `get_candidates` test |
| Consensus.SelectionSound | consensus/src/memory_pool.rs:221-230 | the state the `get_candidates` loop ends in has a selection within budget, free of ledger clashes and pairwise non-conflicting |
| Sync.FindSyncNodes | network/src/sync/master.rs:55-78 | the sorted list is a permutation of the peers that are not judged bad and more than one block ahead, highest first. The result is a prefix of it: every peer but the last is more than ten blocks ahead, the list is cut just after the first peer within ten blocks, and no peer more than ten ahead is dropped |
| Sync.InterestingPeers | network/src/sync/master.rs:57-63 | a peer is kept iff it is in the snapshot, not judged bad, and more than one block ahead of us |
| Sync.FilterInteresting | network/src/sync/master.rs:57-63 | the loop collects exactly the interesting peers of the snapshot, in snapshot order |
| Sync.TrimClose | network/src/sync/master.rs:66-72 | the result is a prefix of the sorted list, cut just after the first peer within ten blocks of us if there is one; every peer before the cut is more than ten blocks ahead, and on a height-ordered list no such peer is dropped |
| Sync.SortByHeightDescending | network/src/sync/master.rs:64 | the result is ordered by height, highest first, and is a permutation of the input |
| Sync.InsertByHeight | network/src/sync/master.rs:64 | inserting one peer into a height-ordered list keeps it ordered and adds exactly that peer |
| Sync.ReceiveSyncHashes | network/src/sync/master.rs:140-166 | the map holds, per address, the latest hash list among the messages consumed; `Block` messages are ignored; reading stops at the first message after which the map has `max_message_count` addresses, and never earlier |
| Sync.LatestHashes | network/src/sync/master.rs:144-155 | an address is in the map iff some `BlockHashes` message came from it, and its list is the one of its last such message |
| Sync.ReceiveSyncBlocks | network/src/sync/master.rs:168-188 | the blocks are the `Block` messages consumed, in arrival order; hash messages are ignored; reading stops once `block_count` blocks have arrived, and never earlier |
| Sync.ReceivedBlocksCount | network/src/sync/master.rs:172-182 | a received block is exactly a `Block` message of the stream, and there are no more blocks than messages |
| Sync.ReceivedBlocksAppend | network/src/sync/master.rs:172-182 | the handler works message by message: the blocks of a concatenation are the concatenated blocks |
| Sync.OrderBlockHashes | network/src/sync/master.rs:190-212 | the output is the row-major reading of the lists (index 0 of each list in list order, then index 1, ...) up to the longest list, with later repeats dropped |
| Sync.MergeRow | network/src/sync/master.rs:195-205 | one pass appends the unseen hashes at the current index, in list order, keeps `seen` equal to the output's elements, and reports whether any list reaches that index |
| Sync.MergedOrder | network/src/sync/master.rs:194-210 | the merge contains every hash of every list, and the merge of the first i rows is a prefix of it |
| Sync.RowMajorCoversAll | network/src/sync/master.rs:194-210 | reading the rows up to the longest list's length visits exactly the hashes of all lists |
| Sync.RowReaches | network/src/sync/master.rs:206-209 | a row is non-empty iff its index is below the longest list's length, so the loop stops at the first index that no list reaches |
| Sync.OrderIsRowByRow | network/src/sync/master.rs:193-206 | a hash that occurs within the first i rows is preceded in the output only by hashes that also occur there, so hashes first seen at a smaller index come first |
| Sync.BlockPeerMap | network/src/sync/master.rs:214-222 | the keys are exactly the hashes of all lists; each hash maps to the peers that advertised it, in list order, a peer once per occurrence; no list is empty |
| Sync.AddPeerHashes | network/src/sync/master.rs:216-220 | handling one peer's list extends the advertiser lists of exactly the hashes it holds |
| Sync.AdvertisersExactly | network/src/sync/master.rs:216-220 | a peer appears under a hash iff one of its lists holds that hash |
| Sync.AdvertisersNonEmpty | network/src/sync/master.rs:214-222 | a hash has advertisers iff it is in some list |
| Sync.GetPeerBlocks | network/src/sync/master.rs:224-252 | the picks are valid random choices. A block gets a peer iff it has a non-empty peer list, and that peer is from its list. Each requested peer's list is the blocks assigned to it, in input order, and is non-empty. The addresses are the request keys, each once |
| Sync.PlanChoosesAdvertisers | network/src/sync/master.rs:235-244 | with valid picks, a block is assigned iff it is wanted and has peers, and its peer is from its advertiser list |
| Sync.PlanRequests | network/src/sync/master.rs:245-248 | a peer has a request list iff some block was assigned to it, and that list is the assigned blocks in input order |
| Sync.PlanBlockPeers | network/src/sync/master.rs:240-244 | a block is in `block_peers` iff a pick was made for one of its occurrences, and its value is a peer picked for it |
| Sync.PlanAgrees | network/src/sync/master.rs:244-248 | for a duplicate-free block list, a block is in peer p's request list iff `block_peers` maps it to p |
| Sync.PlanRequestsCover | network/src/sync/master.rs:244-248 | for a duplicate-free order, every block `block_peers` maps to a peer is in that peer's request list |
| Sync.PlanSnoc | network/src/sync/master.rs:235-249 | one loop step: a block without a pick changes nothing; a pick records the peer and appends the block to that peer's requests |
| Sync.KeysOf | network/src/sync/master.rs:250 | lists every key of the map exactly once |
| Sync.EntriesOf | network/src/sync/master.rs:296 | the list holds every entry of the received map, each address once |
| Sync.PlanSync | network/src/sync/master.rs:290-319 | no plan iff no hashes arrived or every advertised hash is known. Otherwise the block order is the merged order with known hashes dropped: every unknown advertised hash exactly once. Each block goes to a peer that advertised it, a block is requested from a peer iff `block_peers` maps it to that peer, and the addresses list each requested peer once |
| Sync.AssignBlocks | network/src/sync/master.rs:316-319 | from the merged order, builds a round meeting every promise of a plan |
| Sync.RoundFacts | network/src/sync/master.rs:298-319 | the guarantees of `order_block_hashes`, the filter, `block_peer_map` and `get_peer_blocks` combine into the promises of a planned round, including that requests and `block_peers` agree in both directions |
| Sync.DropKnown | network/src/sync/master.rs:302-305 | the filtered order is no longer than the merged order and holds no hash the ledger knows |
| Sync.DropKnownElems | network/src/sync/master.rs:301-305 | the filter keeps exactly the hashes not known to the ledger, and introduces no repeats |
| Sync.DropKnownAppend | network/src/sync/master.rs:301-305 | the filter works piece by piece, so it keeps relative order |
| Sync.ProcessInOrder | network/src/sync/master.rs:333-355 | a block shorter than a header aborts the processing before anything is processed. Otherwise the blocks processed are those filed under the hashes of the block order that were received, in block order, each hash at most once, the last block received under a hash winning. Success means all were processed without failure; a failure stops right after the failing block |
| Sync.FileByHash | network/src/sync/master.rs:333-339 | fails iff some block is shorter than a header; otherwise the map files each block under the digest of its header, the later block winning |
| Sync.BlocksByHashAt | network/src/sync/master.rs:333-339 | a hash is filed iff some received block has it, and the block filed under it is the last received block with that hash |
| Sync.ProcessFiled | network/src/sync/master.rs:341-355 | the hashes taken are a prefix of the wanted ones (all of them on success), each block is the one filed under its hash, no block before the last failed, and on failure the last one did |
| Sync.WantedWhenDistinct | network/src/sync/master.rs:341-355 | for a duplicate-free block order, the hashes processed are just the received ones in block order |
| Sync.KeepInElems | network/src/sync/master.rs:341-342 | keeping the received hashes of the order keeps exactly those and introduces no repeats |
| Sync.WantedStep | network/src/sync/master.rs:341-346 | one step of the processing loop: the next hash is processed iff it was received and not processed yet |

## Left out

- Persistence (`from_storage` and `store`, consensus/src/memory_pool.rs:61-99) is not modelled. It relies on byte serialisation of transactions that is not part of this model.
- The ledger is three sets: serial numbers, commitments and memos. Its storage backend is not modelled. `transaction_conflicts` and `DPCTransactions::conflicts` are not part of this model. `get_candidates` treats them as "some serial number, commitment or memo is already in the ledger" and "shares a serial number, commitment or memo with a selected transaction".
- The computation of `transaction_id()` is not modelled. The id is an `Option` field of the transaction, with `None` standing for the error. Two different transactions may carry the same id; the second is then refused as already pooled, as an id collision would be in the source. Pooled ids are distinct because every key is its entry's id.
- `BlockHeader::size()` is not part of this model. `BLOCK_HEADER_SIZE` is a constant whose value is not fixed, and the header size used in `run` is a parameter.
- `usize` overflow is not modelled: sizes and counters are unbounded naturals, so the additions in `insert` and `get_candidates` cannot wrap.
- Consensus.MemoryPool.Remove: requires that the entry's size not exceed the counter. The subtraction at consensus/src/memory_pool.rs:174 panics in debug builds and wraps in release builds otherwise. The requirement always holds when the sizes agree.
- Consensus.MemoryPool.RemoveByHash: requires that the stored entry's size not exceed the counter. The subtraction at consensus/src/memory_pool.rs:191 panics in debug builds and wraps in release builds otherwise. The requirement always holds while the counter sums the table.
- Consensus.MemoryPool.GetCandidates: requires `max_size` to cover the header and coinbase sizes. The subtraction at consensus/src/memory_pool.rs:215 panics or wraps otherwise.
- The `u32` block heights are unbounded naturals, so `our_block_height + 1` and `+ 10` cannot overflow.
- Sync.SortByHeightDescending: does not state that peers of equal height keep their snapshot order, although Rust's `sort_by` is stable and the insertion used here is too.
- Sync.OrderBlockHashes: the loop leaves before incrementing the index that no list reached. The source increments first, but that index is never read afterwards.
- The async and network shell is not modelled: `SyncMaster::new`, `send_sync_messages`, `block_locator_hashes`, `request_blocks`, `cancel_outstanding_syncs`, and the channel and timers of `receive_messages`. The receive handlers see the finite list of messages that arrived before the deadline or before the channel closed. The early returns of `run` on zero requests sent are not modelled.
- `double_sha256` is a digest function passed as a parameter.
- `rand::thread_rng` is a nondeterministic choice recorded in the ghost `picks`.
- `process_received_block` is not part of this model. Only whether it fails on a block is modelled, as the predicate `fails`. Its effect on the node, logging, metrics and `finished_syncing_blocks` are left out.
- The panic on a received block shorter than a header (the slice at network/src/sync/master.rs:336) is modelled as the error `ShortBlock`.
- The repository's key-derivation and signing code, the JSON-RPC tests and the peer inbound handler are not part of this model.

## Findings

| source | as written | input that shows it | evidently intended | confidence | as-written member | corrected member |
|---|---|---|---|---|---|---|
| consensus/src/memory_pool.rs:174 | `remove` subtracts the size carried by the argument entry, not the size stored in the pool | a pool holding one entry of size 2 (counter 2); `remove` of the same transaction carrying size 1 leaves an empty table with counter 1 | subtract the stored entry's size, as `remove_by_hash` does, so the counter keeps summing the table | not executed | Consensus.RemoveCounterDrift | Consensus.RemoveStoredSizePreservesValid |

`Consensus.MemoryPool.Remove` keeps the source's behaviour, so the invariant it keeps is
conditional on the sizes agreeing. `RemoveStoredSize` is the corrected definition; the
lemma next to it proves that it keeps the invariant for any argument and that it agrees
with `remove` when the sizes agree.
