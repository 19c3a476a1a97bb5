/** The transaction memory pool of the consensus layer: a table from transaction id to
    entry, a running byte counter, the admission rules of `insert`, and the greedy choice
    of block candidates. */
module Consensus {
  import opened Wrappers
  import opened Seqs

  type TxId = seq<bv8>
  type SerialNumber = seq<bv8>
  type Commitment = seq<bv8>
  type Memo = seq<bv8>

  /** What the pool reads of a transaction. `id` is None when computing the transaction id
      fails. Two different transactions may carry the same id; the second is then refused
      as already pooled. */
  datatype Transaction = Transaction(
    id: Option<TxId>,
    oldSerialNumbers: seq<SerialNumber>,
    newCommitments: seq<Commitment>,
    memorandum: Memo)

  /** A pooled transaction with the size its submitter reported. */
  datatype Entry = Entry(sizeInBytes: nat, transaction: Transaction)

  datatype ConsensusError = TransactionIdError

  /** The ledger as the pool queries it: the serial numbers, commitments and memos it holds. */
  datatype Ledger = Ledger(serialNumbers: set<SerialNumber>, commitments: set<Commitment>, memos: set<Memo>)

  /** `BlockHeader::size()`, fixed by the block format; this model does not fix its value. */
  const BLOCK_HEADER_SIZE: nat

  const COINBASE_TRANSACTION_SIZE: nat := 1490

  /** The bytes of a block that `get_candidates` keeps for the header and the coinbase. */
  function Overhead(): nat
  {
    BLOCK_HEADER_SIZE + COINBASE_TRANSACTION_SIZE
  }

  /** The transaction spends, creates or memoes something the ledger already holds. */
  predicate LedgerConflicts(ledger: Ledger, t: Transaction)
  {
    || !(Elems(t.oldSerialNumbers) !! ledger.serialNumbers)
    || !(Elems(t.newCommitments) !! ledger.commitments)
    || t.memorandum in ledger.memos
  }

  /** Two transactions share a serial number, a commitment or their memo. */
  predicate Shares(t: Transaction, u: Transaction)
  {
    || !(Elems(t.oldSerialNumbers) !! Elems(u.oldSerialNumbers))
    || !(Elems(t.newCommitments) !! Elems(u.newCommitments))
    || t.memorandum == u.memorandum
  }

  /** Some pooled transaction shares a serial number, commitment or memo with `t`. */
  predicate PoolConflicts(m: map<TxId, Entry>, t: Transaction)
  {
    exists k :: k in m && Shares(m[k].transaction, t)
  }

  /** Some transaction of the list shares a serial number, commitment or memo with `t`. */
  predicate ConflictsWithAny(txs: seq<Transaction>, t: Transaction)
  {
    exists i :: 0 <= i < |txs| && Shares(txs[i], t)
  }

  /** The pool holds the transaction's id (an id that cannot be computed is never held). */
  predicate PoolHolds(m: map<TxId, Entry>, t: Transaction)
  {
    t.id.Some? && t.id.value in m
  }

  /** Every key is its entry's id, no entry repeats a serial number or a commitment, and no
      two entries share a serial number, a commitment or a memo. */
  ghost predicate Consistent(m: map<TxId, Entry>)
  {
    && (forall k :: k in m ==>
          && m[k].transaction.id == Some(k)
          && NoDuplicates(m[k].transaction.oldSerialNumbers)
          && NoDuplicates(m[k].transaction.newCommitments))
    && (forall k, k' :: k in m && k' in m && k != k' ==> !Shares(m[k].transaction, m[k'].transaction))
  }

  /** The sum of the entry sizes of a table. */
  ghost function SumSizes(m: map<TxId, Entry>): nat
    decreases |m|
  {
    if m == map[] then 0
    else
      var k :| k in m;
      m[k].sizeInBytes + SumSizes(m - {k})
  }

  /** The sum does not depend on which key is taken out first. */
  lemma {:induction false} SumSizesRemove(m: map<TxId, Entry>, k: TxId)
    requires k in m
    ensures SumSizes(m) == m[k].sizeInBytes + SumSizes(m - {k})
    decreases |m|
  {
    var k' :| k' in m && SumSizes(m) == m[k'].sizeInBytes + SumSizes(m - {k'});
    if k' != k {
      assert |m - {k'}| == |m| - 1;
      assert |m - {k}| == |m| - 1;
      SumSizesRemove(m - {k'}, k);
      SumSizesRemove(m - {k}, k');
      assert m - {k'} - {k} == m - {k} - {k'};
    }
  }

  /** The value of a `MemoryPool` object: its table and its byte counter. */
  datatype PoolState = PoolState(transactions: map<TxId, Entry>, totalSizeInBytes: nat)

  /** The pool invariant: a consistent table whose counter is the sum of its entry sizes. */
  ghost predicate ValidPool(p: PoolState)
  {
    Consistent(p.transactions) && p.totalSizeInBytes == SumSizes(p.transactions)
  }

  function EmptyPool(): PoolState
  {
    PoolState(map[], 0)
  }

  /** What an operation returned and the pool it left behind. */
  datatype Outcome<R> = Outcome(result: R, after: PoolState)

  // ---------------------------------------------------------------------------------
  // insert

  /** `insert`: reject a transaction that repeats a serial number or commitment of its own,
      whose id is pooled, or that clashes with the ledger or with a pooled transaction;
      otherwise fail when the id cannot be computed, or pool it under its id. */
  function InsertSpec(ledger: Ledger, p: PoolState, e: Entry): Outcome<Result<Option<TxId>, ConsensusError>>
  {
    var t := e.transaction;
    if !NoDuplicates(t.oldSerialNumbers) || !NoDuplicates(t.newCommitments) || PoolHolds(p.transactions, t) then
      Outcome(Ok(None), p)
    else if LedgerConflicts(ledger, t) || PoolConflicts(p.transactions, t) then
      Outcome(Ok(None), p)
    else if t.id.None? then
      Outcome(Err(TransactionIdError), p)
    else
      Outcome(Ok(Some(t.id.value)), PoolState(p.transactions[t.id.value := e], p.totalSizeInBytes + e.sizeInBytes))
  }

  /** A transaction that repeats one of its own serial numbers or commitments, or whose id is
      already pooled, is turned away with `None` and the pool is left as it was. */
  lemma InsertRejectsDuplicates(ledger: Ledger, p: PoolState, e: Entry)
    requires || !NoDuplicates(e.transaction.oldSerialNumbers)
             || !NoDuplicates(e.transaction.newCommitments)
             || PoolHolds(p.transactions, e.transaction)
    ensures InsertSpec(ledger, p, e) == Outcome(Ok(None), p)
  {
  }

  /** A transaction whose serial number, commitment or memo is in the ledger or in a pooled
      transaction is turned away with `None` and the pool is left as it was. */
  lemma InsertRejectsConflicts(ledger: Ledger, p: PoolState, e: Entry)
    requires LedgerConflicts(ledger, e.transaction) || PoolConflicts(p.transactions, e.transaction)
    ensures InsertSpec(ledger, p, e) == Outcome(Ok(None), p)
  {
  }

  /** `insert` pools an entry exactly when it passes every check and has an id; it then
      returns that id, maps it to the entry, adds exactly the entry's size to the counter
      and leaves every other entry as it was. */
  lemma InsertAdmits(ledger: Ledger, p: PoolState, e: Entry)
    ensures var o := InsertSpec(ledger, p, e);
      && (o.result.Ok? && o.result.value.Some? <==>
            && NoDuplicates(e.transaction.oldSerialNumbers)
            && NoDuplicates(e.transaction.newCommitments)
            && !PoolHolds(p.transactions, e.transaction)
            && !LedgerConflicts(ledger, e.transaction)
            && !PoolConflicts(p.transactions, e.transaction)
            && e.transaction.id.Some?)
      && (o.result.Ok? && o.result.value.Some? ==>
            && o.result.value == e.transaction.id
            && o.after.transactions.Keys == p.transactions.Keys + {e.transaction.id.value}
            && o.after.transactions[e.transaction.id.value] == e
            && o.after.totalSizeInBytes == p.totalSizeInBytes + e.sizeInBytes
            && (forall k :: k in p.transactions ==> o.after.transactions[k] == p.transactions[k]))
      && (!(o.result.Ok? && o.result.value.Some?) ==> o.after == p)
  {
  }

  /** `insert` keeps the table consistent, whatever the counter reads: after it every key is
      its entry's id and no two pooled transactions share a serial number, commitment or
      memo. */
  lemma InsertKeepsConsistent(ledger: Ledger, p: PoolState, e: Entry)
    requires Consistent(p.transactions)
    ensures Consistent(InsertSpec(ledger, p, e).after.transactions)
  {
    if InsertSpec(ledger, p, e).after != p {
      ConsistentAdd(p.transactions, e.transaction.id.value, e);
    }
  }

  /** `insert` keeps the pool invariant: the table stays consistent and the counter is still
      the sum of the entry sizes. */
  lemma InsertPreservesValid(ledger: Ledger, p: PoolState, e: Entry)
    requires ValidPool(p)
    ensures ValidPool(InsertSpec(ledger, p, e).after)
  {
    InsertKeepsConsistent(ledger, p, e);
    if InsertSpec(ledger, p, e).after != p {
      SumSizesAdd(p.transactions, e.transaction.id.value, e);
    }
  }

  /** Adding an entry under its own id, free of internal duplicates and sharing nothing with
      the table, keeps the table consistent. */
  lemma ConsistentAdd(m: map<TxId, Entry>, k: TxId, e: Entry)
    requires Consistent(m) && k !in m && e.transaction.id == Some(k)
    requires NoDuplicates(e.transaction.oldSerialNumbers) && NoDuplicates(e.transaction.newCommitments)
    requires !PoolConflicts(m, e.transaction)
    ensures Consistent(m[k := e])
  {
    var m' := m[k := e];
    forall k1, k2 | k1 in m' && k2 in m' && k1 != k2
      ensures !Shares(m'[k1].transaction, m'[k2].transaction)
    {
      if k1 == k {
        assert !Shares(m[k2].transaction, e.transaction);
      } else if k2 == k {
        assert !Shares(m[k1].transaction, e.transaction);
      }
    }
  }

  /** Adding an entry under a new key adds its size to the sum. */
  lemma SumSizesAdd(m: map<TxId, Entry>, k: TxId, e: Entry)
    requires k !in m
    ensures SumSizes(m[k := e]) == SumSizes(m) + e.sizeInBytes
  {
    assert m[k := e] - {k} == m;
    SumSizesRemove(m[k := e], k);
  }

  // ---------------------------------------------------------------------------------
  // remove and remove_by_hash

  /** The stored entry under the argument's id has the argument's size (trivially true
      when the id is not pooled). */
  predicate SizeAgrees(m: map<TxId, Entry>, e: Entry)
  {
    PoolHolds(m, e.transaction) ==> m[e.transaction.id.value].sizeInBytes == e.sizeInBytes
  }

  /** `remove`: when the argument's id is pooled, delete that key and subtract the size the
      ARGUMENT carries; otherwise change nothing. The subtraction must not underflow. */
  function RemoveSpec(p: PoolState, e: Entry): Outcome<Result<Option<TxId>, ConsensusError>>
    requires PoolHolds(p.transactions, e.transaction) ==> e.sizeInBytes <= p.totalSizeInBytes
  {
    if PoolHolds(p.transactions, e.transaction) then
      var k := e.transaction.id.value;
      Outcome(Ok(Some(k)), PoolState(p.transactions - {k}, p.totalSizeInBytes - e.sizeInBytes))
    else
      Outcome(Ok(None), p)
  }

  /** `remove` answers `None` and changes nothing exactly when the argument's id is not
      pooled; otherwise it answers the id and deletes just that key. */
  lemma RemoveDeletes(p: PoolState, e: Entry)
    requires PoolHolds(p.transactions, e.transaction) ==> e.sizeInBytes <= p.totalSizeInBytes
    ensures var o := RemoveSpec(p, e);
      && (o.result == Ok(None) <==> !PoolHolds(p.transactions, e.transaction))
      && (!PoolHolds(p.transactions, e.transaction) ==> o.after == p)
      && (PoolHolds(p.transactions, e.transaction) ==>
            && o.result == Ok(e.transaction.id)
            && o.after.transactions.Keys == p.transactions.Keys - {e.transaction.id.value}
            && forall k :: k in o.after.transactions ==> o.after.transactions[k] == p.transactions[k])
  {
  }

  /** `remove` keeps the pool invariant when the argument's size is the stored one; the
      table stays consistent in any case. */
  lemma RemovePreservesValid(p: PoolState, e: Entry)
    requires ValidPool(p) && SizeAgrees(p.transactions, e)
    ensures PoolHolds(p.transactions, e.transaction) ==> e.sizeInBytes <= p.totalSizeInBytes
    ensures ValidPool(RemoveSpec(p, e).after)
  {
    if PoolHolds(p.transactions, e.transaction) {
      SumSizesRemove(p.transactions, e.transaction.id.value);
    }
  }

  /** With a size that differs from the stored one, `remove` leaves a counter that no longer
      sums the table: one entry of size 2, removed through an entry of size 1, leaves an
      empty table whose counter reads 1. */
  lemma RemoveCounterDrift()
    ensures var t := Transaction(Some([1]), [[2]], [[3]], [4]);
      var p := PoolState(map[[1] := Entry(2, t)], 2);
      && ValidPool(p)
      && RemoveSpec(p, Entry(1, t)) == Outcome(Ok(Some([1])), PoolState(map[], 1))
      && !ValidPool(RemoveSpec(p, Entry(1, t)).after)
  {
    var t := Transaction(Some([1]), [[2]], [[3]], [4]);
    var m := map[[1] := Entry(2, t)];
    SumSizesRemove(m, [1]);
    assert m - {[1]} == map[];
  }

  /** `remove` as it is evidently meant: subtract the size of the STORED entry. */
  function RemoveStoredSize(p: PoolState, e: Entry): Outcome<Result<Option<TxId>, ConsensusError>>
    requires ValidPool(p)
  {
    if PoolHolds(p.transactions, e.transaction) then
      var k := e.transaction.id.value;
      SumSizesRemove(p.transactions, k);
      Outcome(Ok(Some(k)), PoolState(p.transactions - {k}, p.totalSizeInBytes - p.transactions[k].sizeInBytes))
    else
      Outcome(Ok(None), p)
  }

  /** Subtracting the stored size keeps the invariant whatever size the argument carries,
      and agrees with `remove` whenever the two sizes agree. */
  lemma RemoveStoredSizePreservesValid(p: PoolState, e: Entry)
    requires ValidPool(p)
    ensures ValidPool(RemoveStoredSize(p, e).after)
    ensures SizeAgrees(p.transactions, e) ==> RemoveStoredSize(p, e) == RemoveSpec(p, e)
  {
    if PoolHolds(p.transactions, e.transaction) {
      SumSizesRemove(p.transactions, e.transaction.id.value);
    }
  }

  /** `remove_by_hash`: delete the key and subtract the stored entry's size, returning that
      entry; an absent key changes nothing. */
  function RemoveByHashSpec(p: PoolState, id: TxId): Outcome<Result<Option<Entry>, ConsensusError>>
    requires id in p.transactions ==> p.transactions[id].sizeInBytes <= p.totalSizeInBytes
  {
    if id in p.transactions then
      Outcome(Ok(Some(p.transactions[id])),
              PoolState(p.transactions - {id}, p.totalSizeInBytes - p.transactions[id].sizeInBytes))
    else
      Outcome(Ok(None), p)
  }

  /** `remove_by_hash` answers `None` and changes nothing exactly when the id is not pooled;
      otherwise it answers the stored entry and deletes just that key. */
  lemma RemoveByHashDeletes(p: PoolState, id: TxId)
    requires id in p.transactions ==> p.transactions[id].sizeInBytes <= p.totalSizeInBytes
    ensures var o := RemoveByHashSpec(p, id);
      && (o.result == Ok(None) <==> id !in p.transactions)
      && (id !in p.transactions ==> o.after == p)
      && (id in p.transactions ==>
            && o.result == Ok(Some(p.transactions[id]))
            && o.after.transactions.Keys == p.transactions.Keys - {id}
            && forall k :: k in o.after.transactions ==> o.after.transactions[k] == p.transactions[k])
  {
  }

  /** On a valid pool the subtraction of `remove_by_hash` cannot underflow, and the
      invariant is kept. */
  lemma RemoveByHashPreservesValid(p: PoolState, id: TxId)
    requires ValidPool(p)
    ensures id in p.transactions ==> p.transactions[id].sizeInBytes <= p.totalSizeInBytes
    ensures ValidPool(RemoveByHashSpec(p, id).after)
  {
    if id in p.transactions {
      SumSizesRemove(p.transactions, id);
    }
  }

  /** Removing by hash what `insert` just pooled gives back the entry and the pool as it was
      before; so does `remove` with the same entry. */
  lemma InsertThenRemove(ledger: Ledger, p: PoolState, e: Entry)
    requires ValidPool(p)
    requires InsertSpec(ledger, p, e).result == Ok(e.transaction.id) && e.transaction.id.Some?
    ensures var q := InsertSpec(ledger, p, e).after;
      && ValidPool(q)
      && q.transactions[e.transaction.id.value] == e
      && e.sizeInBytes <= q.totalSizeInBytes
      && RemoveByHashSpec(q, e.transaction.id.value) == Outcome(Ok(Some(e)), p)
      && RemoveSpec(q, e) == Outcome(Ok(e.transaction.id), p)
  {
    var k := e.transaction.id.value;
    InsertPreservesValid(ledger, p, e);
    assert !PoolHolds(p.transactions, e.transaction);
    assert p.transactions[k := e] - {k} == p.transactions;
  }

  // ---------------------------------------------------------------------------------
  // cleanse

  /** The entries of `m` under the keys of `order`, in that order. */
  function EntriesAt(m: map<TxId, Entry>, order: seq<TxId>): (es: seq<Entry>)
    requires forall i :: 0 <= i < |order| ==> order[i] in m
    ensures |es| == |order|
  {
    seq(|order|, i requires 0 <= i < |order| => m[order[i]])
  }

  /** `order` lists every key of the table exactly once (one HashMap iteration order). */
  predicate IsEnumeration(order: seq<TxId>, keys: set<TxId>)
  {
    NoDuplicates(order) && Elems(order) == keys
  }

  /** The state of a walk over a table in its iteration order: `order` lists the keys
      visited so far, each once, and `pending` the keys still to visit. */
  predicate Walked(m: map<TxId, Entry>, pending: set<TxId>, order: seq<TxId>)
  {
    && pending <= m.Keys
    && NoDuplicates(order) && Elems(order) == m.Keys - pending
    && (forall i :: 0 <= i < |order| ==> order[i] in m)
  }

  lemma WalkStep(m: map<TxId, Entry>, pending: set<TxId>, order: seq<TxId>, id: TxId)
    requires Walked(m, pending, order) && id in pending
    ensures Walked(m, pending - {id}, order + [id])
  {
    AppendFresh(order, id);
  }

  lemma WalkDone(m: map<TxId, Entry>, order: seq<TxId>)
    requires Walked(m, {}, order)
    ensures IsEnumeration(order, m.Keys)
  {
  }

  /** `insert` applied to each entry in turn, ignoring what each call returns. */
  function InsertAll(ledger: Ledger, p: PoolState, es: seq<Entry>): PoolState
  {
    if es == [] then p
    else InsertSpec(ledger, InsertAll(ledger, p, es[..|es| - 1]), es[|es| - 1]).after
  }

  /** One re-insertion of `cleanse`: it succeeds, and the pool is the fold over one more
      entry. */
  lemma ReinsertStep(ledger: Ledger, m: map<TxId, Entry>, order: seq<TxId>, id: TxId,
                     res: Result<Option<TxId>, ConsensusError>, before: PoolState, after: PoolState)
    requires Consistent(m) && id in m && forall i :: 0 <= i < |order| ==> order[i] in m
    requires before == InsertAll(ledger, EmptyPool(), EntriesAt(m, order))
    requires Outcome(res, after) == InsertSpec(ledger, before, m[id])
    ensures res.Ok?
    ensures after == InsertAll(ledger, EmptyPool(), EntriesAt(m, order + [id]))
  {
    InsertAllAppend(ledger, EmptyPool(), m, order, id);
  }

  lemma InsertAllAppend(ledger: Ledger, p: PoolState, m: map<TxId, Entry>, order: seq<TxId>, k: TxId)
    requires k in m && forall i :: 0 <= i < |order| ==> order[i] in m
    ensures EntriesAt(m, order + [k]) == EntriesAt(m, order) + [m[k]]
    ensures InsertAll(ledger, p, EntriesAt(m, order + [k]))
         == InsertSpec(ledger, InsertAll(ledger, p, EntriesAt(m, order)), m[k]).after
  {
    assert EntriesAt(m, order + [k]) == EntriesAt(m, order) + [m[k]];
    assert (EntriesAt(m, order) + [m[k]])[..|order|] == EntriesAt(m, order);
  }

  /** The entries of `m` under keys in `ks` that do not clash with the ledger. */
  function Kept(ledger: Ledger, m: map<TxId, Entry>, ks: set<TxId>): map<TxId, Entry>
  {
    map k | k in m && k in ks && !LedgerConflicts(ledger, m[k].transaction) :: m[k]
  }

  /** One step of re-insertion: inserting the entry under a key not yet visited into the
      pool kept so far gives the pool kept with that key visited too. */
  lemma ReinsertOne(ledger: Ledger, m: map<TxId, Entry>, visited: set<TxId>, k: TxId)
    requires Consistent(m) && k in m && k !in visited
    ensures var prev := Kept(ledger, m, visited);
      var next := Kept(ledger, m, visited + {k});
      InsertSpec(ledger, PoolState(prev, SumSizes(prev)), m[k]).after == PoolState(next, SumSizes(next))
  {
    var prev := Kept(ledger, m, visited);
    KeptAdmits(ledger, m, visited, k);
    KeptStep(ledger, m, visited, k);
    if !LedgerConflicts(ledger, m[k].transaction) {
      SumSizesAdd(prev, k, m[k]);
    }
  }

  /** An entry of a consistent table not yet visited is neither held by nor in conflict with
      the entries kept so far. */
  lemma KeptAdmits(ledger: Ledger, m: map<TxId, Entry>, visited: set<TxId>, k: TxId)
    requires Consistent(m) && k in m && k !in visited
    ensures !PoolHolds(Kept(ledger, m, visited), m[k].transaction)
    ensures !PoolConflicts(Kept(ledger, m, visited), m[k].transaction)
  {
    var prev := Kept(ledger, m, visited);
    forall k' | k' in prev ensures !Shares(prev[k'].transaction, m[k].transaction) {
      assert k' != k;
    }
  }

  /** Visiting one more key keeps its entry exactly when it does not clash with the ledger. */
  lemma KeptStep(ledger: Ledger, m: map<TxId, Entry>, visited: set<TxId>, k: TxId)
    requires k in m && k !in visited
    ensures k !in Kept(ledger, m, visited)
    ensures Kept(ledger, m, visited + {k}) ==
      if LedgerConflicts(ledger, m[k].transaction) then Kept(ledger, m, visited)
      else Kept(ledger, m, visited)[k := m[k]]
  {
  }

  /** Re-inserting the entries of a consistent table into an empty pool, in ANY order, keeps
      exactly the entries that do not clash with the ledger, with a matching counter. */
  lemma {:induction false} ReinsertAll(ledger: Ledger, m: map<TxId, Entry>, order: seq<TxId>)
    requires Consistent(m)
    requires NoDuplicates(order) && forall i :: 0 <= i < |order| ==> order[i] in m
    ensures var kept := Kept(ledger, m, Elems(order));
      InsertAll(ledger, EmptyPool(), EntriesAt(m, order)) == PoolState(kept, SumSizes(kept))
  {
    if order == [] {
      assert Kept(ledger, m, Elems(order)) == map[];
    } else {
      var init := order[..|order| - 1];
      NoDuplicatesInit(order);
      ReinsertAll(ledger, m, init);
      ReinsertLast(ledger, m, order);
    }
  }

  /** The last step of `ReinsertAll`: from the pool kept over all but the last key, inserting
      the last key's entry gives the pool kept over all of them. */
  lemma ReinsertLast(ledger: Ledger, m: map<TxId, Entry>, order: seq<TxId>)
    requires Consistent(m) && order != []
    requires NoDuplicates(order) && forall i :: 0 <= i < |order| ==> order[i] in m
    requires var kept := Kept(ledger, m, Elems(order[..|order| - 1]));
      InsertAll(ledger, EmptyPool(), EntriesAt(m, order[..|order| - 1])) == PoolState(kept, SumSizes(kept))
    ensures var kept := Kept(ledger, m, Elems(order));
      InsertAll(ledger, EmptyPool(), EntriesAt(m, order)) == PoolState(kept, SumSizes(kept))
  {
    var n := |order|;
    var init := order[..n - 1];
    NoDuplicatesInit(order);
    assert EntriesAt(m, order)[..n - 1] == EntriesAt(m, init);
    assert Elems(order) == Elems(init) + {order[n - 1]};
    ReinsertOne(ledger, m, Elems(init), order[n - 1]);
  }

  // ---------------------------------------------------------------------------------
  // get_candidates

  /** The total size of a list of entries. */
  function BlockSize(es: seq<Entry>): nat
  {
    if es == [] then 0 else BlockSize(es[..|es| - 1]) + es[|es| - 1].sizeInBytes
  }

  function TransactionsOf(es: seq<Entry>): (txs: seq<Transaction>)
    ensures |txs| == |es|
  {
    seq(|es|, i requires 0 <= i < |es| => es[i].transaction)
  }

  /** The naive selection of `get_candidates` over entries taken in the order `es`: an entry
      is taken when it still fits the budget and clashes neither with the ledger nor with an
      entry taken before it. */
  function Greedy(ledger: Ledger, es: seq<Entry>, budget: nat): (sel: seq<Entry>)
  {
    if es == [] then []
    else
      var prev := Greedy(ledger, es[..|es| - 1], budget);
      var e := es[|es| - 1];
      if BlockSize(prev) + e.sizeInBytes <= budget
         && !LedgerConflicts(ledger, e.transaction)
         && !ConflictsWithAny(TransactionsOf(prev), e.transaction)
      then prev + [e]
      else prev
  }

  /** The greedy selection fits the budget, takes only entries of its input, none of which
      clashes with the ledger, and no two of which share a serial number, commitment or memo. */
  lemma {:induction false} GreedySound(ledger: Ledger, es: seq<Entry>, budget: nat)
    ensures var sel := Greedy(ledger, es, budget);
      && BlockSize(sel) <= budget
      && (forall i :: 0 <= i < |sel| ==> sel[i] in es && !LedgerConflicts(ledger, sel[i].transaction))
      && (forall i, j :: 0 <= i < j < |sel| ==> !Shares(sel[i].transaction, sel[j].transaction))
  {
    if es != [] {
      var init := es[..|es| - 1];
      var e := es[|es| - 1];
      GreedySound(ledger, init, budget);
      var prev := Greedy(ledger, init, budget);
      if Greedy(ledger, es, budget) != prev {
        TransactionsOfAppend(prev, e);
        assert forall i :: 0 <= i < |prev| ==> TransactionsOf(prev)[i] == prev[i].transaction;
        assert forall i :: 0 <= i < |prev| ==> prev[i] in es by {
          forall i | 0 <= i < |prev| ensures prev[i] in es {
            assert prev[i] in init;
          }
        }
      } else {
        forall i | 0 <= i < |prev| ensures prev[i] in es {
          assert prev[i] in init;
        }
      }
    }
  }

  /** The greedy selection cannot be extended: an entry it skipped would overflow the
      budget, clashes with the ledger, or shares something with a selected transaction. */
  lemma {:induction false} GreedyMaximal(ledger: Ledger, es: seq<Entry>, budget: nat)
    ensures var sel := Greedy(ledger, es, budget);
      forall e :: e in es && e !in sel ==>
        || BlockSize(sel) + e.sizeInBytes > budget
        || LedgerConflicts(ledger, e.transaction)
        || ConflictsWithAny(TransactionsOf(sel), e.transaction)
  {
    if es != [] {
      var init := es[..|es| - 1];
      var x := es[|es| - 1];
      assert es == init + [x];
      GreedyMaximal(ledger, init, budget);
      var prev := Greedy(ledger, init, budget);
      var sel := Greedy(ledger, es, budget);
      if sel != prev {
        TransactionsOfAppend(prev, x);
        forall e | e in init && e !in sel
          ensures || BlockSize(sel) + e.sizeInBytes > budget
                  || LedgerConflicts(ledger, e.transaction)
                  || ConflictsWithAny(TransactionsOf(sel), e.transaction)
        {
          if ConflictsWithAny(TransactionsOf(prev), e.transaction) {
            var i :| 0 <= i < |prev| && Shares(TransactionsOf(prev)[i], e.transaction);
            assert TransactionsOf(sel)[i] == TransactionsOf(prev)[i];
          }
        }
      }
    }
  }

  /** Over a whole table: a pooled entry left out of the selection would overflow the budget,
      clashes with the ledger, or shares something with a selected transaction. */
  lemma SelectionMaximal(ledger: Ledger, m: map<TxId, Entry>, order: seq<TxId>, budget: nat)
    requires IsEnumeration(order, m.Keys)
    ensures var sel := Greedy(ledger, EntriesAt(m, order), budget);
      forall k :: k in m && m[k] !in sel ==>
        || BlockSize(sel) + m[k].sizeInBytes > budget
        || LedgerConflicts(ledger, m[k].transaction)
        || ConflictsWithAny(TransactionsOf(sel), m[k].transaction)
  {
    var es := EntriesAt(m, order);
    GreedyMaximal(ledger, es, budget);
    forall k | k in m ensures m[k] in es {
      assert k in Elems(order);
      var i :| 0 <= i < |order| && order[i] == k;
      assert es[i] == m[k];
    }
  }

  lemma GreedyAppend(ledger: Ledger, m: map<TxId, Entry>, order: seq<TxId>, k: TxId, budget: nat)
    requires k in m && forall i :: 0 <= i < |order| ==> order[i] in m
    ensures var prev := Greedy(ledger, EntriesAt(m, order), budget);
      var e := m[k];
      Greedy(ledger, EntriesAt(m, order + [k]), budget)
        == if BlockSize(prev) + e.sizeInBytes <= budget
              && !LedgerConflicts(ledger, e.transaction)
              && !ConflictsWithAny(TransactionsOf(prev), e.transaction)
           then prev + [e] else prev
  {
    assert EntriesAt(m, order + [k]) == EntriesAt(m, order) + [m[k]];
    assert (EntriesAt(m, order) + [m[k]])[..|order|] == EntriesAt(m, order);
  }

  /** The state of the `get_candidates` loop after visiting the keys of `order`: the
      greedy selection over those entries, its transactions and its total size. */
  ghost predicate Selection(ledger: Ledger, m: map<TxId, Entry>, order: seq<TxId>, budget: nat,
                            chosen: seq<Entry>, candidates: seq<Transaction>, blockSize: nat)
  {
    && (forall i :: 0 <= i < |order| ==> order[i] in m)
    && chosen == Greedy(ledger, EntriesAt(m, order), budget)
    && candidates == TransactionsOf(chosen)
    && blockSize == BlockSize(chosen)
    && (forall i :: 0 <= i < |chosen| ==> chosen[i] in m.Values)
  }

  /** What the finished loop of `get_candidates` promises about what it took. */
  lemma SelectionSound(ledger: Ledger, m: map<TxId, Entry>, order: seq<TxId>, budget: nat,
                       chosen: seq<Entry>, candidates: seq<Transaction>, blockSize: nat)
    requires Selection(ledger, m, order, budget, chosen, candidates, blockSize)
    ensures BlockSize(chosen) <= budget
    ensures forall i :: 0 <= i < |candidates| ==> !LedgerConflicts(ledger, candidates[i])
    ensures forall i, j :: 0 <= i < j < |candidates| ==> !Shares(candidates[i], candidates[j])
  {
    GreedySound(ledger, EntriesAt(m, order), budget);
    forall i | 0 <= i < |candidates| ensures candidates[i] == chosen[i].transaction {
    }
  }

  /** One step of the `get_candidates` loop that takes the entry under `id`. */
  lemma SelectTake(ledger: Ledger, m: map<TxId, Entry>, order: seq<TxId>, id: TxId, budget: nat,
                   chosen: seq<Entry>, candidates: seq<Transaction>, blockSize: nat)
    requires id in m && Selection(ledger, m, order, budget, chosen, candidates, blockSize)
    requires blockSize + m[id].sizeInBytes <= budget
    requires !LedgerConflicts(ledger, m[id].transaction) && !ConflictsWithAny(candidates, m[id].transaction)
    ensures Selection(ledger, m, order + [id], budget, chosen + [m[id]], candidates + [m[id].transaction],
                      blockSize + m[id].sizeInBytes)
  {
    GreedyAppend(ledger, m, order, id, budget);
    TransactionsOfAppend(chosen, m[id]);
  }

  /** One step of the `get_candidates` loop that skips the entry under `id`. */
  lemma SelectSkip(ledger: Ledger, m: map<TxId, Entry>, order: seq<TxId>, id: TxId, budget: nat,
                   chosen: seq<Entry>, candidates: seq<Transaction>, blockSize: nat)
    requires id in m && Selection(ledger, m, order, budget, chosen, candidates, blockSize)
    requires || blockSize + m[id].sizeInBytes > budget
             || LedgerConflicts(ledger, m[id].transaction) || ConflictsWithAny(candidates, m[id].transaction)
    ensures Selection(ledger, m, order + [id], budget, chosen, candidates, blockSize)
  {
    GreedyAppend(ledger, m, order, id, budget);
  }

  lemma TransactionsOfAppend(es: seq<Entry>, e: Entry)
    ensures TransactionsOf(es + [e]) == TransactionsOf(es) + [e.transaction]
    ensures BlockSize(es + [e]) == BlockSize(es) + e.sizeInBytes
  {
    assert (es + [e])[..|es|] == es;
  }

  // ---------------------------------------------------------------------------------
  // the pool object

  /** Some element of `xs` is in the ledger's set or in the pool's holding list. */
  predicate Clashes<T>(inLedger: set<T>, holding: seq<T>, xs: seq<T>)
  {
    exists x :: x in xs && (x in inLedger || x in holding)
  }

  /** The holding lists of `insert`: every serial number, commitment and memo of the
      pooled transactions. */
  ghost predicate Holding(m: map<TxId, Entry>, sns: seq<SerialNumber>, cms: seq<Commitment>, memos: seq<Memo>)
  {
    && (forall x :: x in sns <==> exists k :: k in m && x in m[k].transaction.oldSerialNumbers)
    && (forall x :: x in cms <==> exists k :: k in m && x in m[k].transaction.newCommitments)
    && (forall x :: x in memos <==> exists k :: k in m && x == m[k].transaction.memorandum)
  }

  /** Checking the transaction against the ledger and the holding lists finds a clash
      exactly when it conflicts with the ledger or with a pooled transaction. */
  lemma ClashIffConflicts(ledger: Ledger, m: map<TxId, Entry>, sns: seq<SerialNumber>, cms: seq<Commitment>,
                          memos: seq<Memo>, t: Transaction)
    requires Holding(m, sns, cms, memos)
    ensures LedgerConflicts(ledger, t) || PoolConflicts(m, t) <==>
      || Clashes(ledger.serialNumbers, sns, t.oldSerialNumbers)
      || Clashes(ledger.commitments, cms, t.newCommitments)
      || t.memorandum in ledger.memos || t.memorandum in memos
  {
    if PoolConflicts(m, t) {
      var k :| k in m && Shares(m[k].transaction, t);
      var u := m[k].transaction;
      if !(Elems(u.oldSerialNumbers) !! Elems(t.oldSerialNumbers)) {
        var x :| x in Elems(u.oldSerialNumbers) && x in Elems(t.oldSerialNumbers);
        assert x in sns;
      } else if !(Elems(u.newCommitments) !! Elems(t.newCommitments)) {
        var x :| x in Elems(u.newCommitments) && x in Elems(t.newCommitments);
        assert x in cms;
      } else {
        assert u.memorandum in memos;
      }
    }
    if Clashes(ledger.serialNumbers, sns, t.oldSerialNumbers) {
      var x :| x in t.oldSerialNumbers && (x in ledger.serialNumbers || x in sns);
      if x !in ledger.serialNumbers {
        var k :| k in m && x in m[k].transaction.oldSerialNumbers;
        assert x in Elems(m[k].transaction.oldSerialNumbers) && x in Elems(t.oldSerialNumbers);
        assert Shares(m[k].transaction, t);
      } else {
        assert x in Elems(t.oldSerialNumbers);
      }
    }
    if Clashes(ledger.commitments, cms, t.newCommitments) {
      var x :| x in t.newCommitments && (x in ledger.commitments || x in cms);
      if x !in ledger.commitments {
        var k :| k in m && x in m[k].transaction.newCommitments;
        assert x in Elems(m[k].transaction.newCommitments) && x in Elems(t.newCommitments);
        assert Shares(m[k].transaction, t);
      } else {
        assert x in Elems(t.newCommitments);
      }
    }
    if t.memorandum in memos {
      var k :| k in m && t.memorandum == m[k].transaction.memorandum;
      assert Shares(m[k].transaction, t);
    }
    if LedgerConflicts(ledger, t) {
      if !(Elems(t.oldSerialNumbers) !! ledger.serialNumbers) {
        var x :| x in Elems(t.oldSerialNumbers) && x in ledger.serialNumbers;
        assert x in t.oldSerialNumbers;
      } else if !(Elems(t.newCommitments) !! ledger.commitments) {
        var x :| x in Elems(t.newCommitments) && x in ledger.commitments;
        assert x in t.newCommitments;
      }
    }
  }

  /** One of the checking loops of `insert`: does some element of `xs` occur in the ledger
      or in the holding list? */
  method FindClash<T(==)>(inLedger: set<T>, holding: seq<T>, xs: seq<T>) returns (clash: bool)
    ensures clash <==> Clashes(inLedger, holding, xs)
  {
    for i := 0 to |xs|
      invariant forall j :: 0 <= j < i ==> xs[j] !in inLedger && xs[j] !in holding
    {
      if xs[i] in inLedger || xs[i] in holding {
        return true;
      }
    }
    return false;
  }

  /** The loop of `insert` that gathers every serial number, commitment and memo of the
      pooled transactions, walking the table in its iteration order. */
  method Holdings(m: map<TxId, Entry>) returns (sns: seq<SerialNumber>, cms: seq<Commitment>, memos: seq<Memo>)
    ensures Holding(m, sns, cms, memos)
  {
    sns, cms, memos := [], [], [];
    var pending := m.Keys;
    while pending != {}
      invariant pending <= m.Keys
      invariant forall x :: x in sns <==> exists k :: k in m && k !in pending && x in m[k].transaction.oldSerialNumbers
      invariant forall x :: x in cms <==> exists k :: k in m && k !in pending && x in m[k].transaction.newCommitments
      invariant forall x :: x in memos <==> exists k :: k in m && k !in pending && x == m[k].transaction.memorandum
      decreases |pending|
    {
      var id :| id in pending;
      var tx := m[id].transaction;
      sns := sns + tx.oldSerialNumbers;
      cms := cms + tx.newCommitments;
      memos := memos + [tx.memorandum];
      pending := pending - {id};
    }
  }

  class MemoryPool {
    /** Unconfirmed transactions by id. */
    var transactions: map<TxId, Entry>
    /** The total size in bytes of the pooled entries. */
    var totalSizeInBytes: nat

    function State(): PoolState
      reads this
    {
      PoolState(transactions, totalSizeInBytes)
    }

    ghost predicate Valid()
      reads this
    {
      ValidPool(State())
    }

    /** `new` / `default`: an empty pool. */
    constructor ()
      ensures Valid()
      ensures transactions == map[] && totalSizeInBytes == 0
    {
      transactions := map[];
      totalSizeInBytes := 0;
    }

    /** `contains`: the entry's transaction id is computable and is a key of the pool. */
    function Contains(entry: Entry): (r: bool)
      reads this
      ensures r <==> exists k :: k in transactions && entry.transaction.id == Some(k)
    {
      PoolHolds(transactions, entry.transaction)
    }

    /** `insert`: collect what the pooled transactions hold, check the entry against them and
        the ledger, and pool it under its id. */
    method Insert(ledger: Ledger, entry: Entry) returns (r: Result<Option<TxId>, ConsensusError>)
      requires Consistent(transactions)
      modifies this
      ensures Outcome(r, State()) == InsertSpec(ledger, old(State()), entry)
      ensures Consistent(transactions)
      ensures old(Valid()) ==> Valid()
    {
      var t := entry.transaction;
      if !NoDuplicates(t.oldSerialNumbers) || !NoDuplicates(t.newCommitments) || Contains(entry) {
        return Ok(None);
      }

      var holdingSerialNumbers, holdingCommitments, holdingMemos := Holdings(transactions);
      ClashIffConflicts(ledger, transactions, holdingSerialNumbers, holdingCommitments, holdingMemos, t);

      var snClash := FindClash(ledger.serialNumbers, holdingSerialNumbers, t.oldSerialNumbers);
      if snClash {
        return Ok(None);
      }
      var cmClash := FindClash(ledger.commitments, holdingCommitments, t.newCommitments);
      if cmClash {
        return Ok(None);
      }
      if t.memorandum in ledger.memos || t.memorandum in holdingMemos {
        return Ok(None);
      }

      if t.id.None? {
        return Err(TransactionIdError);
      }
      var id := t.id.value;
      InsertKeepsConsistent(ledger, State(), entry);
      if Valid() {
        InsertPreservesValid(ledger, State(), entry);
      }
      totalSizeInBytes := totalSizeInBytes + entry.sizeInBytes;
      transactions := transactions[id := entry];
      r := Ok(Some(id));
    }

    /** `cleanse`: rebuild the pool by re-inserting every entry, in the table's iteration
        order, into an empty pool; the result keeps exactly the entries that do not clash
        with the ledger, and its counter sums the table again even when it had drifted. */
    method Cleanse(ledger: Ledger) returns (r: Result<(), ConsensusError>)
      requires Consistent(transactions)
      modifies this
      ensures Valid() && r == Ok(())
      ensures exists order :: IsEnumeration(order, old(transactions).Keys)
                && State() == InsertAll(ledger, EmptyPool(), EntriesAt(old(transactions), order))
      ensures transactions == Kept(ledger, old(transactions), old(transactions).Keys)
    {
      var newPool := Reinserted(ledger, transactions);
      totalSizeInBytes := newPool.totalSizeInBytes;
      transactions := newPool.transactions;
      r := Ok(());
    }

    /** The loop of `cleanse`: a fresh pool into which every entry of `snapshot` has been
        inserted, in the table's iteration order. */
    static method Reinserted(ledger: Ledger, snapshot: map<TxId, Entry>) returns (newPool: MemoryPool)
      requires Consistent(snapshot)
      ensures fresh(newPool) && newPool.Valid()
      ensures exists order :: IsEnumeration(order, snapshot.Keys)
                && newPool.State() == InsertAll(ledger, EmptyPool(), EntriesAt(snapshot, order))
      ensures newPool.transactions == Kept(ledger, snapshot, snapshot.Keys)
    {
      newPool := new MemoryPool();
      var pending := snapshot.Keys;
      ghost var order: seq<TxId> := [];
      while pending != {}
        invariant fresh(newPool) && newPool.Valid()
        invariant Walked(snapshot, pending, order)
        invariant newPool.State() == InsertAll(ledger, EmptyPool(), EntriesAt(snapshot, order))
        decreases |pending|
      {
        var id :| id in pending;
        ghost var before := newPool.State();
        var res := newPool.Insert(ledger, snapshot[id]);
        ReinsertStep(ledger, snapshot, order, id, res, before, newPool.State());
        WalkStep(snapshot, pending, order, id);
        order := order + [id];
        pending := pending - {id};
      }
      WalkDone(snapshot, order);
      ReinsertAll(ledger, snapshot, order);
    }

    /** `remove`: when the entry's id is pooled, subtract the ARGUMENT's size and delete the
        key. The counter keeps summing the table only when that size is the stored one. */
    method Remove(entry: Entry) returns (r: Result<Option<TxId>, ConsensusError>)
      requires Consistent(transactions)
      requires Contains(entry) ==> entry.sizeInBytes <= totalSizeInBytes
      modifies this
      ensures Outcome(r, State()) == RemoveSpec(old(State()), entry)
      ensures Consistent(transactions)
      ensures old(Valid()) && SizeAgrees(old(transactions), entry) ==> Valid()
    {
      if Contains(entry) {
        totalSizeInBytes := totalSizeInBytes - entry.sizeInBytes;
        var id := entry.transaction.id.value;
        transactions := transactions - {id};
        if old(Valid()) && SizeAgrees(old(transactions), entry) {
          RemovePreservesValid(old(State()), entry);
        }
        return Ok(Some(id));
      }
      r := Ok(None);
    }

    /** `remove_by_hash`: delete the key, subtract the stored entry's size and return it. */
    method RemoveByHash(id: TxId) returns (r: Result<Option<Entry>, ConsensusError>)
      requires Consistent(transactions)
      requires id in transactions ==> transactions[id].sizeInBytes <= totalSizeInBytes
      modifies this
      ensures Outcome(r, State()) == RemoveByHashSpec(old(State()), id)
      ensures Consistent(transactions)
      ensures old(Valid()) ==> Valid()
    {
      if Valid() {
        RemoveByHashPreservesValid(State(), id);
      }
      if id in transactions {
        var entry := transactions[id];
        totalSizeInBytes := totalSizeInBytes - entry.sizeInBytes;
        transactions := transactions - {id};
        return Ok(Some(entry));
      }
      r := Ok(None);
    }

    /** `get_candidates`: walk the table in its iteration order and take, greedily, every
        entry that fits the block budget and clashes neither with the ledger nor with a
        transaction already taken. */
    method GetCandidates(ledger: Ledger, maxSize: nat) returns (candidates: seq<Transaction>, ghost order: seq<TxId>)
      requires maxSize >= Overhead()
      ensures IsEnumeration(order, transactions.Keys)
      ensures var chosen := Greedy(ledger, EntriesAt(transactions, order), maxSize - Overhead());
        && candidates == TransactionsOf(chosen)
        && BlockSize(chosen) <= maxSize - Overhead()
        && (forall i :: 0 <= i < |chosen| ==> chosen[i] in transactions.Values)
        && (forall k :: k in transactions && transactions[k] !in chosen ==>
              || BlockSize(chosen) + transactions[k].sizeInBytes > maxSize - Overhead()
              || LedgerConflicts(ledger, transactions[k].transaction)
              || ConflictsWithAny(candidates, transactions[k].transaction))
      ensures forall i :: 0 <= i < |candidates| ==> !LedgerConflicts(ledger, candidates[i])
      ensures forall i, j :: 0 <= i < j < |candidates| ==> !Shares(candidates[i], candidates[j])
    {
      var budget := maxSize - (BLOCK_HEADER_SIZE + COINBASE_TRANSACTION_SIZE);
      var blockSize: nat := 0;
      candidates := [];
      ghost var chosen: seq<Entry> := [];
      order := [];
      var pending := transactions.Keys;
      while pending != {}
        invariant Walked(transactions, pending, order)
        invariant Selection(ledger, transactions, order, budget, chosen, candidates, blockSize)
        decreases |pending|
      {
        var id :| id in pending;
        var entry := transactions[id];
        WalkStep(transactions, pending, order, id);
        ghost var visited := order;
        order := order + [id];
        pending := pending - {id};
        if blockSize + entry.sizeInBytes <= budget {
          if LedgerConflicts(ledger, entry.transaction) || ConflictsWithAny(candidates, entry.transaction) {
            SelectSkip(ledger, transactions, visited, id, budget, chosen, candidates, blockSize);
            continue;
          }
          SelectTake(ledger, transactions, visited, id, budget, chosen, candidates, blockSize);
          blockSize := blockSize + entry.sizeInBytes;
          candidates := candidates + [entry.transaction];
          chosen := chosen + [entry];
        } else {
          SelectSkip(ledger, transactions, visited, id, budget, chosen, candidates, blockSize);
        }
      }
      WalkDone(transactions, order);
      SelectionSound(ledger, transactions, order, budget, chosen, candidates, blockSize);
      SelectionMaximal(ledger, transactions, order, budget);
    }
  }
}
