/**
 core/mempool.go against core/block.go: what the pool offers can be mined, and what is mined from the pool leaves
 the rest of it valid.
 */
module Mining {
  import opened Bytes
  import opened Transactions
  import opened Chainstates
  import opened Validation
  import opened Ledger
  import opened Supply
  import opened TxMetadata
  import opened FeeTree
  import opened FeeTreeBalance
  import opened StableOrder
  import opened MemTrees
  import opened MemPools

  // ---- the block a pool offers

  lemma {:induction false} BlockIdsMember(txs: seq<Tx>, x: bytes)
    requires x in BlockIds(txs)
    ensures exists i :: 1 <= i < |txs| && x in IdSet(txs[i])
  {
    var n := |txs| - 1;
    if x in IdsOf(txs[n].inputs) {
      assert x in IdSet(txs[n]);
    } else {
      BlockIdsMember(txs[..n], x);
      var i :| 1 <= i < n && x in IdSet(txs[..n][i]);
      assert txs[..n][i] == txs[i];
    }
  }

  predicate Apart(txs: seq<Tx>) {
    forall i, j :: 1 <= i < j < |txs| ==> IdSet(txs[i]) !! IdSet(txs[j])
  }

  /** Transactions that are valid one by one and share no output make a valid block. */
  lemma {:induction false} BlockOf(c: Crypto, rs: Records, txs: seq<Tx>)
    requires Apart(txs) && forall i :: 1 <= i < |txs| ==> TxVerdict(c, rs, txs[i]) == Valid
    ensures BlockValid(c, rs, txs)
  {
    hide TxVerdict;
    if |txs| > 1 {
      var n := |txs| - 1;
      var front := txs[..n];
      assert forall i :: 0 <= i < n ==> front[i] == txs[i];
      BlockOf(c, rs, front);
      AcceptedIff(c, rs, txs[n]);
      LastIsApart(txs, front);
    }
  }

  lemma {:induction false} LastIsApart(txs: seq<Tx>, front: seq<Tx>)
    requires Apart(txs) && |txs| > 1 && front == txs[..|txs| - 1]
    requires Distinct(BlockIds(front)) && Distinct(IdsOf(txs[|txs| - 1].inputs))
    ensures Distinct(BlockIds(txs))
  {
    var n := |txs| - 1;
    var a, b := BlockIds(front), IdsOf(txs[n].inputs);
    assert BlockIds(txs) == a + b;
    hide BlockIds;
    forall i, j | 0 <= i < |a| && 0 <= j < |b| ensures a[i] != b[j] {
      BlockIdsMember(front, a[i]);
      var k :| 1 <= k < n && a[i] in IdSet(front[k]);
      assert IdSet(txs[k]) !! IdSet(txs[n]) && b[j] in IdSet(txs[n]);
    }
    DistinctConcat(a, b);
  }

  lemma DistinctConcat<T>(a: seq<T>, b: seq<T>)
    requires Distinct(a) && Distinct(b) && forall i, j :: 0 <= i < |a| && 0 <= j < |b| ==> a[i] != b[j]
    ensures Distinct(a + b)
  {
  }

  /** Every pooled transaction is valid against this chainstate. */
  predicate Ready(c: Crypto, rs: Records, pool: seq<Entry>) {
    forall i :: 0 <= i < |pool| ==> TxVerdict(c, rs, pool[i].tx) == Valid
  }

  /** Two places of a sorting are two places of what is sorted. */
  lemma SortedApart(pool: seq<Entry>, s: seq<Entry>, i: nat, j: nat)
    requires Genuine(pool) && Disjoint(pool) && StableSorting(pool, s) && i < j < |s|
    ensures IdSet(s[i].tx) !! IdSet(s[j].tx)
  {
    hide IdSet, EntryFor, StableSorting;
    SortingLength(pool, s);
    assert s[i] in multiset(s) && s[j] in multiset(s);
    assert s[i] in pool && s[j] in pool;
    var a :| 0 <= a < |pool| && pool[a] == s[i];
    if s[i] == s[j] {
      Twice(s, i, j);
      var b := Again(pool, a);
      assert IdSet(pool[a].tx) !! IdSet(pool[b].tx);
    } else {
      var b :| 0 <= b < |pool| && pool[b] == s[j];
      assert IdSet(pool[a].tx) !! IdSet(pool[b].tx);
    }
  }

  lemma Twice<T>(s: seq<T>, i: nat, j: nat)
    requires i < j < |s| && s[i] == s[j]
    ensures multiset(s)[s[i]] >= 2
  {
    assert s == s[..j] + [s[j]] + s[j + 1..];
    assert s[i] in s[..j];
  }

  /** An element that is there twice has a second place. */
  lemma Again<T>(s: seq<T>, a: nat) returns (b: nat)
    requires a < |s| && multiset(s)[s[a]] >= 2
    ensures b < |s| && b != a && s[b] == s[a]
  {
    var rest := s[..a] + s[a + 1..];
    assert s == s[..a] + [s[a]] + s[a + 1..];
    assert multiset(rest) == multiset(s) - multiset{s[a]};
    assert s[a] in rest;
    var k :| 0 <= k < |rest| && rest[k] == s[a];
    b := if k < a then k else k + 1;
  }

  /**
   The k best of a pool that is valid as it stands always pass the validation of a block, by themselves and behind any
   coinbase.
   */
  lemma OfferIsMinable(c: Crypto, rs: Records, pool: seq<Entry>, s: seq<Entry>, k: nat, coinbase: Tx)
    requires Genuine(pool) && Disjoint(pool) && Ready(c, rs, pool) && StableSorting(pool, s) && k <= |s|
    ensures BlockValid(c, rs, TxsOf(s[..k])) && BlockValid(c, rs, [coinbase] + TxsOf(s[..k]))
  {
    hide TxVerdict, IdSet, EntryFor, StableSorting, Genuine, Disjoint, BlockValid, TxsOf;
    var offer := TxsOf(s[..k]);
    var txs := [coinbase] + offer;
    forall i | 0 <= i < k ensures TxVerdict(c, rs, offer[i]) == Valid && txs[i + 1] == offer[i] == s[i].tx {
      SameEntries(pool, s, s[i]);
      var a :| 0 <= a < |pool| && pool[a] == s[i];
    }
    forall i, j | 0 <= i < j < k ensures IdSet(offer[i]) !! IdSet(offer[j]) {
      SortedApart(pool, s, i, j);
    }
    assert forall i :: 1 <= i < |txs| ==> txs[i] == offer[i - 1];
    BlockOf(c, rs, offer);
    BlockOf(c, rs, txs);
  }

  /**
   With the coinbase that MineBlock builds for it (core/block.go, lines 184-196), the offer is a block that is accepted
   and confirmed, transaction 0 passed over.
   */
  lemma OfferIsAccepted(c: Crypto, rs: Records, pool: seq<Entry>, s: seq<Entry>, k: nat, coinbase: Tx, msg: bytes,
                        key: bytes, last: uint32)
    requires Genuine(pool) && Disjoint(pool) && Ready(c, rs, pool) && StableSorting(pool, s) && k <= |s|
    requires forall i :: 0 <= i < k ==> Sized(s[i].tx) && HasUnspent(RecordOf(s[i].tx).slots)
    requires var value := (Subsidy((last + 1) % TWO_32) + SumFees(TxsOf(s[..k]), false)) % TWO_64;
             Some(coinbase) == NewCoinbaseTransaction(c.hash, msg, value, key, last)
    ensures Accepted(c, rs, [coinbase] + TxsOf(s[..k]), (last + 1) % TWO_32, true)
  {
    hide Genuine, Disjoint, Ready, StableSorting, BlockValid, CoinbaseAccepted, HasUnspent, Sized, Removable, Subsidy,
      SumFees, TxsOf, NewCoinbaseTransaction, RecordOf;
    var txs := [coinbase] + TxsOf(s[..k]);
    OfferIsMinable(c, rs, pool, s, k, coinbase);
    MinedCoinbase(c.hash, TxsOf(s[..k]), coinbase, msg, key, last);
    assert forall i :: 1 <= i < |txs| ==> txs[i] == s[i - 1].tx;
    ValidRemovable(c, rs, txs);
  }

  /** Lines 94-127 of core/block.go with their effect on the mempool: a transaction that fails is removed from it. */
  method ValidateAgainstPool(c: Crypto, cs: Chainstate, mempool: MemPool, txs: seq<Tx>)
    returns (err: Option<BlockError>, at: nat, panics: bool)
    requires cs.Valid() && mempool.tree.Valid()
    modifies mempool, mempool.tree, ReprOf(mempool.tree.root)
    ensures err == None <==> BlockValid(c, cs.records, txs)
    ensures err == None || err == Some(TransactionPanics) ==>
              !panics && unchanged(mempool) && mempool.tree.Contents() == old(mempool.tree.Contents())
    ensures err.Some? ==> 1 <= at < |txs|
    ensures var removes := err.Some? && err != Some(TransactionPanics);
            removes && old(mempool.Valid()) && Fixed(old(mempool.pool), txs[at]) ==>
              && (panics <==> && txs[at].txid in old(mempool.txmap) && !mempool.tree.edits.descend
                              && !OnLeftSpine(old(mempool.tree.Model()), Fees(txs[at])))
              && (!panics ==> mempool.Valid() && mempool.pool == Without(old(mempool.pool), {txs[at].txid}))
  {
    hide BlockValid, Fixed, MemPool.Valid, MemTree.Valid, Chainstate.Valid, Without, Misses, IdSet, Fees, OnLeftSpine;
    err, at := ValidateBlockTx(c, cs, txs);
    panics := false;
    if err.Some? && err.value != TransactionPanics {
      var r := mempool.RemoveTX(txs[at]);
      panics := r == RemovePanics;
    }
  }

  // ---- the pool after a block

  /** A verdict looks at nothing but the referenced entries. */
  lemma {:induction false} VerdictLocal(c: Crypto, rs: Records, rs': Records, tx: Tx)
    requires forall i :: 0 <= i < |tx.inputs| ==> At(rs, RefsOf(tx.inputs)[i]) == At(rs', RefsOf(tx.inputs)[i])
    ensures TxVerdict(c, rs, tx) == TxVerdict(c, rs', tx)
  {
    hide InputVerdict;
    forall i | 0 <= i < |tx.inputs| ensures InputVerdict(c, rs, tx, i) == InputVerdict(c, rs', tx, i) {
      InputLocal(c, rs, rs', tx, i);
    }
    InputsLocal(c, rs, rs', tx, 0);
  }

  lemma InputLocal(c: Crypto, rs: Records, rs': Records, tx: Tx, i: nat)
    requires i < |tx.inputs| && At(rs, RefsOf(tx.inputs)[i]) == At(rs', RefsOf(tx.inputs)[i])
    ensures InputVerdict(c, rs, tx, i) == InputVerdict(c, rs', tx, i)
  {
    hide Lookup, SigMessage, NewTransactionOutput, SameOutput;
  }

  lemma {:induction false} InputsLocal(c: Crypto, rs: Records, rs': Records, tx: Tx, i: nat)
    requires i <= |tx.inputs|
    requires forall j :: 0 <= j < |tx.inputs| ==> InputVerdict(c, rs, tx, j) == InputVerdict(c, rs', tx, j)
    ensures InputsVerdict(c, rs, tx, i) == InputsVerdict(c, rs', tx, i)
    decreases |tx.inputs| - i
  {
    hide InputVerdict;
    if i < |tx.inputs| {
      InputsLocal(c, rs, rs', tx, i + 1);
    }
  }

  /**
   A valid transaction stays valid over a block with new identifiers exactly when the block takes none of its
   entries.
   */
  lemma StaysValid(c: Crypto, rs: Records, txs: seq<Tx>, skip: bool, tx: Tx)
    requires TxVerdict(c, rs, tx) == Valid
    requires forall i, j :: 0 <= i < j < |txs| ==> txs[i].txid != txs[j].txid
    requires forall i :: 0 <= i < |txs| ==> txs[i].txid !in rs
    ensures TxVerdict(c, Confirmed(rs, txs, skip), tx) == Valid
       <==> forall p :: p in RefsOf(tx.inputs) ==> p !in BlockRefs(txs, skip)
  {
    hide TxVerdict, Confirmed, BlockRefs, OutputId;
    var rs', refs := Confirmed(rs, txs, skip), RefsOf(tx.inputs);
    AcceptedInputs(c, rs, tx);
    forall i | 0 <= i < |refs|
      ensures At(rs', refs[i]) == if refs[i] in BlockRefs(txs, skip) then None else At(rs, refs[i])
    {
      assert Backed(c.hash, rs, tx.inputs[i]);
      ConfirmedAt(rs, txs, skip, refs[i].0, refs[i].1);
    }
    if forall p :: p in refs ==> p !in BlockRefs(txs, skip) {
      VerdictLocal(c, rs, rs', tx);
    } else if TxVerdict(c, rs', tx) == Valid {
      AcceptedInputs(c, rs', tx);
    }
  }

  lemma {:induction false} NotReferenced(txs: seq<Tx>, p: Outpoint)
    requires forall j :: 1 <= j < |txs| ==> p !in RefsOf(txs[j].inputs)
    ensures p !in BlockRefs(txs, true)
  {
    if |txs| > 0 {
      var front := txs[..|txs| - 1];
      assert forall j :: 0 <= j < |front| ==> front[j] == txs[j];
      NotReferenced(front, p);
    }
  }

  /** Two valid transactions that share no identifier share no entry. */
  lemma NoSharedEntry(c: Crypto, rs: Records, t: Tx, u: Tx, p: Outpoint)
    requires TxVerdict(c, rs, t) == Valid && TxVerdict(c, rs, u) == Valid && IdSet(t) !! IdSet(u)
    requires p in RefsOf(t.inputs)
    ensures p !in RefsOf(u.inputs)
  {
    hide TxVerdict, OutputId;
    AcceptedInputs(c, rs, t);
    AcceptedInputs(c, rs, u);
    var i :| 0 <= i < |t.inputs| && RefsOf(t.inputs)[i] == p;
    assert Backed(c.hash, rs, t.inputs[i]) && IdsOf(t.inputs)[i] in IdSet(t);
    forall j | 0 <= j < |u.inputs| ensures RefsOf(u.inputs)[j] != p {
      assert Backed(c.hash, rs, u.inputs[j]) && IdsOf(u.inputs)[j] in IdSet(u);
    }
  }

  /**
   A block mined from the pool, once confirmed and removed from the pool, leaves every other pooled transaction
   valid: what remains can be mined next.
   */
  lemma {:induction false} MiningKeepsReady(c: Crypto, rs: Records, pool: seq<Entry>, txs: seq<Tx>)
    requires Genuine(pool) && Disjoint(pool) && Ready(c, rs, pool) && |txs| > 0
    requires forall j :: 1 <= j < |txs| ==> exists i :: 0 <= i < |pool| && pool[i].tx == txs[j]
    requires forall i, j :: 0 <= i < j < |txs| ==> txs[i].txid != txs[j].txid
    requires forall i :: 0 <= i < |txs| ==> txs[i].txid !in rs
    ensures Ready(c, Confirmed(rs, txs, true), Without(pool, set j | 1 <= j < |txs| :: txs[j].txid))
  {
    hide TxVerdict, Confirmed, BlockRefs, Without, IdSet;
    var gone := set j | 1 <= j < |txs| :: txs[j].txid;
    var rest := Without(pool, gone);
    forall i | 0 <= i < |rest| ensures TxVerdict(c, Confirmed(rs, txs, true), rest[i].tx) == Valid {
      WithoutMember(pool, gone, rest[i]);
      var a :| 0 <= a < |pool| && pool[a] == rest[i];
      forall p | p in RefsOf(rest[i].tx.inputs) ensures p !in BlockRefs(txs, true) {
        forall j | 1 <= j < |txs| ensures p !in RefsOf(txs[j].inputs) {
          var b :| 0 <= b < |pool| && pool[b].tx == txs[j];
          assert txs[j].txid in gone && pool[b].txid == txs[j].txid;
          assert IdSet(pool[a].tx) !! IdSet(pool[b].tx);
          NoSharedEntry(c, rs, pool[a].tx, pool[b].tx, p);
        }
        NotReferenced(txs, p);
      }
      StaysValid(c, rs, txs, true, rest[i].tx);
    }
  }
}
