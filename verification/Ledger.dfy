/**
 core/block.go over the chainstate: validating a block, confirming it, and what the ledger holds after any run of
 blocks.
 */
module Ledger {
  import opened Bytes
  import opened Transactions
  import opened TxMetadata
  import opened Chainstates
  import opened Validation

  // ---- spending entries

  function SpendAll(rs: Records, refs: seq<Outpoint>): Records {
    if |refs| == 0 then rs
    else
      var last := refs[|refs| - 1];
      Spend(SpendAll(rs, refs[..|refs| - 1]), last.0, last.1)
  }

  function At(rs: Records, p: Outpoint): Option<Coin> {
    Lookup(rs, p.0, p.1)
  }

  /** All there, and each named once. */
  predicate Removable(rs: Records, refs: seq<Outpoint>) {
    Distinct(refs) && forall i :: 0 <= i < |refs| ==> At(rs, refs[i]).Some?
  }

  lemma SpendAt(rs: Records, p: Outpoint, q: Outpoint)
    ensures At(Spend(rs, p.0, p.1), q) == if q == p then None else At(rs, q)
  {
    if At(rs, p).Some? && q.0 == p.0 && q != p && q.1 < |rs[p.0].slots| {
      var slots := rs[p.0].slots[p.1 := None];
      assert slots[q.1] == rs[p.0].slots[q.1];
    }
  }

  /** Spending a list takes exactly its entries out of the plain map. */
  lemma {:induction false} SpendAllAt(rs: Records, refs: seq<Outpoint>, q: Outpoint)
    ensures At(SpendAll(rs, refs), q) == if q in refs then None else At(rs, q)
  {
    if |refs| > 0 {
      var n := |refs| - 1;
      SpendAllAt(rs, refs[..n], q);
      SpendAt(SpendAll(rs, refs[..n]), refs[n], q);
      assert refs == refs[..n] + [refs[n]];
    }
  }

  /** One more entry can be taken out exactly when the longer list is removable. */
  lemma RemovableNext(rs: Records, refs: seq<Outpoint>, p: Outpoint)
    requires Removable(rs, refs)
    ensures Removable(rs, refs + [p]) <==> At(SpendAll(rs, refs), p).Some?
  {
    SpendAllAt(rs, refs, p);
    var longer := refs + [p];
    if p in refs {
      var i :| 0 <= i < |refs| && refs[i] == p;
      assert longer[i] == longer[|refs|];
    } else if At(rs, p).Some? {
      assert forall i :: 0 <= i < |refs| ==> longer[i] == refs[i];
    } else {
      assert longer[|refs|] == p;
    }
  }

  lemma RemovablePrefix(rs: Records, a: seq<Outpoint>, b: seq<Outpoint>)
    requires Removable(rs, a + b)
    ensures Removable(rs, a)
  {
    assert forall i :: 0 <= i < |a| ==> a[i] == (a + b)[i];
  }

  /** Lines 299-306 of core/transaction.go: stop at the first input that is not there. */
  method CleanUpInputs(h: Hash, cs: Chainstate, inputs: seq<Input>, ghost rs: Records, ghost before: seq<Outpoint>)
    returns (ok: bool, ghost done: nat)
    requires cs.Valid() && cs.records == SpendAll(rs, before) && Removable(rs, before)
    modifies cs`records, cs.db`store
    ensures cs.Valid()
    ensures ok <==> Removable(rs, before + RefsOf(inputs))
    ensures done <= |inputs| && cs.records == SpendAll(rs, before + RefsOf(inputs)[..done])
    ensures ok ==> cs.records == SpendAll(rs, before + RefsOf(inputs))
    ensures Removable(rs, before + RefsOf(inputs)[..done])
    ensures if ok then done == |inputs|
            else done < |inputs| && !Removable(rs, before + RefsOf(inputs)[..done + 1])
  {
    hide Chainstate.Valid, Removable, Spend, SpendAll;
    ghost var refs := RefsOf(inputs);
    assert before + refs[..0] == before;
    for i := 0 to |inputs|
      invariant cs.Valid() && Removable(rs, before + refs[..i]) && cs.records == SpendAll(rs, before + refs[..i])
    {
      ghost var gone := before + refs[..i];
      RemovableNext(rs, gone, refs[i]);
      SpendOneMore(rs, gone, refs[i]);
      assert before + refs[..i + 1] == gone + [refs[i]];
      var o := inputs[i].outputReferred;
      var removed := cs.RemoveUtxo(h, o.parentTXID, o.vout);
      if !removed {
        if Removable(rs, before + refs) {
          assert before + refs == (before + refs[..i + 1]) + refs[i + 1..];
          RemovablePrefix(rs, before + refs[..i + 1], refs[i + 1..]);
        }
        SpendMissing(SpendAll(rs, gone), refs[i]);
        return false, i;
      }
    }
    assert refs[..|inputs|] == refs;
    ok, done := true, |inputs|;
  }

  lemma SpendMissing(rs: Records, p: Outpoint)
    requires At(rs, p).None?
    ensures Spend(rs, p.0, p.1) == rs
  {
  }

  lemma SpendOneMore(rs: Records, refs: seq<Outpoint>, p: Outpoint)
    ensures SpendAll(rs, refs + [p]) == Spend(SpendAll(rs, refs), p.0, p.1)
  {
    assert (refs + [p])[..|refs|] == refs;
  }

  // ---- confirming a block

  /**
   The entries that confirmation takes out, in order.  As written, the placeholder input of the coinbase is cleaned
   up too (lines 133-136); `skip` passes over transaction 0, as ValidateBlockTx does.
   */
  function BlockRefs(txs: seq<Tx>, skip: bool): seq<Outpoint> {
    if |txs| == 0 then []
    else
      BlockRefs(txs[..|txs| - 1], skip) + if skip && |txs| == 1 then [] else RefsOf(txs[|txs| - 1].inputs)
  }

  /** The references of a block are those of its transactions, one by one, with or without those of the first. */
  lemma {:induction false} RefsOneByOne(tx: Tx, txs: seq<Tx>)
    ensures BlockRefs([], false) == [] && BlockRefs([], true) == []
    ensures BlockRefs([tx] + txs, false) == RefsOf(tx.inputs) + BlockRefs(txs, false)
    ensures BlockRefs([tx] + txs, true) == BlockRefs(txs, false)
  {
    var all, n := [tx] + txs, |txs| - 1;
    if |txs| == 0 {
      assert all == [tx] && all[..0] == [];
    } else {
      assert all[..|all| - 1] == [tx] + txs[..n];
      RefsOneByOne(tx, txs[..n]);
      assert RefsOf(tx.inputs) + BlockRefs(txs[..n], false) + RefsOf(txs[n].inputs)
          == RefsOf(tx.inputs) + (BlockRefs(txs[..n], false) + RefsOf(txs[n].inputs));
    }
  }

  function Puts(txs: seq<Tx>): (r: seq<(bytes, Record)>)
    ensures |r| == |txs| && forall i :: 0 <= i < |r| ==> r[i] == (txs[i].txid, RecordOf(txs[i]))
  {
    seq(|txs|, i requires 0 <= i < |txs| => (txs[i].txid, RecordOf(txs[i])))
  }

  predicate AllUnspent(txs: seq<Tx>) {
    forall i :: 0 <= i < |txs| ==> HasUnspent(RecordOf(txs[i]).slots)
  }

  /** When ConfirmAsValid succeeds: all references can be removed, every transaction has an unspent output. */
  predicate Confirms(rs: Records, txs: seq<Tx>, skip: bool) {
    Removable(rs, BlockRefs(txs, skip)) && AllUnspent(txs)
  }

  /** What a confirmed block leaves: all its references gone, then all its outputs in place. */
  function Confirmed(rs: Records, txs: seq<Tx>, skip: bool): Records {
    PutAll(SpendAll(rs, BlockRefs(txs, skip)), Puts(txs))
  }

  /**
   Confirmation stops at transaction `at` with `done` references taken out: everything before went well, and it is a
   reference of this transaction that can not be removed, or else the transaction has no unspent output.
   */
  ghost predicate StopsAt(rs: Records, txs: seq<Tx>, skip: bool, at: nat, done: nat) {
    && at < |txs| && AllUnspent(txs[..at])
    && |BlockRefs(txs[..at], skip)| <= done <= |BlockRefs(txs[..at + 1], skip)| <= |BlockRefs(txs, skip)|
    && Removable(rs, BlockRefs(txs, skip)[..done])
    && if done < |BlockRefs(txs[..at + 1], skip)| then !Removable(rs, BlockRefs(txs, skip)[..done + 1])
       else !HasUnspent(RecordOf(txs[at]).slots)
  }

  /** There is one such place, so that what a failed confirmation leaves behind is determined. */
  lemma StopsOnce(rs: Records, txs: seq<Tx>, skip: bool, at: nat, done: nat, at': nat, done': nat)
    requires StopsAt(rs, txs, skip, at, done) && StopsAt(rs, txs, skip, at', done')
    ensures at == at' && done == done'
  {
    hide Removable, HasUnspent, RecordOf, BlockRefs;
    StopsFirst(rs, txs, skip, at, done, at', done');
    StopsFirst(rs, txs, skip, at', done', at, done);
    if done < done' {
      RemovableFront(rs, BlockRefs(txs, skip), done + 1, done');
    } else if done' < done {
      RemovableFront(rs, BlockRefs(txs, skip), done' + 1, done);
    }
  }

  lemma StopsFirst(rs: Records, txs: seq<Tx>, skip: bool, at: nat, done: nat, at': nat, done': nat)
    requires StopsAt(rs, txs, skip, at, done) && StopsAt(rs, txs, skip, at', done')
    ensures at' <= at
  {
    hide Removable, HasUnspent, RecordOf, BlockRefs;
    if at < at' {
      assert txs[..at'][at] == txs[at];
      BlockRefsPrefix(rs, txs[..at'], at + 1, skip);
      assert txs[..at'][..at + 1] == txs[..at + 1];
      if done < |BlockRefs(txs[..at + 1], skip)| {
        RemovableFront(rs, BlockRefs(txs, skip), done + 1, done');
      }
    }
  }

  lemma RemovableFront(rs: Records, refs: seq<Outpoint>, m: nat, n: nat)
    requires m <= n <= |refs| && Removable(rs, refs[..n])
    ensures Removable(rs, refs[..m])
  {
    assert refs[..n] == refs[..m] + refs[m..n];
    RemovablePrefix(rs, refs[..m], refs[m..n]);
  }

  /**
   Lines 129-143.  Removals happen at once and insertions at the end, so the result is that of removing everything
   first; and the block is confirmed exactly when all its references can be removed and every transaction has an
   unspent output.  A confirmation that fails is not undone: the first references are gone from the chainstate, and
   the transactions before the failing one stay in the batch, to be written with the next one.  The store answers for
   what was confirmed exactly if the mask does not show on it: under a nonzero key of the eight bytes that are
   generated, no confirmed block reads back.
   */
  method ConfirmAsValid(h: Hash, cs: Chainstate, txs: seq<Tx>, skip: bool)
    returns (ok: bool, ghost done: nat, ghost at: nat)
    requires cs.Valid() && forall i :: 0 <= i < |txs| ==> Storable(RecordOf(txs[i]))
    modifies cs`records, cs`pending, cs.db`store, cs.db`currentBatch
    ensures ok <==> Confirms(old(cs.records), txs, skip)
    ensures ok ==> cs.records == PutAll(SpendAll(old(cs.records), BlockRefs(txs, skip)), old(cs.pending) + Puts(txs))
    ensures ok ==> cs.pending == []
    ensures ok && old(cs.pending) == [] ==> cs.records == Confirmed(old(cs.records), txs, skip)
    ensures !ok ==> StopsAt(old(cs.records), txs, skip, at, done)
    ensures !ok ==> cs.Valid() && cs.records == SpendAll(old(cs.records), BlockRefs(txs, skip)[..done])
    ensures !ok ==> cs.pending == old(cs.pending) + Puts(txs[..at])
    ensures ok ==> cs.Answers(SpendAll(old(cs.records), BlockRefs(txs, skip)), old(cs.pending) + Puts(txs))
    ensures ok ==> (cs.Valid() <==> cs.ReadsBack(old(cs.pending) + Puts(txs)))
    ensures ok && |cs.db.obfuscationKey| <= 9 ==>
              (cs.Valid() <==> (txs == [] && old(cs.pending) == []) || cs.db.Clear())
  {
    hide Chainstate.Valid, Chainstate.Answers, Chainstate.ReadsBack, Removable, SpendAll, PutAll, Storable, HasUnspent,
      RecordOf;
    ghost var rs, before := cs.records, cs.pending;
    NothingSpent(rs);
    for k := 0 to |txs|
      invariant cs.Valid() && cs.pending == before + Puts(txs[..k]) && AllUnspent(txs[..k])
      invariant Removable(rs, BlockRefs(txs[..k], skip)) && cs.records == SpendAll(rs, BlockRefs(txs[..k], skip))
    {
      ok, done := ConfirmTransaction(h, cs, txs, k, skip, rs);
      if !ok {
        at := k;
        return;
      }
      assert Puts(txs[..k + 1]) == Puts(txs[..k]) + [(txs[k].txid, RecordOf(txs[k]))];
    }
    assert txs[..|txs|] == txs;
    assert before + Puts(txs) == before + Puts(txs[..|txs|]);
    ValidDb(cs);
    cs.WriteBatchTX();
    assert before == [] ==> before + Puts(txs) == Puts(txs);
    ok, done, at := true, 0, 0;
  }

  /** The first block confirmed on an empty store under a generated key: each of its transactions reads back wrong. */
  method MaskedCounterexample(h: Hash, obfuscationKey: bytes, txs: seq<Tx>) returns (cs: Chainstate)
    requires |obfuscationKey| == 8 && obfuscationKey[0] != 0
    requires |txs| > 0 && Confirms(map[], txs, true) && forall i :: 0 <= i < |txs| ==> Storable(RecordOf(txs[i]))
    requires forall i, j :: 0 <= i < j < |txs| ==> txs[i].txid != txs[j].txid
    ensures cs.db.Valid() && cs.records == Confirmed(map[], txs, true) && !cs.Valid()
    ensures forall i :: 0 <= i < |txs| ==>
              cs.Read(txs[i].txid).Some? && cs.Read(txs[i].txid) != Some(EncodeRecord(RecordOf(txs[i])))
  {
    hide EncodeRecord, Removable, SpendAll, PutAll, Storable, RecordOf, HasUnspent, Chainstate.Valid, Chainstate.Read,
      Chainstate.Answers, Chainstate.ReadsBack, BlockRefs;
    assert Holding(true, obfuscationKey, map[], map[]);
    cs := new Chainstate(true, obfuscationKey, map[], map[]);
    var ok, _, _ := ConfirmAsValid(h, cs, txs, true);
    assert [] + Puts(txs) == Puts(txs);
    MaskedPuts(cs, SpendAll(map[], BlockRefs(txs, true)), txs);
  }

  lemma MaskedPuts(cs: Chainstate, rs: Records, txs: seq<Tx>)
    requires cs.db.Valid() && cs.db.isObfuscated && |cs.db.obfuscationKey| == 8 && cs.db.obfuscationKey[0] != 0
    requires cs.Answers(rs, Puts(txs)) && forall i, j :: 0 <= i < j < |txs| ==> txs[i].txid != txs[j].txid
    ensures forall i :: 0 <= i < |txs| ==>
              cs.Read(txs[i].txid).Some? && cs.Read(txs[i].txid) != Some(EncodeRecord(RecordOf(txs[i])))
  {
    hide EncodeRecord, RecordOf, LastPut, Chainstate.Read, Chainstate.Answers;
    forall i | 0 <= i < |txs|
      ensures cs.Read(txs[i].txid).Some? && cs.Read(txs[i].txid) != Some(EncodeRecord(RecordOf(txs[i])))
    {
      LastPutOnce(Puts(txs), i);
      cs.MaskedAnswer(rs, Puts(txs), txs[i].txid);
    }
  }

  lemma StopsBehind(rs: Records, txs: seq<Tx>, skip: bool, k: nat)
    requires k < |txs| && AllUnspent(txs[..k]) && Removable(rs, BlockRefs(txs[..k + 1], skip))
    requires !HasUnspent(RecordOf(txs[k]).slots)
    ensures StopsAt(rs, txs, skip, k, |BlockRefs(txs[..k + 1], skip)|)
  {
    hide Removable, HasUnspent, RecordOf;
    assert txs[..k + 1][..k] == txs[..k];
    BlockRefsPrefix(rs, txs, k + 1, skip);
    BlockRefsPrefix(rs, txs[..k + 1], k, skip);
    assert BlockRefs(txs, skip)[..|BlockRefs(txs[..k + 1], skip)|] == BlockRefs(txs[..k + 1], skip);
  }

  lemma StopsInside(rs: Records, txs: seq<Tx>, skip: bool, k: nat, n: nat)
    requires k < |txs| && !(skip && k == 0) && AllUnspent(txs[..k]) && n < |txs[k].inputs|
    requires var before, refs := BlockRefs(txs[..k], skip), RefsOf(txs[k].inputs);
             Removable(rs, before + refs[..n]) && !Removable(rs, before + refs[..n + 1])
    ensures StopsAt(rs, txs, skip, k, |BlockRefs(txs[..k], skip)| + n)
  {
    hide Removable, HasUnspent, RecordOf;
    var before, refs, all := BlockRefs(txs[..k], skip), RefsOf(txs[k].inputs), BlockRefs(txs, skip);
    assert txs[..k + 1][..k] == txs[..k];
    BlockRefsPrefix(rs, txs, k + 1, skip);
    assert all[..|before| + |refs|] == before + refs;
    assert all[..|before| + n] == before + refs[..n] && all[..|before| + n + 1] == before + refs[..n + 1];
  }

  /** The body of the loop of lines 133-140. */
  method ConfirmTransaction(h: Hash, cs: Chainstate, txs: seq<Tx>, k: nat, skip: bool, ghost rs: Records)
    returns (ok: bool, ghost done: nat)
    requires cs.Valid() && k < |txs| && Storable(RecordOf(txs[k]))
    requires Removable(rs, BlockRefs(txs[..k], skip)) && cs.records == SpendAll(rs, BlockRefs(txs[..k], skip))
    modifies cs`records, cs`pending, cs.db`store, cs.db`currentBatch
    ensures cs.Valid()
    ensures ok ==>
              HasUnspent(RecordOf(txs[k]).slots) && cs.pending == old(cs.pending) + [(txs[k].txid, RecordOf(txs[k]))]
    ensures ok ==>
              Removable(rs, BlockRefs(txs[..k + 1], skip)) && cs.records == SpendAll(rs, BlockRefs(txs[..k + 1], skip))
    ensures !ok ==> !Removable(rs, BlockRefs(txs, skip)) || !AllUnspent(txs)
    ensures !ok ==> cs.pending == old(cs.pending)
    ensures !ok ==> done <= |BlockRefs(txs, skip)| && cs.records == SpendAll(rs, BlockRefs(txs, skip)[..done])
    ensures !ok && AllUnspent(txs[..k]) ==> StopsAt(rs, txs, skip, k, done)
  {
    hide Chainstate.Valid, Removable, SpendAll, Storable, HasUnspent, RecordOf, StopsAt;
    assert txs[..k + 1][..k] == txs[..k];
    BlockRefsPrefix(rs, txs, k + 1, skip);
    ghost var before, all := BlockRefs(txs[..k], skip), BlockRefs(txs, skip);
    if !(skip && k == 0) {
      var cleaned, n := CleanUpInputs(h, cs, txs[k].inputs, rs, before);
      done := |before| + n;
      assert before + RefsOf(txs[k].inputs)[..n] == all[..done] by {
        assert all[..|before| + |txs[k].inputs|] == before + RefsOf(txs[k].inputs);
      }
      if !cleaned {
        if AllUnspent(txs[..k]) {
          StopsInside(rs, txs, skip, k, n);
        }
        return false, done;
      }
      assert RefsOf(txs[k].inputs)[..|txs[k].inputs|] == RefsOf(txs[k].inputs);
    } else {
      done := |before|;
    }
    assert all[..|BlockRefs(txs[..k + 1], skip)|] == BlockRefs(txs[..k + 1], skip);
    done := |BlockRefs(txs[..k + 1], skip)|;
    var spent := cs.InsertBatchTX(txs[k]);
    ok := !spent;
    if spent && AllUnspent(txs[..k]) {
      StopsBehind(rs, txs, skip, k);
    }
  }

  lemma ValidDb(cs: Chainstate)
    requires cs.Valid()
    ensures cs.db.Valid()
  {
  }

  lemma NothingSpent(rs: Records)
    ensures Removable(rs, []) && SpendAll(rs, []) == rs && BlockRefs([], true) == [] && BlockRefs([], false) == []
  {
  }

  /** The references of the first transactions come first; if all can be removed, so can they. */
  lemma {:induction false} BlockRefsPrefix(rs: Records, txs: seq<Tx>, k: nat, skip: bool)
    requires k <= |txs|
    ensures Removable(rs, BlockRefs(txs, skip)) ==> Removable(rs, BlockRefs(txs[..k], skip))
    ensures BlockRefs(txs[..k], skip) <= BlockRefs(txs, skip)
    decreases |txs|
  {
    if k < |txs| {
      var front := txs[..|txs| - 1];
      assert txs[..k] == front[..k];
      BlockRefsPrefix(rs, front, k, skip);
      if Removable(rs, BlockRefs(txs, skip)) {
        RemovablePrefix(rs, BlockRefs(front, skip), if skip && |txs| == 1 then [] else RefsOf(txs[|txs| - 1].inputs));
      }
    } else {
      assert txs[..k] == txs;
    }
  }

  // ---- validating a block

  datatype BlockError = BadTransaction(error: TxError) | TransactionPanics | InvalidTxInBlock

  /** The identifiers referenced by all transactions but the first. */
  function BlockIds(txs: seq<Tx>): seq<bytes> {
    if |txs| <= 1 then [] else BlockIds(txs[..|txs| - 1]) + IdsOf(txs[|txs| - 1].inputs)
  }

  /** ValidateBlockTx accepts: every transaction but the first is valid, and no output is referenced twice. */
  predicate BlockValid(c: Crypto, rs: Records, txs: seq<Tx>) {
    && (forall i :: 1 <= i < |txs| ==> TxVerdict(c, rs, txs[i]) == Valid)
    && Distinct(BlockIds(txs))
  }

  /** The identifier that input a of transaction i refers to. */
  function IdAt(txs: seq<Tx>, i: nat, a: nat): bytes
    requires i < |txs| && a < |txs[i].inputs|
  {
    txs[i].inputs[a].outputReferred.outputID
  }

  predicate Place(txs: seq<Tx>, i: int, a: int) {
    1 <= i < |txs| && 0 <= a < |txs[i].inputs|
  }

  lemma {:induction false} InBlockIds(txs: seq<Tx>, x: bytes)
    ensures x in BlockIds(txs) <==> exists i, a :: Place(txs, i, a) && IdAt(txs, i, a) == x
  {
    if |txs| > 1 {
      var n := |txs| - 1;
      var front, ids := txs[..n], IdsOf(txs[n].inputs);
      InBlockIds(front, x);
      if x in BlockIds(front) {
        var i, a :| Place(front, i, a) && IdAt(front, i, a) == x;
        assert Place(txs, i, a) && IdAt(txs, i, a) == x;
      } else if x in ids {
        var a :| 0 <= a < |ids| && ids[a] == x;
        assert Place(txs, n, a) && IdAt(txs, n, a) == x;
      }
      if exists i, a :: Place(txs, i, a) && IdAt(txs, i, a) == x {
        var i, a :| Place(txs, i, a) && IdAt(txs, i, a) == x;
        if i < n {
          assert Place(front, i, a) && IdAt(front, i, a) == x;
        } else {
          assert ids[a] == x;
        }
      }
    }
  }

  /** No two places behind the coinbase refer to one identifier. */
  ghost predicate NoneTwice(txs: seq<Tx>) {
    forall i, a, j, b :: Place(txs, i, a) && Place(txs, j, b) && IdAt(txs, i, a) == IdAt(txs, j, b) ==> i == j && a == b
  }

  lemma DistinctSum<T>(s: seq<T>, t: seq<T>)
    ensures Distinct(s + t) <==> Distinct(s) && Distinct(t) && forall x :: x in s ==> x !in t
  {
    var u := s + t;
    assert forall j :: 0 <= j < |t| ==> u[|s| + j] == t[j];
    if Distinct(u) {
      DistinctPrefix(s, t);
      forall i, j | 0 <= i < j < |t| ensures t[i] != t[j] {
        assert u[|s| + i] != u[|s| + j];
      }
      forall x | x in s ensures x !in t {
        var i :| 0 <= i < |s| && s[i] == x;
        assert u[i] == x;
      }
    }
    if Distinct(s) && Distinct(t) && forall x :: x in s ==> x !in t {
      forall i, j | 0 <= i < j < |u| ensures u[i] != u[j] {
        if i < |s| <= j {
          assert u[i] in s && u[j] in t;
        }
      }
    }
  }

  lemma {:induction false} NoneTwiceIff(txs: seq<Tx>)
    ensures Distinct(BlockIds(txs)) <==> NoneTwice(txs)
  {
    if |txs| > 1 {
      var n := |txs| - 1;
      var front, ids := txs[..n], IdsOf(txs[n].inputs);
      NoneTwiceIff(front);
      DistinctSum(BlockIds(front), ids);
      assert BlockIds(txs) == BlockIds(front) + ids;
      hide BlockIds, Distinct, NoneTwice;
      AcrossIff(front, ids);
      if NoneTwice(txs) {
        NoneTwiceFront(txs, front);
      }
      NoneTwiceBack(txs, front);
    }
  }

  /** No place refers to one of these identifiers. */
  ghost predicate NoneOf(txs: seq<Tx>, ids: seq<bytes>) {
    forall i, a, b :: Place(txs, i, a) && 0 <= b < |ids| ==> IdAt(txs, i, a) != ids[b]
  }

  lemma AcrossIff(front: seq<Tx>, ids: seq<bytes>)
    ensures NoneOf(front, ids) <==> forall x :: x in BlockIds(front) ==> x !in ids
  {
    hide BlockIds;
    if NoneOf(front, ids) {
      forall x | x in BlockIds(front) ensures x !in ids {
        InBlockIds(front, x);
      }
    }
    if forall x :: x in BlockIds(front) ==> x !in ids {
      forall i, a, b | Place(front, i, a) && 0 <= b < |ids| ensures IdAt(front, i, a) != ids[b] {
        InBlockIds(front, IdAt(front, i, a));
      }
    }
  }

  lemma NoneTwiceFront(txs: seq<Tx>, front: seq<Tx>)
    requires |txs| > 1 && front == txs[..|txs| - 1] && NoneTwice(txs)
    ensures NoneTwice(front) && Distinct(IdsOf(txs[|txs| - 1].inputs)) && NoneOf(front, IdsOf(txs[|txs| - 1].inputs))
  {
    var n := |txs| - 1;
    var ids := IdsOf(txs[n].inputs);
    assert forall i, a :: Place(front, i, a) ==> Place(txs, i, a) && IdAt(txs, i, a) == IdAt(front, i, a);
    assert forall b :: 0 <= b < |ids| ==> Place(txs, n, b) && IdAt(txs, n, b) == ids[b];
  }

  lemma NoneTwiceBack(txs: seq<Tx>, front: seq<Tx>)
    requires |txs| > 1 && front == txs[..|txs| - 1]
    ensures NoneTwice(front) && Distinct(IdsOf(txs[|txs| - 1].inputs)) && NoneOf(front, IdsOf(txs[|txs| - 1].inputs))
            ==> NoneTwice(txs)
  {
    var n := |txs| - 1;
    var ids := IdsOf(txs[n].inputs);
    assert forall i, a :: Place(txs, i, a) && i < n ==> Place(front, i, a) && IdAt(txs, i, a) == IdAt(front, i, a);
    assert forall b :: Place(txs, n, b) ==> 0 <= b < |ids| && IdAt(txs, n, b) == ids[b];
  }

  /** A block is valid if and only if each transaction behind the first is, and no identifier is referred to twice. */
  lemma BlockValidExactly(c: Crypto, rs: Records, txs: seq<Tx>)
    ensures BlockValid(c, rs, txs)
       <==> && (forall i :: 1 <= i < |txs| ==> TxVerdict(c, rs, txs[i]) == Valid)
            && (forall i, a, j, b :: Place(txs, i, a) && Place(txs, j, b) && (i != j || a != b) ==>
                  txs[i].inputs[a].outputReferred.outputID != txs[j].inputs[b].outputReferred.outputID)
  {
    NoneTwiceIff(txs);
    hide TxVerdict, BlockIds, Distinct, NoneTwice, Place;
    NoneTwiceMeans(txs);
  }

  lemma NoneTwiceMeans(txs: seq<Tx>)
    ensures NoneTwice(txs)
       <==> forall i, a, j, b :: Place(txs, i, a) && Place(txs, j, b) && (i != j || a != b) ==>
              txs[i].inputs[a].outputReferred.outputID != txs[j].inputs[b].outputReferred.outputID
  {
    if NoneTwice(txs) {
      forall i, a, j, b | Place(txs, i, a) && Place(txs, j, b) && (i != j || a != b)
        ensures txs[i].inputs[a].outputReferred.outputID != txs[j].inputs[b].outputReferred.outputID
      {
        assert IdAt(txs, i, a) != IdAt(txs, j, b);
      }
    } else {
      var i, a, j, b :| Place(txs, i, a) && Place(txs, j, b) && (i != j || a != b)
                        && IdAt(txs, i, a) == IdAt(txs, j, b);
    }
  }

  lemma DistinctPrefix<T>(a: seq<T>, b: seq<T>)
    requires Distinct(a + b)
    ensures Distinct(a)
  {
    assert forall i :: 0 <= i < |a| ==> a[i] == (a + b)[i];
  }

  lemma {:induction false} BlockIdsPrefix(txs: seq<Tx>, k: nat)
    requires k <= |txs| && Distinct(BlockIds(txs))
    ensures Distinct(BlockIds(txs[..k]))
    decreases |txs|
  {
    if k < |txs| {
      var front := txs[..|txs| - 1];
      assert txs[..k] == front[..k];
      if |txs| > 1 {
        DistinctPrefix(BlockIds(front), IdsOf(txs[|txs| - 1].inputs));
      } else {
        assert BlockIds(front) == [];
      }
      BlockIdsPrefix(front, k);
    } else {
      assert txs[..k] == txs;
    }
  }

  /** Lines 94-127, without the removal from the mempool; `at` is the transaction that fails, and would be removed. */
  method ValidateBlockTx(c: Crypto, cs: Chainstate, txs: seq<Tx>) returns (err: Option<BlockError>, at: nat)
    requires cs.Valid()
    ensures err == None <==> BlockValid(c, cs.records, txs)
    ensures err.Some? ==> 1 <= at < |txs| && BlockValid(c, cs.records, txs[..at])
    ensures err.Some? ==> match err.value
                          case BadTransaction(e) => TxVerdict(c, cs.records, txs[at]) == Rejected(e)
                          case TransactionPanics => TxVerdict(c, cs.records, txs[at]) == Panics
                          case InvalidTxInBlock =>
                            TxVerdict(c, cs.records, txs[at]) == Valid && !Distinct(BlockIds(txs[..at + 1]))
  {
    hide Chainstate.Valid, TxVerdict, Distinct;
    var dedup: set<bytes> := {};
    NoIds();
    for k := 0 to |txs|
      invariant BlockValid(c, cs.records, txs[..k]) && forall x :: x in dedup <==> x in BlockIds(txs[..k])
    {
      assert txs[..k + 1][..k] == txs[..k];
      if k == 0 {
        continue;
      }
      var v := ValidateTransaction(c, cs, txs[k]);
      if v != Valid {
        NotValidAt(c, cs.records, txs, k);
        return Some(if v == Panics then TransactionPanics else BadTransaction(v.error)), k;
      }
      var dup;
      dup, dedup := AddIds(txs[k].inputs, dedup, BlockIds(txs[..k]));
      if dup {
        if Distinct(BlockIds(txs)) {
          BlockIdsPrefix(txs, k + 1);
        }
        return Some(InvalidTxInBlock), k;
      }
    }
    assert txs[..|txs|] == txs;
    err, at := None, 0;
  }

  lemma NotValidAt(c: Crypto, rs: Records, txs: seq<Tx>, k: nat)
    requires 1 <= k < |txs| && TxVerdict(c, rs, txs[k]) != Valid
    ensures !BlockValid(c, rs, txs)
  {
  }

  lemma NoIds()
    ensures BlockIds([]) == [] && Distinct<bytes>([])
  {
  }

  /** Lines 114-123. */
  method AddIds(inputs: seq<Input>, seen: set<bytes>, ghost before: seq<bytes>) returns (dup: bool, dedup: set<bytes>)
    requires Distinct(before) && forall x :: x in seen <==> x in before
    ensures dup <==> !Distinct(before + IdsOf(inputs))
    ensures !dup ==> forall x :: x in dedup <==> x in before + IdsOf(inputs)
  {
    dedup := seen;
    ghost var ids := IdsOf(inputs);
    assert before + ids[..0] == before;
    for i := 0 to |inputs|
      invariant Distinct(before + ids[..i]) && forall x :: x in dedup <==> x in before + ids[..i]
    {
      ghost var done := before + ids[..i];
      assert before + ids[..i + 1] == done + [ids[i]];
      DistinctNext(done, ids[i]);
      if inputs[i].outputReferred.outputID in dedup {
        if Distinct(before + ids) {
          assert before + ids == (done + [ids[i]]) + ids[i + 1..];
          DistinctPrefix(done + [ids[i]], ids[i + 1..]);
        }
        return true, dedup;
      }
      dedup := dedup + {inputs[i].outputReferred.outputID};
    }
    assert ids[..|inputs|] == ids;
    dup := false;
  }

  lemma DistinctNext<T>(s: seq<T>, x: T)
    requires Distinct(s)
    ensures Distinct(s + [x]) <==> x !in s
  {
    var t := s + [x];
    if x in s {
      var i :| 0 <= i < |s| && s[i] == x;
      assert t[i] == t[|s|];
    } else {
      assert forall i :: 0 <= i < |s| ==> t[i] == s[i];
    }
  }

  // ---- a valid block confirms

  /** The references of transactions 1.. are backed by the ledger, and distinct because their identifiers are. */
  lemma {:induction false} ValidRefs(c: Crypto, rs: Records, txs: seq<Tx>)
    requires BlockValid(c, rs, txs)
    ensures |BlockRefs(txs, true)| == |BlockIds(txs)|
    ensures forall i :: 0 <= i < |BlockIds(txs)| ==>
              var p := BlockRefs(txs, true)[i];
              p.1 < TWO_32 && At(rs, p).Some? && BlockIds(txs)[i] == OutputId(c.hash, p.0, p.1)
  {
    hide OutputId, TxVerdict, Lookup;
    if |txs| > 1 {
      var n := |txs| - 1;
      var front := txs[..n];
      BlockIdsPrefix(txs, n);
      ValidRefs(c, rs, front);
      assert TxVerdict(c, rs, txs[n]) == Valid;
      AcceptedInputs(c, rs, txs[n]);
      var inputs := txs[n].inputs;
      assert BlockRefs(txs, true) == BlockRefs(front, true) + RefsOf(inputs);
      forall i | 0 <= i < |inputs|
        ensures At(rs, RefsOf(inputs)[i]).Some?
        ensures IdsOf(inputs)[i] == OutputId(c.hash, RefsOf(inputs)[i].0, RefsOf(inputs)[i].1)
      {
        assert Backed(c.hash, rs, inputs[i]);
      }
    } else if |txs| == 1 {
      assert txs[..0] == [];
    }
  }

  /** Every reference of a valid block can be removed, once, with no assumption on the hash. */
  lemma ValidRemovable(c: Crypto, rs: Records, txs: seq<Tx>)
    requires BlockValid(c, rs, txs)
    ensures Removable(rs, BlockRefs(txs, true))
  {
    ValidRefs(c, rs, txs);
    hide OutputId, BlockRefs, BlockIds, Lookup;
    var refs, ids := BlockRefs(txs, true), BlockIds(txs);
    forall i, j | 0 <= i < j < |refs| ensures refs[i] != refs[j] {
      assert ids[i] != ids[j];
    }
  }

  lemma {:induction false} RefsWithCoinbase(txs: seq<Tx>)
    requires |txs| > 0
    ensures BlockRefs(txs, false) == RefsOf(txs[0].inputs) + BlockRefs(txs, true)
  {
    var n := |txs| - 1;
    if n == 0 {
      assert txs[..0] == [] && BlockRefs(txs[..0], false) == [] && BlockRefs(txs[..0], true) == [];
    } else {
      RefsWithCoinbase(txs[..n]);
      assert txs[..n][0] == txs[0];
    }
  }

  /**
   A valid block confirms when transaction 0 is passed over, if and only if each of its transactions has an unspent
   output.  As written it does so if and only if, besides, the inputs of transaction 0 are spendable entries too, apart
   from the others.
   */
  lemma ValidBlockConfirms(c: Crypto, rs: Records, txs: seq<Tx>)
    requires BlockValid(c, rs, txs) && |txs| > 0
    ensures Confirms(rs, txs, true) <==> AllUnspent(txs)
    ensures Confirms(rs, txs, false)
       <==> && AllUnspent(txs)
            && Removable(rs, RefsOf(txs[0].inputs))
            && forall p :: p in RefsOf(txs[0].inputs) ==> p !in BlockRefs(txs, true)
  {
    ValidRemovable(c, rs, txs);
    RefsWithCoinbase(txs);
    RemovableConcat(rs, RefsOf(txs[0].inputs), BlockRefs(txs, true));
  }

  lemma RemovableConcat(rs: Records, a: seq<Outpoint>, b: seq<Outpoint>)
    requires Removable(rs, b)
    ensures Removable(rs, a + b) <==> Removable(rs, a) && forall p :: p in a ==> p !in b
  {
    var s := a + b;
    if i, j :| 0 <= i < |a| && 0 <= j < |b| && a[i] == b[j] {
      assert s[i] == s[|a| + j] && a[i] in a && b[j] in b;
    } else if Removable(rs, s) {
      RemovablePrefix(rs, a, b);
    } else if Removable(rs, a) {
      assert forall i :: 0 <= i < |s| ==> s[i] == if i < |a| then a[i] else b[i - |a|];
    }
  }

  /** What the placeholder input of a coinbase names: entry 0 of the all-zero transaction. */
  function Placeholder(): Outpoint {
    (seq(32, _ => 0), 0)
  }

  /**
   As written, a valid block with a coinbase made by NewCoinbaseTransaction confirms only if the ledger has an entry 0
   of the all-zero transaction that the block does not spend otherwise; it then takes that entry out.
   */
  lemma CoinbaseBlocksAsWritten(c: Crypto, rs: Records, txs: seq<Tx>, msg: bytes, value: uint64, key: bytes,
                                height: uint32)
    requires |txs| > 0 && Some(txs[0]) == NewCoinbaseTransaction(c.hash, msg, value, key, height)
    requires BlockValid(c, rs, txs)
    ensures Confirms(rs, txs, false)
       <==> AllUnspent(txs) && At(rs, Placeholder()).Some? && Placeholder() !in BlockRefs(txs, true)
    ensures Placeholder() in BlockRefs(txs, false)
  {
    hide BlockValid, Removable;
    ValidBlockConfirms(c, rs, txs);
    RefsWithCoinbase(txs);
    var refs := RefsOf(txs[0].inputs);
    assert refs == [Placeholder()];
    assert BlockRefs(txs, false)[0] == refs[0];
    Lone(rs, Placeholder());
  }

  /** The first block, of such a coinbase alone: valid, confirmed with transaction 0 passed over, and not as written. */
  lemma CoinbaseBlockCounterexample(c: Crypto, coinbase: Tx, msg: bytes, value: uint64, key: bytes, height: uint32)
    requires Some(coinbase) == NewCoinbaseTransaction(c.hash, msg, value, key, height)
    ensures BlockValid(c, map[], [coinbase]) && Confirms(map[], [coinbase], true) && !Confirms(map[], [coinbase], false)
  {
    hide TxId, OutputId;
    assert BlockIds([coinbase]) == [];
    assert SlotsOf(coinbase.outputs)[0].Some?;
    ValidBlockConfirms(c, map[], [coinbase]);
    CoinbaseBlocksAsWritten(c, map[], [coinbase], msg, value, key, height);
  }

  lemma Lone(rs: Records, p: Outpoint)
    ensures Removable(rs, [p]) <==> At(rs, p).Some?
  {
    assert [p][0] == p;
  }

  // ---- the plain map after a block

  lemma {:induction false} PutAllAt(rs: Records, b: seq<(bytes, Record)>, t: bytes, v: nat)
    requires forall i, j :: 0 <= i < j < |b| ==> b[i].0 != b[j].0
    ensures (forall i :: 0 <= i < |b| ==> b[i].0 != t) ==> Lookup(PutAll(rs, b), t, v) == Lookup(rs, t, v)
    ensures forall i :: 0 <= i < |b| && b[i].0 == t ==>
              Lookup(PutAll(rs, b), t, v) == if v < |b[i].1.slots| then b[i].1.slots[v] else None
  {
    if |b| > 0 {
      var front := b[..|b| - 1];
      assert forall i :: 0 <= i < |front| ==> front[i] == b[i];
      PutAllAt(rs, front, t, v);
    }
  }

  /** Entry by entry: a new transaction's outputs are in place, referenced entries are gone, the rest is as it was. */
  lemma ConfirmedAt(rs: Records, txs: seq<Tx>, skip: bool, t: bytes, v: nat)
    requires forall i, j :: 0 <= i < j < |txs| ==> txs[i].txid != txs[j].txid
    ensures forall i :: 0 <= i < |txs| && txs[i].txid == t ==>
              Lookup(Confirmed(rs, txs, skip), t, v)
              == if v < |txs[i].outputs| && txs[i].outputs[v].isNotSpent then
                   Some(Coin(txs[i].outputs[v].value, txs[i].outputs[v].scriptPubKey))
                 else None
    ensures (forall i :: 0 <= i < |txs| ==> txs[i].txid != t) ==>
              Lookup(Confirmed(rs, txs, skip), t, v)
              == if (t, v) in BlockRefs(txs, skip) then None else Lookup(rs, t, v)
  {
    var spent := SpendAll(rs, BlockRefs(txs, skip));
    PutAllAt(spent, Puts(txs), t, v);
    SpendAllAt(rs, BlockRefs(txs, skip), (t, v));
    assert forall i :: 0 <= i < |txs| ==> Puts(txs)[i].0 == txs[i].txid;
  }
}
