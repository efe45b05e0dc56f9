/** core/mempool.go: the pool of validated transactions with its two indexes, over the fee tree. */
module MemPools {
  import opened Bytes
  import opened Transactions
  import opened Chainstates
  import V = Validation
  import opened FeeTree
  import opened FeeTreeOrder
  import opened FeeTreeBalance
  import opened FeeTreeAsWritten
  import opened FeeTreeRecords
  import opened StableOrder
  import opened MemTrees

  function IdSet(tx: Tx): set<bytes> {
    set x | x in V.IdsOf(tx.inputs)
  }

  /** The entries as insertion made them, each with an input. */
  ghost predicate Genuine(pool: seq<Entry>) {
    forall i :: 0 <= i < |pool| ==> pool[i] == EntryFor(pool[i].tx) && IdSet(pool[i].tx) != {}
  }

  /** No identifier is pooled twice. */
  ghost predicate Once(pool: seq<Entry>) {
    forall i, j :: 0 <= i < j < |pool| ==> pool[i].txid != pool[j].txid
  }

  /** No output is spent twice. */
  ghost predicate Disjoint(pool: seq<Entry>) {
    forall i, j :: 0 <= i < j < |pool| ==> IdSet(pool[i].tx) !! IdSet(pool[j].tx)
  }

  /** txmap maps exactly the pooled identifiers, each to the key of its record in the tree. */
  ghost predicate FeesIndexed(pool: seq<Entry>, txmap: map<bytes, uint64>) {
    && (forall i :: 0 <= i < |pool| ==> pool[i].txid in txmap && txmap[pool[i].txid] == pool[i].fee)
    && (forall t :: t in txmap ==> exists i :: 0 <= i < |pool| && pool[i].txid == t)
  }

  /** outsReferenced holds exactly the outputs that the pool spends. */
  ghost predicate OutsIndexed(pool: seq<Entry>, outs: set<bytes>) {
    && (forall i :: 0 <= i < |pool| ==> IdSet(pool[i].tx) <= outs)
    && (forall x :: x in outs ==> exists i :: 0 <= i < |pool| && x in IdSet(pool[i].tx))
  }

  /** The pooled transactions, listed in order of arrival, and the two indexes. */
  ghost predicate Indexed(pool: seq<Entry>, txmap: map<bytes, uint64>, outs: set<bytes>) {
    Genuine(pool) && Once(pool) && Disjoint(pool) && FeesIndexed(pool, txmap) && OutsIndexed(pool, outs)
  }

  /** A pooled transaction of the same identifier spends the same outputs and pays the same fee. */
  ghost predicate Fixed(pool: seq<Entry>, tx: Tx) {
    forall i :: 0 <= i < |pool| && pool[i].txid == tx.txid ==>
      IdSet(pool[i].tx) == IdSet(tx) && Fees(pool[i].tx) == Fees(tx)
  }

  /** A pooled transaction spends one of these outputs. */
  ghost predicate Shares(pool: seq<Entry>, tx: Tx) {
    exists i :: 0 <= i < |pool| && !(IdSet(pool[i].tx) !! IdSet(tx))
  }

  lemma SharesIff(pool: seq<Entry>, outs: set<bytes>, tx: Tx)
    requires OutsIndexed(pool, outs)
    ensures Shares(pool, tx) <==> !(outs !! IdSet(tx))
  {
    hide IdSet;
    if !(outs !! IdSet(tx)) {
      var x :| x in outs && x in IdSet(tx);
      var i :| 0 <= i < |pool| && x in IdSet(pool[i].tx);
      assert x in IdSet(pool[i].tx) * IdSet(tx);
    }
    if Shares(pool, tx) {
      var i :| 0 <= i < |pool| && !(IdSet(pool[i].tx) !! IdSet(tx));
      var x :| x in IdSet(pool[i].tx) && x in IdSet(tx);
      assert x in outs * IdSet(tx);
    }
  }

  /** A transaction with an input that shares none is not pooled yet. */
  lemma NewIdentifier(pool: seq<Entry>, txmap: map<bytes, uint64>, tx: Tx)
    requires FeesIndexed(pool, txmap) && Fixed(pool, tx) && !Shares(pool, tx) && IdSet(tx) != {}
    ensures tx.txid !in txmap
  {
    hide IdSet, Fees;
    assert forall i :: 0 <= i < |pool| && IdSet(pool[i].tx) == IdSet(tx) ==> IdSet(pool[i].tx) * IdSet(tx) == IdSet(tx);
  }

  /** The bytes of two transactions collide under the double hash. */
  predicate Collide(h: Hash, t: Tx, u: Tx) {
    Collision(h, Encode(t.inputs, t.outputs), Encode(u.inputs, u.outputs))
  }

  /** Two transactions with one identifier of their own and true output identifiers spend the same, or collide. */
  lemma SameIds(h: Hash, t: Tx, u: Tx)
    requires Identified(h, t) && Identified(h, u) && t.txid == u.txid && V.Named(h, t.inputs) && V.Named(h, u.inputs)
    ensures IdSet(t) == IdSet(u) || Collide(h, t, u)
  {
    hide Encodable, Encode, TxId, OutputId;
    TxIdBinding(h, t, u);
    if SameContent(t, u) {
      var a, b := V.IdsOf(t.inputs), V.IdsOf(u.inputs);
      forall i | 0 <= i < |a| ensures a[i] == b[i] {
        assert KeyOf(t.inputs[i]) == KeyOf(u.inputs[i]);
      }
      assert a == b;
    }
  }

  /**
   A transaction that is pooled already is refused as a double spend, or collides with the pooled one.  Valid
   transactions have true output identifiers (AcceptedNames).
   */
  lemma ReaddRefused(h: Hash, pool: seq<Entry>, txmap: map<bytes, uint64>, tx: Tx)
    requires Genuine(pool) && FeesIndexed(pool, txmap) && tx.txid in txmap
    requires Identified(h, tx) && V.Named(h, tx.inputs)
    requires forall i :: 0 <= i < |pool| ==> Identified(h, pool[i].tx) && V.Named(h, pool[i].tx.inputs)
    ensures Shares(pool, tx) || exists i :: 0 <= i < |pool| && pool[i].txid == tx.txid && Collide(h, pool[i].tx, tx)
  {
    hide Identified, IdSet, Collide, V.Named;
    var i :| 0 <= i < |pool| && pool[i].txid == tx.txid;
    assert pool[i].tx.txid == tx.txid;
    SameIds(h, pool[i].tx, tx);
    if IdSet(pool[i].tx) == IdSet(tx) {
      assert IdSet(pool[i].tx) * IdSet(tx) == IdSet(tx);
    }
  }

  lemma FeesAdd(pool: seq<Entry>, txmap: map<bytes, uint64>, x: Entry)
    requires FeesIndexed(pool, txmap) && x.txid !in txmap
    ensures FeesIndexed(pool + [x], txmap[x.txid := x.fee])
  {
    var longer, txmap' := pool + [x], txmap[x.txid := x.fee];
    forall t | t in txmap' ensures exists i :: 0 <= i < |longer| && longer[i].txid == t {
      if t == x.txid {
        assert longer[|pool|].txid == t;
      } else {
        var i :| 0 <= i < |pool| && pool[i].txid == t;
        assert longer[i].txid == t;
      }
    }
  }

  lemma OutsAdd(pool: seq<Entry>, outs: set<bytes>, x: Entry)
    requires OutsIndexed(pool, outs)
    ensures OutsIndexed(pool + [x], outs + IdSet(x.tx))
  {
    hide IdSet;
    var longer, outs' := pool + [x], outs + IdSet(x.tx);
    forall y | y in outs' ensures exists i :: 0 <= i < |longer| && y in IdSet(longer[i].tx) {
      if y in outs {
        var i :| 0 <= i < |pool| && y in IdSet(pool[i].tx);
        assert y in IdSet(longer[i].tx);
      } else {
        assert y in IdSet(longer[|pool|].tx);
      }
    }
  }

  lemma ApartAdd(pool: seq<Entry>, x: Entry)
    requires Genuine(pool) && Disjoint(pool) && x == EntryFor(x.tx) && IdSet(x.tx) != {} && !Shares(pool, x.tx)
    ensures Genuine(pool + [x]) && Disjoint(pool + [x])
  {
    hide IdSet, EntryFor;
  }

  /** The identifiers stay unique exactly when the new one is new. */
  lemma OnceAdd(pool: seq<Entry>, txmap: map<bytes, uint64>, x: Entry)
    requires Once(pool) && FeesIndexed(pool, txmap)
    ensures Once(pool + [x]) <==> x.txid !in txmap
  {
    var longer := pool + [x];
    if x.txid in txmap {
      var i :| 0 <= i < |pool| && pool[i].txid == x.txid;
      assert longer[i].txid == longer[|pool|].txid;
    }
  }

  lemma IndexedAdd(pool: seq<Entry>, txmap: map<bytes, uint64>, outs: set<bytes>, tx: Tx)
    requires Indexed(pool, txmap, outs) && IdSet(tx) != {} && !Shares(pool, tx)
    ensures Indexed(pool + [EntryFor(tx)], txmap[tx.txid := Fees(tx)], outs + IdSet(tx)) <==> tx.txid !in txmap
  {
    hide Genuine, Once, Disjoint, FeesIndexed, OutsIndexed, IdSet, Shares, Fees;
    OnceAdd(pool, txmap, EntryFor(tx));
    if tx.txid !in txmap {
      FeesAdd(pool, txmap, EntryFor(tx));
    }
    OutsAdd(pool, outs, EntryFor(tx));
    ApartAdd(pool, EntryFor(tx));
  }

  lemma FeesCut(pool: seq<Entry>, txmap: map<bytes, uint64>, k: nat)
    requires FeesIndexed(pool, txmap) && Once(pool) && k < |pool|
    ensures FeesIndexed(Cut(pool, k), txmap - {pool[k].txid})
  {
    FeesKept(pool, txmap, k);
    NoFeeElse(pool, txmap, k);
    hide Cut;
  }

  lemma FeesKept(pool: seq<Entry>, txmap: map<bytes, uint64>, k: nat)
    requires FeesIndexed(pool, txmap) && Once(pool) && k < |pool|
    ensures var rest, txmap' := Cut(pool, k), txmap - {pool[k].txid};
            forall i :: 0 <= i < |rest| ==> rest[i].txid in txmap' && txmap'[rest[i].txid] == rest[i].fee
  {
    var rest := Cut(pool, k);
    forall i | 0 <= i < |rest|
      ensures rest[i].txid in txmap && rest[i].txid != pool[k].txid && txmap[rest[i].txid] == rest[i].fee
    {
      var j := if i < k then i else i + 1;
      assert rest[i] == pool[j] && pool[j].txid != pool[k].txid;
    }
  }

  lemma NoFeeElse(pool: seq<Entry>, txmap: map<bytes, uint64>, k: nat)
    requires FeesIndexed(pool, txmap) && k < |pool|
    ensures var rest := Cut(pool, k);
            forall t :: t in txmap - {pool[k].txid} ==> exists i :: 0 <= i < |rest| && rest[i].txid == t
  {
    var rest := Cut(pool, k);
    forall t | t in txmap && t != pool[k].txid ensures exists i :: 0 <= i < |rest| && rest[i].txid == t {
      var j :| 0 <= j < |pool| && pool[j].txid == t;
      assert rest[if j < k then j else j - 1] == pool[j];
    }
  }

  lemma OutsCut(pool: seq<Entry>, outs: set<bytes>, k: nat)
    requires OutsIndexed(pool, outs) && Disjoint(pool) && k < |pool|
    ensures OutsIndexed(Cut(pool, k), outs - IdSet(pool[k].tx))
  {
    hide IdSet;
    var rest, outs' := Cut(pool, k), outs - IdSet(pool[k].tx);
    forall i | 0 <= i < |rest| ensures IdSet(rest[i].tx) <= outs' {
      var j := if i < k then i else i + 1;
      assert rest[i] == pool[j] && IdSet(pool[j].tx) <= outs;
      assert IdSet(pool[j].tx) !! IdSet(pool[k].tx);
    }
    forall x | x in outs' ensures exists i :: 0 <= i < |rest| && x in IdSet(rest[i].tx) {
      var j :| 0 <= j < |pool| && x in IdSet(pool[j].tx);
      assert rest[if j < k then j else j - 1] == pool[j];
    }
  }

  lemma ApartCut(pool: seq<Entry>, k: nat)
    requires Genuine(pool) && Once(pool) && Disjoint(pool) && k < |pool|
    ensures Genuine(Cut(pool, k)) && Once(Cut(pool, k)) && Disjoint(Cut(pool, k))
  {
    hide IdSet, EntryFor;
  }

  lemma IndexedCut(pool: seq<Entry>, txmap: map<bytes, uint64>, outs: set<bytes>, k: nat)
    requires Indexed(pool, txmap, outs) && k < |pool|
    ensures Indexed(Cut(pool, k), txmap - {pool[k].txid}, outs - IdSet(pool[k].tx))
  {
    hide Genuine, Once, Disjoint, FeesIndexed, OutsIndexed, IdSet, Cut;
    FeesCut(pool, txmap, k);
    OutsCut(pool, outs, k);
    ApartCut(pool, k);
  }

  /** A pooled transaction sits at exactly one place of the pool. */
  lemma FindPooled(pool: seq<Entry>, txmap: map<bytes, uint64>, tx: Tx)
    requires Genuine(pool) && FeesIndexed(pool, txmap) && Fixed(pool, tx)
    ensures tx.txid in txmap <==> Find(pool, Fees(tx), tx.txid) < |pool|
    ensures tx.txid in txmap ==>
              var x := pool[Find(pool, Fees(tx), tx.txid)]; x.txid == tx.txid && IdSet(x.tx) == IdSet(tx)
  {
    hide IdSet, Fees;
    var k := Find(pool, Fees(tx), tx.txid);
    if k < |pool| {
      assert pool[k].txid == tx.txid;
    }
    if tx.txid in txmap {
      var i :| 0 <= i < |pool| && pool[i].txid == tx.txid;
      assert pool[i] == EntryFor(pool[i].tx) && Matches(pool[i], Fees(tx), tx.txid);
    }
  }

  /** The pool without these identifiers, in the same order. */
  ghost function Without(pool: seq<Entry>, ids: set<bytes>): seq<Entry> {
    if |pool| == 0 then [] else (if pool[0].txid in ids then [] else [pool[0]]) + Without(pool[1..], ids)
  }

  /** Only these leave. */
  lemma {:induction false} WithoutMember(pool: seq<Entry>, ids: set<bytes>, x: Entry)
    ensures x in Without(pool, ids) <==> x in pool && x.txid !in ids
  {
    if |pool| > 0 {
      WithoutMember(pool[1..], ids, x);
      assert pool == [pool[0]] + pool[1..];
    }
  }

  lemma WithoutAny(pool: seq<Entry>)
    ensures Without(pool, {}) == pool
  {
    WithoutNone(pool, {});
  }

  lemma {:induction false} WithoutNone(pool: seq<Entry>, ids: set<bytes>)
    requires forall i :: 0 <= i < |pool| ==> pool[i].txid !in ids
    ensures Without(pool, ids) == pool
  {
    if |pool| > 0 {
      WithoutNone(pool[1..], ids);
    }
  }

  lemma {:induction false} WithoutTwice(pool: seq<Entry>, s: set<bytes>, t: set<bytes>)
    ensures Without(Without(pool, s), t) == Without(pool, s + t)
  {
    if |pool| > 0 {
      WithoutTwice(pool[1..], s, t);
      var rest := Without(pool[1..], s);
      assert pool[0].txid !in s ==> ([pool[0]] + rest)[1..] == rest;
      assert [] + rest == rest;
    }
  }

  lemma {:induction false} WithoutCut(pool: seq<Entry>, k: nat)
    requires Once(pool) && k < |pool|
    ensures Without(pool, {pool[k].txid}) == Cut(pool, k)
  {
    if k == 0 {
      WithoutNone(pool[1..], {pool[0].txid});
    } else {
      WithoutCut(pool[1..], k - 1);
      assert Cut(pool, k) == [pool[0]] + Cut(pool[1..], k - 1);
    }
  }

  lemma {:induction false} WithoutFixed(pool: seq<Entry>, ids: set<bytes>, tx: Tx)
    requires Fixed(pool, tx)
    ensures Fixed(Without(pool, ids), tx)
  {
    if |pool| > 0 {
      assert forall i :: 0 <= i < |pool| - 1 ==> pool[1..][i] == pool[i + 1];
      WithoutFixed(pool[1..], ids, tx);
    }
  }

  /**
   Removed one after the other, no pooled transaction is missed by the descent, each in the tree that the removals
   before it have left.
   */
  ghost predicate Reaches(e: Edits, t: Tree, ids: set<bytes>, txs: seq<Tx>)
    decreases |txs|
  {
    |txs| == 0 ||
    var tx := txs[0];
    if tx.txid !in ids then Reaches(e, t, ids, txs[1..])
    else
      var r := Remove(e, t, Fees(tx), tx.txid);
      !Misses(e, t, Fees(tx), tx.txid) && (r.Done? ==> Reaches(e, r.value, ids - {tx.txid}, txs[1..]))
  }

  /** The transactions of a block behind its coinbase. */
  function Rest(txs: seq<Tx>): seq<Tx> {
    if |txs| == 0 then [] else txs[1..]
  }

  datatype AddResult = Added | NotValid(verdict: V.Verdict) | DoubleSpent | AddPanics

  datatype RemoveResult = Removed | NotInMemPool | RemovePanics

  class MemPool {
    const tree: MemTree
    var txmap: map<bytes, uint64>
    var outsReferenced: map<bytes, bool>

    ghost var pool: seq<Entry>    // what is pooled, in order of arrival
    ghost var sorted: seq<Entry>  // the same, best fees first

    constructor (edits: Edits)
      ensures Valid() && pool == [] && tree.edits == edits && fresh(tree)
    {
      tree := new MemTree(edits);
      txmap, outsReferenced, pool, sorted := map[], map[], [], [];
    }

    /**
     The indexes agree with the pool; the tree lists the pool stably sorted, record by record, and transaction by
     transaction when they move with their records.
     */
    ghost predicate Valid()
      reads this, tree, tree.root, ReprOf(tree.root)
    {
      && tree.Valid()
      && Indexed(pool, txmap, outsReferenced.Keys)
      && Listed(tree.edits, pool, sorted, tree.Contents())
    }

    /** Lines 336-342. */
    method IsDoubleSpend(tx: Tx) returns (found: bool)
      ensures found <==> !(outsReferenced.Keys !! IdSet(tx))
    {
      ghost var ids := V.IdsOf(tx.inputs);
      for i := 0 to |tx.inputs|
        invariant forall j :: 0 <= j < i ==> ids[j] !in outsReferenced
      {
        if tx.inputs[i].outputReferred.outputID in outsReferenced {
          assert ids[i] in IdSet(tx);
          return true;
        }
      }
      found := false;
    }

    /** Lines 345-347. */
    method MarkOutputs(tx: Tx)
      modifies this`outsReferenced
      ensures outsReferenced.Keys == old(outsReferenced.Keys) + IdSet(tx)
    {
      ghost var ids := V.IdsOf(tx.inputs);
      for i := 0 to |tx.inputs|
        invariant outsReferenced.Keys == old(outsReferenced.Keys) + set x | x in ids[..i]
      {
        assert ids[..i + 1] == ids[..i] + [ids[i]];
        outsReferenced := outsReferenced[tx.inputs[i].outputReferred.outputID := true];
      }
      assert ids[..|ids|] == ids;
    }

    /** Lines 365-367. */
    method UnmarkOutputs(tx: Tx)
      modifies this`outsReferenced
      ensures outsReferenced.Keys == old(outsReferenced.Keys) - IdSet(tx)
    {
      ghost var ids := V.IdsOf(tx.inputs);
      for i := 0 to |tx.inputs|
        invariant outsReferenced.Keys == old(outsReferenced.Keys) - set x | x in ids[..i]
      {
        assert ids[..i + 1] == ids[..i] + [ids[i]];
        outsReferenced := outsReferenced - {tx.inputs[i].outputReferred.outputID};
      }
      assert ids[..|ids|] == ids;
    }

    /** Every record of the tree is beside its own transaction, whatever the flags. */
    ghost predicate Whole()
      reads this, tree, tree.root
    {
      tree.Contents() == sorted
    }

    /**
     Lines 328-353.  What is added keeps the pool in order exactly when its identifier is new; that it is new follows
     from the double-spend check where identifiers fix the outputs spent (NewIdentifier, ReaddRefused).
     */
    method AddTX(c: V.Crypto, cs: Chainstate, tx: Tx) returns (r: AddResult)
      requires Valid() && cs.Valid() && V.Sized(tx)
      modifies this, tree, ReprOf(tree.root)
      ensures r.NotValid? <==> V.TxVerdict(c, cs.records, tx) != V.Valid
      ensures r.NotValid? ==> r.verdict == V.TxVerdict(c, cs.records, tx)
      ensures r == DoubleSpent <==> V.TxVerdict(c, cs.records, tx) == V.Valid && Shares(old(pool), tx)
      ensures r == AddPanics
         <==> && V.TxVerdict(c, cs.records, tx) == V.Valid && !Shares(old(pool), tx)
              && Insert(tree.edits, old(tree.Model()), EntryFor(tx)).Panic?
      ensures Avl(old(tree.Model())) ==>
                (r == AddPanics
                 <==> && V.TxVerdict(c, cs.records, tx) == V.Valid && !Shares(old(pool), tx)
                      && !tree.edits.rotate && Crashes(old(tree.Model()), Fees(tx)))
      ensures r == Added && Avl(old(tree.Model())) ==>
                (Avl(tree.Model()) <==> tree.edits.rotate || !Spoils(old(tree.Model()), Fees(tx)))
      ensures r.NotValid? || r == DoubleSpent ==>
                Valid() && pool == old(pool) && tree.Contents() == old(tree.Contents())
      ensures r == Added ==> pool == old(pool) + [Entry(Fees(tx), tx.txid, tx)]
      ensures r == Added ==> tree.Contents() == InsertDesc(old(tree.Contents()), Entry(Fees(tx), tx.txid, tx))
      ensures r == Added ==> (Valid() <==> tx.txid !in old(txmap))
      ensures r == Added ==> (Whole() <==> old(Whole())) && V.Named(c.hash, tx.inputs)
      ensures r != AddPanics ==> fresh(tree.Repr() - old(tree.Repr()))
    {
      hide V.TxVerdict, V.Sized, V.Named, Valid, Whole, Shares, IdSet, Fees, InsertDesc, Listing, Insert, Avl,
        Crashes, Spoils;
      var v := V.ValidateTransaction(c, cs, tx);
      if v != V.Valid {
        return NotValid(v);
      }
      HasId(c, cs.records, tx);
      V.AcceptedNames(c, cs.records, tx);
      SharesHere(tx);
      var spent := IsDoubleSpend(tx);
      if spent {
        return DoubleSpent;
      }
      var ok := Enter(tx);
      r := if ok then Added else AddPanics;
    }

    /** Lines 344-351. */
    method Enter(tx: Tx) returns (ok: bool)
      requires Valid() && !Shares(pool, tx) && IdSet(tx) != {}
      modifies this, tree, ReprOf(tree.root)
      ensures ok <==> Insert(tree.edits, old(tree.Model()), EntryFor(tx)).Done?
      ensures Avl(old(tree.Model())) ==> (ok <==> tree.edits.rotate || !Crashes(old(tree.Model()), Fees(tx)))
      ensures ok && Avl(old(tree.Model())) ==>
                (Avl(tree.Model()) <==> tree.edits.rotate || !Spoils(old(tree.Model()), Fees(tx)))
      ensures ok ==> pool == old(pool) + [Entry(Fees(tx), tx.txid, tx)]
      ensures ok ==> tree.Contents() == InsertDesc(old(tree.Contents()), Entry(Fees(tx), tx.txid, tx))
      ensures ok ==> (Valid() <==> tx.txid !in old(txmap)) && (Whole() <==> old(Whole()))
      ensures ok ==> fresh(tree.Repr() - old(tree.Repr()))
    {
      hide Indexed, Shares, IdSet, Fees, Listed, InsertDesc, Listing, MemTree.Valid, Insert, Avl, Crashes, Spoils,
        Consistent;
      ghost var was, index, outs, contents := pool, txmap, outsReferenced.Keys, tree.Contents();
      MarkOutputs(tx);
      txmap := txmap[tx.txid := Fees(tx)];
      ok := tree.Insert(tx);
      if !ok {
        return;
      }
      IndexedAdd(was, index, outs, tx);
      ListedAdd(tree.edits, was, sorted, contents, EntryFor(tx));
      pool, sorted := pool + [EntryFor(tx)], InsertDesc(sorted, EntryFor(tx));
    }

    lemma SharesHere(tx: Tx)
      requires Valid()
      ensures Shares(pool, tx) <==> !(outsReferenced.Keys !! IdSet(tx))
    {
      hide Genuine, Once, Disjoint, FeesIndexed, Shares, IdSet, OutsIndexed;
      SharesIff(pool, outsReferenced.Keys, tx);
    }

    /**
     Lines 355-369.  A pooled transaction leaves, and nothing else; the descent as written finds it exactly when its fee
     is on the left spine of the tree, and panics otherwise.  A transaction that only shares the identifier of a pooled
     one takes its own outputs out of the index and the pooled record out of the tree if the fees agree too.
     */
    method RemoveTX(tx: Tx) returns (r: RemoveResult)
      requires tree.Valid()
      modifies this, tree, ReprOf(tree.root)
      ensures r == NotInMemPool <==> tx.txid !in old(txmap)
      ensures r == RemovePanics <==> tx.txid in old(txmap) && Misses(tree.edits, old(tree.Model()), Fees(tx), tx.txid)
      ensures r == NotInMemPool ==> unchanged(this) && tree.Model() == old(tree.Model())
      ensures r == Removed ==> Done(tree.Model()) == Remove(tree.edits, old(tree.Model()), Fees(tx), tx.txid)
      ensures r == Removed && Avl(old(tree.Model())) ==>
                (Avl(tree.Model()) <==> !Stale(tree.edits, old(tree.Model()), Fees(tx), tx.txid))
      ensures r == Removed ==> txmap == old(txmap) - {tx.txid}
      ensures r == Removed ==> outsReferenced.Keys == old(outsReferenced.Keys) - IdSet(tx)
      ensures r == Removed ==> Agree(tree.edits, tree.Contents(), Delete(old(tree.Contents()), Fees(tx), tx.txid))
      ensures r != RemovePanics ==> tree.Valid() && ReprOf(tree.root) <= old(ReprOf(tree.root))
      ensures old(Valid()) && Fixed(old(pool), tx) ==>
                (r == RemovePanics
                 <==> tx.txid in old(txmap) && !tree.edits.descend && !OnLeftSpine(old(tree.Model()), Fees(tx)))
      ensures old(Valid()) && Fixed(old(pool), tx) && r != RemovePanics ==>
                Valid() && pool == Without(old(pool), {tx.txid}) && tx.txid !in txmap
      ensures old(Valid()) && Fixed(old(pool), tx) && r == Removed && old(Whole()) ==>
                (Whole() <==> tree.edits.tx || !Displaces(tree.edits, old(tree.Model()), Fees(tx), tx.txid))
    {
      hide Indexed, Fixed, IdSet, Fees, Listed, Agree, Delete, Find, Cut, Listing, MemTree.Valid, OnLeftSpine, Without,
        Misses, Displaces, Consistent, Remove, Avl, Stale;
      ghost var good := Valid() && Fixed(pool, tx);
      if tx.txid !in txmap {
        if good {
          Absent(tx);
        }
        return NotInMemPool;
      }
      ghost var index, outs, contents, k := txmap, outsReferenced.Keys, tree.Contents(), 0;
      if good {
        k := Present(tx);
      }
      var ok := tree.RemoveRecord(TxRecord(Fees(tx), tx.txid));
      if !ok {
        return RemovePanics;
      }
      txmap := txmap - {tx.txid};
      UnmarkOutputs(tx);
      if good {
        IndexedCut(pool, index, outs, k);
        ListedCut(tree.edits, pool, sorted, contents, tree.Contents(), Fees(tx), tx.txid);
      }
      pool, sorted := Delete(pool, Fees(tx), tx.txid), Delete(sorted, Fees(tx), tx.txid);
      r := Removed;
    }

    lemma Absent(tx: Tx)
      requires Indexed(pool, txmap, outsReferenced.Keys)
      ensures tx.txid !in txmap ==> Without(pool, {tx.txid}) == pool
    {
      hide Genuine, Once, Disjoint, OutsIndexed, Without;
      if tx.txid !in txmap {
        assert forall i :: 0 <= i < |pool| ==> pool[i].txid in txmap;
        WithoutNone(pool, {tx.txid});
      }
    }

    /** Where a pooled transaction is, in the pool and so in the tree. */
    lemma Present(tx: Tx) returns (k: nat)
      requires Valid() && Fixed(pool, tx) && tx.txid in txmap
      ensures k < |pool| && pool[k].txid == tx.txid && IdSet(pool[k].tx) == IdSet(tx)
      ensures Delete(pool, Fees(tx), tx.txid) == Cut(pool, k) == Without(pool, {tx.txid})
      ensures Find(tree.Contents(), Fees(tx), tx.txid) < |tree.Contents()|
      ensures Whole() ==> Consistent(tree.Model())
    {
      hide Fees, IdSet, Fixed, MemTree.Valid, Disjoint, OutsIndexed, Agree, StableSorting;
      FindPooled(pool, txmap, tx);
      k := Find(pool, Fees(tx), tx.txid);
      WithoutCut(pool, k);
      StillThere(pool, sorted, tree.Contents(), tree.edits, Fees(tx), tx.txid);
      if Whole() {
        WholeConsistent(pool, sorted, tree.Model());
      }
    }

    /**
     Lines 371-380: the block's transactions but the first leave the pool, and nothing else does; false exactly if one
     of the removals panics.
     */
    method RemoveBlock(txs: seq<Tx>) returns (ok: bool)
      requires tree.Valid()
      modifies this, tree, ReprOf(tree.root)
      ensures ok <==> Reaches(tree.edits, old(tree.Model()), old(txmap).Keys, Rest(txs))
      ensures ok ==> tree.Valid()
      ensures old(Valid()) && (forall i :: 1 <= i < |txs| ==> Fixed(old(pool), txs[i])) ==>
                && (tree.edits.descend ==> ok)
                && (ok ==> Valid() && pool == Without(old(pool), set i | 1 <= i < |txs| :: txs[i].txid))
    {
      hide Fixed, Valid, Whole, MemTree.Valid, Misses, Agree, Delete, Without, OnLeftSpine, Displaces, IdSet, Fees,
        Listing, Remove, Stale, Avl;
      ghost var e, t, ids := tree.edits, tree.Model(), txmap.Keys;
      ghost var gone: set<bytes>, good := {}, Valid() && forall i :: 1 <= i < |txs| ==> Fixed(pool, txs[i]);
      WithoutAny(pool);
      for i := 0 to |txs|
        invariant tree.Valid() && ReprOf(tree.root) <= old(ReprOf(tree.root))
        invariant good ==> Valid() && pool == Without(old(pool), gone)
        invariant gone == set j | 1 <= j < i :: txs[j].txid
        invariant Reaches(e, t, ids, Rest(txs))
             <==> Reaches(e, tree.Model(), txmap.Keys, if i == 0 then Rest(txs) else txs[i..])
      {
        if i > 0 {
          if good {
            WithoutFixed(old(pool), gone, txs[i]);
          }
          assert txs[i..][0] == txs[i] && txs[i..][1..] == txs[i + 1..];
          var r := RemoveTX(txs[i]);
          if r == RemovePanics {
            return false;
          }
          WithoutTwice(old(pool), gone, {txs[i].txid});
          gone := gone + {txs[i].txid};
        }
      }
      ok := true;
    }

    /**
     Lines 382-384.  The transactions that come out are the k best, equal fees in order of arrival, if and only if each
     of the first k records is beside its own transaction.
     */
    method GetMaxTXs(k: int) returns (out: seq<Tx>)
      requires Valid()
      ensures out == TxsOf(Emission(tree.Model(), k))
      ensures k >= 0 ==> |out| == if k < |pool| then k else |pool|
      ensures k >= 0 ==>
                forall s :: StableSorting(pool, s) ==>
                  |s| == |pool| && (out == TxsOf(Take(s, k)) <==> Take(tree.Contents(), k) == Take(s, k))
      ensures k >= 0 && (tree.edits.tx || Whole()) ==> forall s :: StableSorting(pool, s) ==> out == TxsOf(Take(s, k))
      ensures k >= |pool| && (tree.edits.tx || Whole()) ==> multiset(out) == multiset(TxsOf(pool))
      ensures k >= 0 && (tree.edits.tx || Whole()) ==> BestFees(pool, out)
    {
      hide StableSorting, Ordered, Avl, Indexed, TxsOf, BestFees;
      var rem;
      out, rem := GetMaxElements(tree.root, [], k);
      assert [] + TxsOf(Emission(tree.Model(), k)) == TxsOf(Emission(tree.Model(), k));
      SortingLength(pool, sorted);
      if k >= 0 {
        forall s | StableSorting(pool, s)
          ensures s == sorted && (out == TxsOf(Take(s, k)) <==> Take(tree.Contents(), k) == Take(s, k))
        {
          StableSortingUnique(pool, s, sorted);
          TxsOfAgreeing(tree.edits, Take(tree.Contents(), k), Take(sorted, k));
        }
        assert tree.edits.tx ==> tree.Contents() == sorted;
      }
      if k >= |pool| && (tree.edits.tx || Whole()) {
        TxsMultiset(pool, sorted);
      }
      if k >= 0 && (tree.edits.tx || Whole()) {
        IndexedGenuine(pool, txmap, outsReferenced.Keys);
        BestOfPool(pool, sorted, k);
      }
    }
  }

  /** These are pooled, best fees first, and nothing pooled that is left out pays more than any of them. */
  ghost predicate BestFees(pool: seq<Entry>, out: seq<Tx>) {
    && (forall i :: 0 <= i < |out| ==> exists j :: 0 <= j < |pool| && pool[j].tx == out[i])
    && (forall i, j :: 0 <= i < j < |out| ==> Fees(out[i]) >= Fees(out[j]))
    && (forall i, j :: 0 <= i < |out| && 0 <= j < |pool| ==> pool[j].tx in out || Fees(pool[j].tx) <= Fees(out[i]))
  }

  lemma IndexedGenuine(pool: seq<Entry>, txmap: map<bytes, uint64>, outs: set<bytes>)
    requires Indexed(pool, txmap, outs)
    ensures Genuine(pool)
  {
  }

  lemma BestOfPool(pool: seq<Entry>, sorted: seq<Entry>, k: nat)
    requires Genuine(pool) && StableSorting(pool, sorted)
    ensures BestFees(pool, TxsOf(Take(sorted, k)))
  {
    hide TxsOf, IdSet, Fees;
    var best := Take(sorted, k);
    var out := TxsOf(best);
    forall i | 0 <= i < |sorted| ensures sorted[i] in pool && sorted[i].fee == Fees(sorted[i].tx) {
      SameEntries(pool, sorted, sorted[i]);
      var j :| 0 <= j < |pool| && pool[j] == sorted[i];
    }
    forall i | 0 <= i < |out| ensures exists j :: 0 <= j < |pool| && pool[j].tx == out[i] {
      assert out[i] == sorted[i].tx && sorted[i] in pool;
      var j :| 0 <= j < |pool| && pool[j] == sorted[i];
    }
    assert Descending(sorted);
    forall i, j | 0 <= i < |out| && 0 <= j < |pool|
      ensures pool[j].tx in out || Fees(pool[j].tx) <= Fees(out[i])
    {
      SameEntries(pool, sorted, pool[j]);
      var n :| 0 <= n < |sorted| && sorted[n] == pool[j];
      if n < |out| {
        assert out[n] == pool[j].tx;
      }
    }
  }

  function Take<T>(s: seq<T>, k: nat): seq<T> {
    if k < |s| then s[..k] else s
  }

  /** The same entries hold the same transactions. */
  lemma {:induction false} TxsMultiset(a: seq<Entry>, b: seq<Entry>)
    requires multiset(a) == multiset(b)
    ensures multiset(TxsOf(a)) == multiset(TxsOf(b))
    decreases |a|
  {
    hide TxsOf, Cut;
    if |a| == 0 {
      assert |multiset(b)| == 0;
      assert a == b;
    } else {
      assert a[0] in multiset(b);
      var j :| 0 <= j < |b| && b[j] == a[0];
      CutMultiset(a, 0);
      CutMultiset(b, j);
      TxsMultiset(Cut(a, 0), Cut(b, j));
      TxsCut(a, 0);
      TxsCut(b, j);
    }
  }

  lemma TxsCut(s: seq<Entry>, j: nat)
    requires j < |s|
    ensures multiset(TxsOf(s)) == multiset(TxsOf(Cut(s, j))) + multiset{s[j].tx}
  {
    hide TxsOf, Cut;
    var p, q := s[..j], s[j + 1..];
    SliceAt(s, j);
    TxsAround(p, s[j], q);
    OneOut(TxsOf(p), s[j].tx, TxsOf(q));
  }

  lemma SliceAt<T>(s: seq<T>, j: nat)
    requires j < |s|
    ensures s == s[..j] + [s[j]] + s[j + 1..] && Cut(s, j) == s[..j] + s[j + 1..]
  {
  }

  lemma TxsAround(p: seq<Entry>, x: Entry, q: seq<Entry>)
    ensures TxsOf(p + [x] + q) == TxsOf(p) + [x.tx] + TxsOf(q) && TxsOf(p + q) == TxsOf(p) + TxsOf(q)
  {
    TxsOne(x);
    hide TxsOf;
    TxsConcat(p, q);
    TxsConcat(p + [x], q);
    TxsConcat(p, [x]);
  }

  lemma TxsOne(x: Entry)
    ensures TxsOf([x]) == [x.tx]
  {
  }

  lemma OneOut<T>(a: seq<T>, x: T, b: seq<T>)
    ensures multiset(a + [x] + b) == multiset(a + b) + multiset{x}
  {
  }

  lemma CutMultiset<T>(s: seq<T>, j: nat)
    requires j < |s|
    ensures multiset(s) == multiset(Cut(s, j)) + multiset{s[j]}
    ensures multiset(Cut(s, j)) == multiset(s) - multiset{s[j]}
  {
    assert s == s[..j] + [s[j]] + s[j + 1..];
  }

  lemma TxsOfAgreeing(e: Edits, a: seq<Entry>, b: seq<Entry>)
    requires Agree(e, a, b)
    ensures TxsOf(a) == TxsOf(b) <==> a == b
  {
    if TxsOf(a) == TxsOf(b) {
      forall i | 0 <= i < |a| ensures a[i] == b[i] {
        assert TxsOf(a)[i] == TxsOf(b)[i];
      }
    }
  }

  /** While nothing is torn, the tree is consistent. */
  lemma WholeConsistent(pool: seq<Entry>, sorted: seq<Entry>, t: Tree)
    requires Genuine(pool) && StableSorting(pool, sorted) && Listing(t) == sorted
    ensures Consistent(t)
  {
    hide StableSorting, Consistent, IdSet;
    forall i | 0 <= i < |sorted| ensures Own(sorted[i]) {
      SameEntries(pool, sorted, sorted[i]);
      var j :| 0 <= j < |pool| && pool[j] == sorted[i];
    }
    ConsistentListing(t);
  }

  lemma HasId(c: V.Crypto, rs: Records, tx: Tx)
    requires V.Sized(tx) && V.TxVerdict(c, rs, tx) == V.Valid
    ensures IdSet(tx) != {}
  {
    hide V.Sized, V.TxVerdict;
    V.AcceptedHasInput(c, rs, tx);
    assert V.IdsOf(tx.inputs)[0] in IdSet(tx);
  }

  // ---- the listing of the tree against the sorted pool

  ghost predicate Listed(e: Edits, pool: seq<Entry>, sorted: seq<Entry>, contents: seq<Entry>) {
    StableSorting(pool, sorted) && Agree(e, contents, sorted)
  }

  lemma ListedAdd(e: Edits, pool: seq<Entry>, sorted: seq<Entry>, contents: seq<Entry>, x: Entry)
    requires Listed(e, pool, sorted, contents)
    ensures Listed(e, pool + [x], InsertDesc(sorted, x), InsertDesc(contents, x))
    ensures InsertDesc(contents, x) == InsertDesc(sorted, x) <==> contents == sorted
  {
    hide StableSorting, Agree, InsertDesc;
    InsertDescInjective(e, contents, sorted, x);
    ArrivalSorts(pool, sorted, x);
    InsertDescAgrees(e, contents, sorted, x);
  }

  lemma ListedCut(e: Edits, pool: seq<Entry>, sorted: seq<Entry>, contents: seq<Entry>, contents': seq<Entry>,
                  fee: uint64, txid: bytes)
    requires Listed(e, pool, sorted, contents) && Agree(e, contents', Delete(contents, fee, txid))
    ensures Listed(e, Delete(pool, fee, txid), Delete(sorted, fee, txid), contents')
  {
    hide StableSorting, Agree, Delete;
    DepartureSorts(pool, sorted, fee, txid);
    DeleteAgrees(e, contents, sorted, fee, txid);
    AgreeTransitive(e, contents', Delete(contents, fee, txid), Delete(sorted, fee, txid));
  }

  lemma {:induction false} InsertDescAgrees(e: Edits, a: seq<Entry>, b: seq<Entry>, x: Entry)
    requires Agree(e, a, b)
    ensures Agree(e, InsertDesc(a, x), InsertDesc(b, x))
  {
    if |a| > 0 && a[0].fee >= x.fee {
      InsertDescAgrees(e, a[1..], b[1..], x);
    }
  }

  lemma {:induction false} InsertDescInjective(e: Edits, a: seq<Entry>, b: seq<Entry>, x: Entry)
    requires Agree(e, a, b)
    ensures InsertDesc(a, x) == InsertDesc(b, x) <==> a == b
  {
    if |a| == 0 {
    } else if a[0].fee < x.fee {
      assert ([x] + a)[1..] == a && ([x] + b)[1..] == b;
    } else {
      var p, q := InsertDesc(a[1..], x), InsertDesc(b[1..], x);
      InsertDescInjective(e, a[1..], b[1..], x);
      assert ([a[0]] + p)[1..] == p && ([b[0]] + q)[1..] == q;
      assert a == [a[0]] + a[1..] && b == [b[0]] + b[1..];
    }
  }

  lemma FindAgrees(e: Edits, a: seq<Entry>, b: seq<Entry>, fee: uint64, txid: bytes)
    requires Agree(e, a, b)
    ensures Find(a, fee, txid) == Find(b, fee, txid)
  {
    assert forall i :: 0 <= i < |a| ==> (Matches(a[i], fee, txid) <==> Matches(b[i], fee, txid));
  }

  lemma DeleteAgrees(e: Edits, a: seq<Entry>, b: seq<Entry>, fee: uint64, txid: bytes)
    requires Agree(e, a, b)
    ensures Agree(e, Delete(a, fee, txid), Delete(b, fee, txid))
  {
    hide Find;
    FindAgrees(e, a, b, fee, txid);
    var i := Find(a, fee, txid);
    if i < |a| {
      var p, q := Cut(a, i), Cut(b, i);
      assert Delete(a, fee, txid) == p && Delete(b, fee, txid) == q;
    }
  }

  lemma AgreeTransitive(e: Edits, a: seq<Entry>, b: seq<Entry>, c: seq<Entry>)
    requires Agree(e, a, b) && Agree(e, b, c)
    ensures Agree(e, a, c)
  {
  }

  /** What is pooled is in the tree. */
  lemma StillThere(pool: seq<Entry>, sorted: seq<Entry>, contents: seq<Entry>, e: Edits, fee: uint64, txid: bytes)
    requires StableSorting(pool, sorted) && Agree(e, contents, sorted) && Find(pool, fee, txid) < |pool|
    ensures Find(contents, fee, txid) < |contents|
  {
    var x := pool[Find(pool, fee, txid)];
    SameEntries(pool, sorted, x);
    var i :| 0 <= i < |sorted| && sorted[i] == x;
    FindAgrees(e, contents, sorted, fee, txid);
  }
}
