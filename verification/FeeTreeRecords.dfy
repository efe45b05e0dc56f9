/** core/mempool.go: whether the transaction stored beside a record is the transaction of that record. */
module FeeTreeRecords {
  import opened Bytes
  import opened Transactions
  import opened FeeTree
  import opened FeeTreeOrder

  /** The record and the transaction belong together. */
  predicate Own(x: Entry) {
    x == EntryFor(x.tx)
  }

  predicate AllOwn(s: seq<Entry>) {
    forall i :: 0 <= i < |s| ==> Own(s[i])
  }

  predicate Consistent(t: Tree) {
    t.Node? ==> Own(t.head) && AllOwn(t.same) && Consistent(t.left) && Consistent(t.right)
  }

  /** No rotation tears a record from its transaction or mends a torn one. */
  lemma RotationsConsistent(t: Tree)
    requires t.Node?
    ensures RightRotate(t).Done? ==> (Consistent(RightRotate(t).value) <==> Consistent(t))
    ensures LeftRotate(t).Done? ==> (Consistent(LeftRotate(t).value) <==> Consistent(t))
  {
    hide Own;
  }

  lemma DoubleRotationsConsistent(t: Tree)
    requires t.Node?
    ensures LeftRight(t).Done? ==> (Consistent(LeftRight(t).value) <==> Consistent(t))
    ensures RightLeft(t).Done? ==> (Consistent(RightLeft(t).value) <==> Consistent(t))
  {
    hide Own, LeftRotate, RightRotate;
    if LeftRight(t).Done? {
      var l := LeftRotate(t.left).value;
      RotationsConsistent(t.left);
      RotationsConsistent(t.(left := l));
      assert Consistent(t.(left := l)) <==> Consistent(t);
    }
    if RightLeft(t).Done? {
      var r := RightRotate(t.right).value;
      RotationsConsistent(t.right);
      RotationsConsistent(t.(right := r));
      assert Consistent(t.(right := r)) <==> Consistent(t);
    }
  }

  lemma StepsConsistent(e: Edits, t: Tree, fee: uint64)
    requires t.Node?
    ensures AfterInsert(e, t, fee).Done? ==> (Consistent(AfterInsert(e, t, fee).value) <==> Consistent(t))
    ensures Rebalance(t).Done? ==> (Consistent(Rebalance(t).value) <==> Consistent(t))
    ensures Fix(t).Node? && (Consistent(Fix(t)) <==> Consistent(t))
  {
    RotationsConsistent(t);
    DoubleRotationsConsistent(t);
    hide Own, LeftRotate, RightRotate, LeftRight, RightLeft;
  }

  /** Insertion keeps every transaction with its record, whatever the edits. */
  lemma {:induction false} InsertConsistent(e: Edits, t: Tree, x: Entry)
    requires Consistent(t) && Own(x) && Insert(e, t, x).Done?
    ensures Consistent(Insert(e, t, x).value)
  {
    hide Own, AfterInsert, Fix;
    if t.Node? && x.fee < t.key {
      InsertConsistent(e, t.left, x);
      var u := t.(left := Insert(e, t.left, x).value);
      StepsConsistent(e, u, x.fee);
      StepsConsistent(e, Fix(u), x.fee);
    } else if t.Node? && x.fee > t.key {
      InsertConsistent(e, t.right, x);
      var u := t.(right := Insert(e, t.right, x).value);
      StepsConsistent(e, u, x.fee);
      StepsConsistent(e, Fix(u), x.fee);
    }
  }

  /** The removal empties a node that has both children: its successor moves in. */
  predicate Displaces(e: Edits, t: Tree, fee: uint64, txid: bytes) {
    var s := Stop(e, t, fee);
    s.Node? && Matches(s.head, fee, txid) && s.same == [] && s.left.Node? && s.right.Node?
  }

  /**
   A removal leaves every transaction with its record exactly when the transaction moves too (lines 249-251) or no
   successor moves at all.
   */
  lemma {:induction false} RemoveConsistent(e: Edits, t: Tree, fee: uint64, txid: bytes, lo: int, hi: int)
    requires Consistent(t) && Within(t, lo, hi) && Remove(e, t, fee, txid).Done?
    ensures Consistent(Remove(e, t, fee, txid).value) <==> e.tx || !Displaces(e, t, fee, txid)
    decreases Nodes(t)
  {
    hide Own, Within, Rebalance, Fix;
    if t.Leaf? {
    } else if fee < t.key {
      RemoveLeftConsistent(e, t, fee, txid, lo, hi);
    } else if e.descend && fee > t.key {
      RemoveRightConsistent(e, t, fee, txid, lo, hi);
    } else if !Matches(t.head, fee, txid) || |t.same| > 0 {
    } else if t.left.Leaf? || t.right.Leaf? {
      var child := if t.left.Leaf? then t.right else t.left;
      if child.Node? {
        StepsConsistent(e, child, fee);
        StepsConsistent(e, Fix(child), fee);
      }
    } else {
      SuccessorLeaves(e, t, lo, hi);
      var x := Smallest(t.right).head;
      RemoveConsistent(e, Shed(t.right), x.fee, x.txid, t.key, hi);
      var r := Remove(e, Shed(t.right), x.fee, x.txid).value;
      TakeOverConsistent(e, t, r, lo, hi);
      StepsConsistent(e, TakeOver(e, t, r), fee);
      StepsConsistent(e, Fix(TakeOver(e, t, r)), fee);
    }
  }

  lemma RemoveLeftConsistent(e: Edits, t: Tree, fee: uint64, txid: bytes, lo: int, hi: int)
    requires t.Node? && fee < t.key && Consistent(t) && Within(t, lo, hi) && Remove(e, t, fee, txid).Done?
    ensures Consistent(Remove(e, t, fee, txid).value) <==> e.tx || !Displaces(e, t, fee, txid)
    decreases Nodes(t), 0
  {
    hide Own, Rebalance, Fix, AllOwn;
    RemoveConsistent(e, t.left, fee, txid, lo, t.key);
    var u := t.(left := Remove(e, t.left, fee, txid).value);
    StepsConsistent(e, u, fee);
    StepsConsistent(e, Fix(u), fee);
  }

  lemma RemoveRightConsistent(e: Edits, t: Tree, fee: uint64, txid: bytes, lo: int, hi: int)
    requires t.Node? && fee > t.key && e.descend && Consistent(t) && Within(t, lo, hi) && Remove(e, t, fee, txid).Done?
    ensures Consistent(Remove(e, t, fee, txid).value) <==> e.tx || !Displaces(e, t, fee, txid)
    decreases Nodes(t), 0
  {
    hide Own, Rebalance, Fix, AllOwn;
    RemoveConsistent(e, t.right, fee, txid, t.key, hi);
    var u := t.(right := Remove(e, t.right, fee, txid).value);
    StepsConsistent(e, u, fee);
    StepsConsistent(e, Fix(u), fee);
  }

  /** Before the take-over: the successor is consistent, pays more, and leaves its place without displacing another. */
  lemma SuccessorLeaves(e: Edits, t: Tree, lo: int, hi: int)
    requires t.Node? && t.right.Node? && Within(t, lo, hi) && Consistent(t)
    ensures var x := Smallest(t.right).head;
            && Own(x) && AllOwn(Smallest(t.right).same) && x.fee > t.head.fee
            && Consistent(Shed(t.right)) && Within(Shed(t.right), t.key, hi)
            && !Displaces(e, Shed(t.right), x.fee, x.txid)
  {
    assert Chain(t)[0] == t.head;
    SmallestBounds(t.right, t.key, hi);
    ShedListing(t.right, t.key, hi);
    SmallestConsistent(t.right);
    ShedStopsLeft(e, t.right, t.key, hi);
  }

  lemma {:induction false} SmallestConsistent(t: Tree)
    requires t.Node? && Consistent(t)
    ensures Own(Smallest(t).head) && AllOwn(Smallest(t).same) && Consistent(Shed(t))
  {
    if t.left.Node? {
      SmallestConsistent(t.left);
    }
  }

  lemma {:induction false} ShedStopsLeft(e: Edits, t: Tree, lo: int, hi: int)
    requires t.Node? && Within(t, lo, hi)
    ensures var s := Stop(e, Shed(t), Smallest(t).head.fee); s.Node? && s.left.Leaf?
  {
    SmallestBounds(t, lo, hi);
    if t.left.Node? {
      SmallestBounds(t.left, lo, t.key);
      ShedStopsLeft(e, t.left, lo, t.key);
    }
  }

  lemma TakeOverConsistent(e: Edits, t: Tree, r: Tree, lo: int, hi: int)
    requires t.Node? && t.right.Node? && Consistent(t) && Consistent(r)
    requires Own(Smallest(t.right).head) && AllOwn(Smallest(t.right).same) && Smallest(t.right).head.fee > t.head.fee
    ensures Consistent(TakeOver(e, t, r)) <==> e.tx
  {
    hide Fees;
  }

  lemma {:induction false} ConsistentListing(t: Tree)
    ensures Consistent(t) <==> AllOwn(Listing(t))
  {
    hide Own;
    if t.Node? {
      ConsistentListing(t.left);
      ConsistentListing(t.right);
      var c := Chain(t);
      assert c[0] == t.head && forall i :: 0 <= i < |t.same| ==> c[i + 1] == t.same[i];
      AllOwnConcat(c, Listing(t.left));
      AllOwnConcat(Listing(t.right), c + Listing(t.left));
    }
  }

  lemma AllOwnConcat(a: seq<Entry>, b: seq<Entry>)
    ensures AllOwn(a + b) <==> AllOwn(a) && AllOwn(b)
  {
    hide Own;
    if AllOwn(a + b) {
      assert forall i :: 0 <= i < |a| ==> a[i] == (a + b)[i];
      assert forall i :: 0 <= i < |b| ==> b[i] == (a + b)[|a| + i];
    }
  }

  lemma AllOwnDelete(s: seq<Entry>, fee: uint64, txid: bytes)
    requires AllOwn(s)
    ensures AllOwn(Delete(s, fee, txid))
  {
    hide Own, Find;
  }

  /** The fourth flag makes a difference only where a successor moves in. */
  lemma {:induction false} SameWithoutDisplacement(e: Edits, t: Tree, fee: uint64, txid: bytes)
    requires !Displaces(e, t, fee, txid)
    ensures Remove(e, t, fee, txid) == Remove(e.(tx := true), t, fee, txid)
    ensures Stop(e, t, fee) == Stop(e.(tx := true), t, fee)
  {
    hide Rebalance, Fix, Delete;
    if t.Node? && fee < t.key {
      SameWithoutDisplacement(e, t.left, fee, txid);
    } else if t.Node? && e.descend && fee > t.key {
      SameWithoutDisplacement(e, t.right, fee, txid);
    }
  }

  /**
   A removal takes exactly its record and its transaction out of the listing if and only if the transaction moves with
   its record or no successor moves.
   */
  lemma RemoveListingExact(e: Edits, t: Tree, fee: uint64, txid: bytes, lo: int, hi: int)
    requires Consistent(t) && Within(t, lo, hi) && Remove(e, t, fee, txid).Done?
    ensures Listing(Remove(e, t, fee, txid).value) == Delete(Listing(t), fee, txid)
       <==> e.tx || !Displaces(e, t, fee, txid)
  {
    hide Displaces, Remove, Delete, Within;
    var r := Remove(e, t, fee, txid).value;
    if e.tx {
      RemoveListing(e, t, fee, txid, lo, hi);
    } else if !Displaces(e, t, fee, txid) {
      SameWithoutDisplacement(e, t, fee, txid);
      RemoveListing(e.(tx := true), t, fee, txid, lo, hi);
    } else {
      RemoveConsistent(e, t, fee, txid, lo, hi);
      ConsistentListing(t);
      ConsistentListing(r);
      AllOwnDelete(Listing(t), fee, txid);
    }
  }

  /** Insert middle, low, high, then remove the middle: the record of the high fee keeps the middle's transaction. */
  lemma DisplacedCounterexample(a: Entry, b: Entry, c: Entry)
    requires a.fee < b.fee < c.fee && Own(a) && Own(b) && Own(c)
    ensures var t1 := Insert(AS_WRITTEN, Single(b), a);
            t1.Done? &&
            var t2 := Insert(AS_WRITTEN, t1.value, c);
            t2.Done? && Consistent(t2.value) &&
            var r := Remove(AS_WRITTEN, t2.value, b.fee, b.txid);
            r.Done? && !Consistent(r.value)
  {
    hide Fees;
    var t1 := Node(b.fee, b, [], Single(a), Leaf, 2);
    var t := Node(b.fee, b, [], Single(a), Single(c), 2);
    assert Insert(AS_WRITTEN, Leaf, a) == Done(Single(a)) && Insert(AS_WRITTEN, Leaf, c) == Done(Single(c));
    assert Insert(AS_WRITTEN, Single(b), a) == Done(t1) && Insert(AS_WRITTEN, t1, c) == Done(t);
    assert Consistent(Single(a)) && Consistent(Single(c));
    var s := Single(c);
    assert Shed(s) == s && Smallest(s) == s;
    assert Remove(AS_WRITTEN, s, c.fee, c.txid) == Done(Leaf);
    var u := Node(c.fee, c.(tx := b.tx), [], Single(a), Leaf, 2);
    assert Fix(TakeOver(AS_WRITTEN, t, Leaf)) == u && Rebalance(u) == Done(u);
    assert Remove(AS_WRITTEN, t, b.fee, b.txid) == Done(u) && !Own(u.head);
  }
}
