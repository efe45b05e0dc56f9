/**
 Order and contents of the fee tree: whatever the four edits, a run that does not panic changes the listing by
 exactly one stable insertion or one deletion.
 */
module FeeTreeOrder {
  import opened Bytes
  import opened FeeTree

  /** Search order with keys strictly between lo and hi, chains of one fee each, positive stored heights. */
  predicate Within(t: Tree, lo: int, hi: int) {
    t.Node? ==>
      && lo < t.key < hi
      && t.height >= 1
      && OneFee(Chain(t), t.key)
      && Within(t.left, lo, t.key)
      && Within(t.right, t.key, hi)
  }

  predicate OneFee(s: seq<Entry>, fee: uint64) {
    forall i :: 0 <= i < |s| ==> s[i].fee == fee
  }

  predicate Ordered(t: Tree) {
    Within(t, -1, TWO_64)
  }

  /** Place x behind every entry that pays at least as much: equal fees stay in arrival order. */
  function InsertDesc(s: seq<Entry>, x: Entry): seq<Entry> {
    if |s| == 0 || s[0].fee < x.fee then [x] + s else [s[0]] + InsertDesc(s[1..], x)
  }

  predicate AtLeast(s: seq<Entry>, fee: int) {
    forall i :: 0 <= i < |s| ==> s[i].fee >= fee
  }

  predicate AtMost(s: seq<Entry>, fee: int) {
    forall i :: 0 <= i < |s| ==> s[i].fee <= fee
  }

  lemma {:induction false} InsertDescBehind(a: seq<Entry>, b: seq<Entry>, x: Entry)
    requires AtLeast(a, x.fee)
    ensures InsertDesc(a + b, x) == a + InsertDesc(b, x)
  {
    if |a| == 0 {
      assert a + b == b;
    } else {
      assert (a + b)[1..] == a[1..] + b;
      InsertDescBehind(a[1..], b, x);
    }
  }

  lemma {:induction false} InsertDescBefore(a: seq<Entry>, b: seq<Entry>, x: Entry)
    requires AtMost(b, x.fee - 1)
    ensures InsertDesc(a + b, x) == InsertDesc(a, x) + b
  {
    if |a| == 0 {
      assert a + b == b;
    } else if a[0].fee >= x.fee {
      assert (a + b)[1..] == a[1..] + b;
      InsertDescBefore(a[1..], b, x);
    }
  }

  lemma {:induction false} FindConcat(a: seq<Entry>, b: seq<Entry>, fee: uint64, txid: bytes)
    ensures Find(a + b, fee, txid)
         == if Find(a, fee, txid) < |a| then Find(a, fee, txid) else |a| + Find(b, fee, txid)
  {
    if |a| == 0 {
      assert a + b == b;
    } else if !Matches(a[0], fee, txid) {
      assert (a + b)[1..] == a[1..] + b;
      FindConcat(a[1..], b, fee, txid);
    }
  }

  lemma CutConcat(a: seq<Entry>, b: seq<Entry>, i: nat)
    requires i < |a + b|
    ensures Cut(a + b, i) == if i < |a| then Cut(a, i) + b else a + Cut(b, i - |a|)
  {
    if i < |a| {
      assert (a + b)[i + 1..] == a[i + 1..] + b;
    } else {
      assert (a + b)[..i] == a + b[..i - |a|];
      assert (a + b)[i + 1..] == b[i - |a| + 1..];
    }
  }

  lemma DeleteConcat(a: seq<Entry>, b: seq<Entry>, fee: uint64, txid: bytes)
    ensures Delete(a + b, fee, txid)
         == if Find(a, fee, txid) < |a| then Delete(a, fee, txid) + b else a + Delete(b, fee, txid)
  {
    FindConcat(a, b, fee, txid);
    var i := Find(a + b, fee, txid);
    if i < |a + b| {
      CutConcat(a, b, i);
    }
  }

  lemma FindAbsent(s: seq<Entry>, fee: uint64, txid: bytes)
    requires forall i :: 0 <= i < |s| ==> s[i].fee != fee
    ensures Find(s, fee, txid) == |s| && Delete(s, fee, txid) == s
  {
    var i := Find(s, fee, txid);
  }

  lemma {:induction false} WithinWiden(t: Tree, lo: int, hi: int, lo': int, hi': int)
    requires Within(t, lo, hi) && lo' <= lo && hi <= hi'
    ensures Within(t, lo', hi')
  {
    if t.Node? {
      WithinWiden(t.left, lo, t.key, lo', t.key);
      WithinWiden(t.right, t.key, hi, t.key, hi');
    }
  }

  /** The listing of a bounded tree is bounded. */
  lemma {:induction false} ListingBounds(t: Tree, lo: int, hi: int)
    requires Within(t, lo, hi)
    ensures AtLeast(Listing(t), lo + 1) && AtMost(Listing(t), hi - 1)
  {
    if t.Node? {
      ListingBounds(t.left, lo, t.key);
      ListingBounds(t.right, t.key, hi);
    }
  }

  /** Rotations change neither the listing nor the order. */
  lemma RotateRightListing(t: Tree, lo: int, hi: int)
    requires t.Node? && t.left.Node? && Within(t, lo, hi)
    ensures RightRotate(t).Done?
    ensures Within(RightRotate(t).value, lo, hi) && Listing(RightRotate(t).value) == Listing(t)
  {
    var x := t.left;
    var r, m, l := Listing(t.right), Listing(x.right), Listing(x.left);
    assert r + (Chain(t) + (m + (Chain(x) + l))) == (r + (Chain(t) + m)) + (Chain(x) + l);
  }

  lemma RotateLeftListing(t: Tree, lo: int, hi: int)
    requires t.Node? && t.right.Node? && Within(t, lo, hi)
    ensures LeftRotate(t).Done?
    ensures Within(LeftRotate(t).value, lo, hi) && Listing(LeftRotate(t).value) == Listing(t)
  {
    var y := t.right;
    var r, m, l := Listing(y.right), Listing(y.left), Listing(t.left);
    assert (r + (Chain(y) + m)) + (Chain(t) + l) == r + (Chain(y) + (m + (Chain(t) + l)));
  }

  lemma LeftRightListing(t: Tree, lo: int, hi: int)
    requires t.Node? && t.left.Node? && Within(t, lo, hi)
    ensures LeftRight(t).Done? <==> t.left.right.Node?
    ensures LeftRight(t).Done? ==> Within(LeftRight(t).value, lo, hi) && Listing(LeftRight(t).value) == Listing(t)
  {
    if t.left.right.Node? {
      RotateLeftListing(t.left, lo, t.key);
      RotateRightListing(t.(left := LeftRotate(t.left).value), lo, hi);
    }
  }

  lemma RightLeftListing(t: Tree, lo: int, hi: int)
    requires t.Node? && t.right.Node? && Within(t, lo, hi)
    ensures RightLeft(t).Done? <==> t.right.left.Node?
    ensures RightLeft(t).Done? ==> Within(RightLeft(t).value, lo, hi) && Listing(RightLeft(t).value) == Listing(t)
  {
    if t.right.left.Node? {
      RotateRightListing(t.right, t.key, hi);
      RotateLeftListing(t.(right := RightRotate(t.right).value), lo, hi);
    }
  }

  lemma AfterInsertListing(e: Edits, t: Tree, fee: uint64, lo: int, hi: int)
    requires t.Node? && Within(t, lo, hi)
    ensures var r := AfterInsert(e, t, fee); r.Done? ==> Within(r.value, lo, hi) && Listing(r.value) == Listing(t)
  {
    if BalanceFactor(t) > 1 && t.left.Node? {
      RotateRightListing(t, lo, hi);
      LeftRightListing(t, lo, hi);
    } else if BalanceFactor(t) < -1 && t.right.Node? {
      RotateLeftListing(t, lo, hi);
      RightLeftListing(t, lo, hi);
    }
  }

  /** With positive stored heights the rotations of a removal never dereference nil. */
  lemma RebalanceListing(t: Tree, lo: int, hi: int)
    requires t.Node? && Within(t, lo, hi)
    ensures Rebalance(t).Done?
    ensures Within(Rebalance(t).value, lo, hi) && Listing(Rebalance(t).value) == Listing(t)
  {
    if BalanceFactor(t) > 1 {
      RotateRightListing(t, lo, hi);
      LeftRightListing(t, lo, hi);
    } else if BalanceFactor(t) < -1 {
      RotateLeftListing(t, lo, hi);
      RightLeftListing(t, lo, hi);
    }
  }

  /** The three ways an insertion changes one node. */
  lemma InsertHere(t: Tree, x: Entry, lo: int, hi: int)
    requires t.Node? && Within(t, lo, hi) && x.fee == t.key
    ensures Within(t.(same := t.same + [x]), lo, hi)
    ensures Listing(t.(same := t.same + [x])) == InsertDesc(Listing(t), x)
  {
    ListingBounds(t.left, lo, t.key);
    ListingBounds(t.right, t.key, hi);
    var u := t.(same := t.same + [x]);
    assert Chain(u) == Chain(t) + [x];
    InsertBetween(Listing(t.right), Chain(t), Listing(t.left), x);
  }

  lemma InsertBetween(a: seq<Entry>, c: seq<Entry>, b: seq<Entry>, x: Entry)
    requires AtLeast(a, x.fee) && AtLeast(c, x.fee) && AtMost(b, x.fee - 1)
    ensures InsertDesc(a + (c + b), x) == a + ((c + [x]) + b)
  {
    InsertDescBehind(a, c + b, x);
    InsertDescBehind(c, b, x);
    InsertDescBefore([], b, x);
    assert [] + b == b && InsertDesc([], x) == [x];
    assert c + ([x] + b) == (c + [x]) + b;
  }

  lemma InsertLeft(t: Tree, l: Tree, x: Entry, lo: int, hi: int)
    requires t.Node? && Within(t, lo, hi) && x.fee < t.key
    requires Within(l, lo, t.key) && Listing(l) == InsertDesc(Listing(t.left), x)
    ensures Within(Fix(t.(left := l)), lo, hi)
    ensures Listing(Fix(t.(left := l))) == InsertDesc(Listing(t), x)
  {
    ListingBounds(t.right, t.key, hi);
    HeightPositive(t, l, lo, hi);
    InsertDescBehind(Listing(t.right), Chain(t) + Listing(t.left), x);
    InsertDescBehind(Chain(t), Listing(t.left), x);
    assert Chain(Fix(t.(left := l))) == Chain(t);
  }

  lemma InsertRight(t: Tree, r: Tree, x: Entry, lo: int, hi: int)
    requires t.Node? && Within(t, lo, hi) && x.fee > t.key
    requires Within(r, t.key, hi) && Listing(r) == InsertDesc(Listing(t.right), x)
    ensures Within(Fix(t.(right := r)), lo, hi)
    ensures Listing(Fix(t.(right := r))) == InsertDesc(Listing(t), x)
  {
    ListingBounds(t.left, lo, t.key);
    HeightPositive(t, r, lo, hi);
    InsertDescBefore(Listing(t.right), Chain(t) + Listing(t.left), x);
    assert Chain(Fix(t.(right := r))) == Chain(t);
  }

  lemma HeightPositive(t: Tree, c: Tree, lo: int, hi: int)
    requires t.Node? && Within(t, lo, hi)
    ensures Within(c, lo, t.key) ==> Fix(t.(left := c)).height >= 1
    ensures Within(c, t.key, hi) ==> Fix(t.(right := c)).height >= 1
  {
  }

  /** Insertion is stable insertion into the listing. */
  lemma {:induction false} InsertListing(e: Edits, t: Tree, x: Entry, lo: int, hi: int)
    requires Within(t, lo, hi) && lo < x.fee < hi
    ensures var r := Insert(e, t, x);
            r.Done? ==> Within(r.value, lo, hi) && Listing(r.value) == InsertDesc(Listing(t), x)
  {
    if t.Leaf? {
      assert Listing(Single(x)) == [x] && InsertDesc([], x) == [x];
    } else if x.fee == t.key {
      InsertHere(t, x, lo, hi);
    } else if x.fee < t.key {
      InsertListing(e, t.left, x, lo, t.key);
      var l := Insert(e, t.left, x);
      if l.Done? {
        InsertLeft(t, l.value, x, lo, hi);
        AfterInsertListing(e, Fix(t.(left := l.value)), x.fee, lo, hi);
      }
    } else {
      InsertListing(e, t.right, x, t.key, hi);
      var r := Insert(e, t.right, x);
      if r.Done? {
        InsertRight(t, r.value, x, lo, hi);
        AfterInsertListing(e, Fix(t.(right := r.value)), x.fee, lo, hi);
      }
    }
  }

  /** The listing without its smallest node. */
  function Front(t: Tree): seq<Entry>
    requires t.Node?
  {
    if t.left.Leaf? then Listing(t.right) else Listing(t.right) + (Chain(t) + Front(t.left))
  }

  lemma {:induction false} ShedListing(t: Tree, lo: int, hi: int)
    requires t.Node? && Within(t, lo, hi)
    ensures Listing(Shed(t)) == Front(t) + [Smallest(t).head]
    ensures Listing(t) == Front(t) + Chain(Smallest(t))
    ensures Within(Shed(t), lo, hi)
  {
    if t.left.Leaf? {
      assert Chain(t)[0] == t.head && Chain(Shed(t)) == [t.head];
      assert Chain(t) + [] == Chain(t) && [t.head] + [] == [t.head];
    } else {
      ShedListing(t.left, lo, t.key);
      var r, c, f := Listing(t.right), Chain(t), Front(t.left);
      assert Chain(Shed(t)) == c;
      assert r + (c + (f + [Smallest(t).head])) == (r + (c + f)) + [Smallest(t).head];
      assert r + (c + (f + Chain(Smallest(t)))) == (r + (c + f)) + Chain(Smallest(t));
    }
  }

  lemma {:induction false} SmallestBounds(t: Tree, lo: int, hi: int)
    requires t.Node? && Within(t, lo, hi)
    ensures var s := Smallest(t);
            && lo < s.key < hi && OneFee(Chain(s), s.key) && s.head.fee == s.key
            && AtLeast(Front(t), s.key + 1)
  {
    ListingBounds(t.right, t.key, hi);
    assert Chain(t)[0] == t.head;
    if t.left.Node? {
      SmallestBounds(t.left, lo, t.key);
    }
  }

  /** Same records in the same order; the same transactions too when they move with their records. */
  predicate Agree(e: Edits, a: seq<Entry>, b: seq<Entry>) {
    && |a| == |b|
    && forall i :: 0 <= i < |a| ==> a[i].fee == b[i].fee && a[i].txid == b[i].txid && (e.tx ==> a[i] == b[i])
  }

  lemma {:induction false} Tighten(t: Tree, lo: int, hi: int, lo': int)
    requires Within(t, lo, hi) && AtLeast(Listing(t), lo' + 1)
    ensures Within(t, lo', hi)
  {
    if t.Node? {
      var r := Listing(t.right);
      assert Listing(t)[|r|] == Chain(t)[0] == t.head;
      assert AtLeast(Listing(t.left), lo' + 1) by {
        forall i | 0 <= i < |Listing(t.left)| ensures Listing(t.left)[i].fee >= lo' + 1 {
          assert Listing(t)[|r| + (|Chain(t)| + i)] == (Chain(t) + Listing(t.left))[|Chain(t)| + i];
        }
      }
      Tighten(t.left, lo, t.key, lo');
    }
  }

  lemma AgreeConcat(e: Edits, p: seq<Entry>, a: seq<Entry>, b: seq<Entry>, q: seq<Entry>)
    requires Agree(e, a, b)
    ensures Agree(e, p + (a + q), p + (b + q))
  {
    var x, y := p + (a + q), p + (b + q);
    forall i | 0 <= i < |x| ensures x[i].fee == y[i].fee && x[i].txid == y[i].txid && (e.tx ==> x[i] == y[i]) {
      if |p| <= i < |p| + |a| {
        assert x[i] == (a + q)[i - |p|] == a[i - |p|] && y[i] == (b + q)[i - |p|] == b[i - |p|];
      } else if i >= |p| + |a| {
        assert x[i] == (a + q)[i - |p|] == q[i - |p| - |a|] && y[i] == (b + q)[i - |p|] == q[i - |p| - |a|];
      }
    }
  }

  /** Deletion from a sequence in two parts, when one does not hold the fee. */
  lemma DeleteLast(a: seq<Entry>, c: seq<Entry>, fee: uint64, txid: bytes)
    requires forall i :: 0 <= i < |a| ==> a[i].fee != fee
    ensures Delete(a + c, fee, txid) == a + Delete(c, fee, txid)
  {
    FindAbsent(a, fee, txid);
    DeleteConcat(a, c, fee, txid);
  }

  lemma DeleteFirst(c: seq<Entry>, b: seq<Entry>, fee: uint64, txid: bytes)
    requires forall i :: 0 <= i < |b| ==> b[i].fee != fee
    ensures Delete(c + b, fee, txid) == Delete(c, fee, txid) + b
  {
    FindAbsent(b, fee, txid);
    DeleteConcat(c, b, fee, txid);
  }

  /** The ways a removal changes one node. */
  lemma RemoveLeft(e: Edits, t: Tree, l: Tree, fee: uint64, txid: bytes, lo: int, hi: int)
    requires t.Node? && Within(t, lo, hi) && fee < t.key
    requires Within(l, lo, t.key) && Agree(e, Listing(l), Delete(Listing(t.left), fee, txid))
    ensures Within(Fix(t.(left := l)), lo, hi)
    ensures Agree(e, Listing(Fix(t.(left := l))), Delete(Listing(t), fee, txid))
  {
    ListingBounds(t.right, t.key, hi);
    HeightPositive(t, l, lo, hi);
    hide Find, Delete;
    var r, c, l' := Listing(t.right), Chain(t), Delete(Listing(t.left), fee, txid);
    DeleteLast(r, c + Listing(t.left), fee, txid);
    DeleteLast(c, Listing(t.left), fee, txid);
    AgreeConcat(e, c, Listing(l), l', []);
    assert Listing(l) + [] == Listing(l) && l' + [] == l';
    AgreeConcat(e, r, c + Listing(l), c + l', []);
    assert (c + Listing(l)) + [] == c + Listing(l) && (c + l') + [] == c + l';
    assert Chain(Fix(t.(left := l))) == c;
  }

  lemma RemoveRight(e: Edits, t: Tree, r: Tree, fee: uint64, txid: bytes, lo: int, hi: int)
    requires t.Node? && Within(t, lo, hi) && fee > t.key
    requires Within(r, t.key, hi) && Agree(e, Listing(r), Delete(Listing(t.right), fee, txid))
    ensures Within(Fix(t.(right := r)), lo, hi)
    ensures Agree(e, Listing(Fix(t.(right := r))), Delete(Listing(t), fee, txid))
  {
    ListingBounds(t.left, lo, t.key);
    HeightPositive(t, r, lo, hi);
    hide Find, Delete;
    var r', b := Delete(Listing(t.right), fee, txid), Chain(t) + Listing(t.left);
    DeleteFirst(Listing(t.right), b, fee, txid);
    AgreeConcat(e, [], Listing(r), r', b);
    assert [] + (Listing(r) + b) == Listing(r) + b && [] + (r' + b) == r' + b;
    assert Chain(Fix(t.(right := r))) == Chain(t);
  }

  /** A record with the key of the node is looked for in its chain alone. */
  lemma DeleteHere(t: Tree, fee: uint64, txid: bytes, lo: int, hi: int)
    requires t.Node? && Within(t, lo, hi) && fee == t.key
    ensures Delete(Listing(t), fee, txid) == Listing(t.right) + (Delete(Chain(t), fee, txid) + Listing(t.left))
  {
    ListingBounds(t.left, lo, t.key);
    ListingBounds(t.right, t.key, hi);
    hide Find, Delete;
    DeleteLast(Listing(t.right), Chain(t) + Listing(t.left), fee, txid);
    DeleteFirst(Chain(t), Listing(t.left), fee, txid);
  }

  lemma RemoveInChain(t: Tree, fee: uint64, txid: bytes, lo: int, hi: int)
    requires t.Node? && Within(t, lo, hi) && fee == t.key
    requires !Matches(t.head, fee, txid) && Find(t.same, fee, txid) < |t.same|
    ensures var u := t.(same := Delete(t.same, fee, txid));
            Within(u, lo, hi) && Listing(u) == Delete(Listing(t), fee, txid)
  {
    DeleteHere(t, fee, txid, lo, hi);
    DeleteSecond(t.head, t.same, fee, txid);
    CutOneFee(t.same, Find(t.same, fee, txid), t.head, t.key);
    assert Chain(t.(same := Delete(t.same, fee, txid))) == Delete(Chain(t), fee, txid);
  }

  lemma DeleteSecond(head: Entry, same: seq<Entry>, fee: uint64, txid: bytes)
    requires !Matches(head, fee, txid)
    ensures Delete([head] + same, fee, txid) == [head] + Delete(same, fee, txid)
  {
    DeleteConcat([head], same, fee, txid);
  }

  lemma CutOneFee(s: seq<Entry>, i: nat, head: Entry, fee: uint64)
    requires i < |s| && OneFee([head] + s, fee)
    ensures OneFee([head] + Cut(s, i), fee)
  {
    var r := [head] + Cut(s, i);
    forall j | 0 <= j < |r| ensures r[j].fee == fee {
      var k := if j <= i then j else j + 1;
      assert r[j] == ([head] + s)[k];
    }
  }

  lemma DeleteHead(t: Tree, fee: uint64, txid: bytes, lo: int, hi: int)
    requires t.Node? && Within(t, lo, hi) && Matches(t.head, fee, txid)
    ensures fee == t.key
    ensures Delete(Listing(t), fee, txid) == Listing(t.right) + (t.same + Listing(t.left))
  {
    assert Chain(t)[0] == t.head;
    DeleteHere(t, fee, txid, lo, hi);
    assert Find(Chain(t), fee, txid) == 0;
    assert Cut(Chain(t), 0) == t.same;
  }

  lemma RemovePromote(t: Tree, height: int, fee: uint64, txid: bytes, lo: int, hi: int)
    requires t.Node? && Within(t, lo, hi) && Matches(t.head, fee, txid) && |t.same| > 0 && height >= 1
    ensures var u := t.(head := t.same[0], same := t.same[1..], height := height);
            Within(u, lo, hi) && Listing(u) == Delete(Listing(t), fee, txid)
  {
    DeleteHead(t, fee, txid, lo, hi);
    hide Find, Delete;
    var u := t.(head := t.same[0], same := t.same[1..], height := height);
    assert Chain(u) == t.same;
    assert forall i :: 0 <= i < |t.same| ==> t.same[i] == Chain(t)[i + 1];
  }

  lemma RemoveOneChild(t: Tree, fee: uint64, txid: bytes, lo: int, hi: int)
    requires t.Node? && Within(t, lo, hi) && Matches(t.head, fee, txid) && t.same == []
    requires t.left.Leaf? || t.right.Leaf?
    ensures var child := if t.left.Leaf? then t.right else t.left;
            && Listing(child) == Delete(Listing(t), fee, txid)
            && (child.Node? ==> Within(Fix(child), lo, hi) && Listing(Fix(child)) == Listing(child))
  {
    DeleteHead(t, fee, txid, lo, hi);
    var child := if t.left.Leaf? then t.right else t.left;
    WithinWiden(child, if t.left.Leaf? then t.key else lo, if t.left.Leaf? then hi else t.key, lo, hi);
    if child.Node? {
      HeightPositive(child, child.left, lo, hi);
    }
  }

  /** The successor, with its whole chain, takes the place of the removed record. */
  lemma RemoveTakeOver(e: Edits, t: Tree, u: Tree, fee: uint64, txid: bytes, lo: int, hi: int)
    requires t.Node? && Within(t, lo, hi) && Matches(t.head, fee, txid) && t.same == [] && t.right.Node?
    requires u.Node? && u == TakeOver(e, t, u.right) && Within(u.right, t.key, hi)
    requires Agree(e, Listing(u.right), Delete(Listing(Shed(t.right)), u.head.fee, u.head.txid))
    ensures Within(Fix(u), lo, hi) && Agree(e, Listing(Fix(u)), Delete(Listing(t), fee, txid))
  {
    ShedListing(t.right, t.key, hi);
    SmallestBounds(t.right, t.key, hi);
    var s, front := Smallest(t.right), Front(t.right);
    DeleteLast(front, [s.head], s.key, s.head.txid);
    assert Delete([s.head], s.key, s.head.txid) == [];
    assert front + [] == front;
    TakeOverWithin(e, t, u, lo, hi);
    DeleteHead(t, fee, txid, lo, hi);
    TakeOverListing(e, Listing(u.right), front, Chain(u), Chain(s), Listing(t.left));
    assert [] + Listing(t.left) == Listing(t.left);
  }

  lemma TakeOverListing(e: Edits, r: seq<Entry>, front: seq<Entry>, c: seq<Entry>, c': seq<Entry>, l: seq<Entry>)
    requires Agree(e, r, front) && Agree(e, c, c')
    ensures Agree(e, r + (c + l), (front + c') + l)
  {
    AgreeConcat(e, [], r, front, c + l);
    AgreeConcat(e, front, c, c', l);
    assert [] + (r + (c + l)) == r + (c + l) && [] + (front + (c + l)) == front + (c + l);
    assert front + (c' + l) == (front + c') + l;
  }

  lemma TakeOverWithin(e: Edits, t: Tree, u: Tree, lo: int, hi: int)
    requires t.Node? && Within(t, lo, hi) && t.right.Node?
    requires u.Node? && u == TakeOver(e, t, u.right)
    requires Within(u.right, t.key, hi) && Agree(e, Listing(u.right), Front(t.right))
    ensures Within(Fix(u), lo, hi) && Agree(e, Chain(u), Chain(Smallest(t.right)))
  {
    SmallestBounds(t.right, t.key, hi);
    var s := Smallest(t.right);
    Tighten(u.right, t.key, hi, s.key);
    WithinWiden(t.left, lo, t.key, lo, s.key);
    forall i | 0 <= i < |Chain(u)| ensures Chain(u)[i].fee == s.key {
      assert Chain(s)[i].fee == s.key;
    }
    assert Chain(Fix(u)) == Chain(u);
  }

  /** Where the descent of a removal ends: at a node, or at nil. */
  function Stop(e: Edits, t: Tree, fee: uint64): Tree {
    match t
    case Leaf => Leaf
    case Node(key, _, _, left, right, _) =>
      if fee < key then Stop(e, left, fee) else if e.descend && fee > key then Stop(e, right, fee) else t
  }

  lemma {:induction false} StopAtSmallest(e: Edits, t: Tree, lo: int, hi: int)
    requires t.Node? && Within(t, lo, hi)
    ensures var s := Stop(e, Shed(t), Smallest(t).head.fee);
            s.Node? && s.key == Smallest(t).key == Smallest(t).head.fee && s.head == Smallest(t).head
  {
    SmallestBounds(t, lo, hi);
    if t.left.Node? {
      SmallestBounds(t.left, lo, t.key);
      StopAtSmallest(e, t.left, lo, t.key);
    }
  }

  /** What removal does to one tree; the main claim below is that this always holds. */
  predicate RemovalCorrect(e: Edits, t: Tree, fee: uint64, txid: bytes, lo: int, hi: int) {
    var r, s := Remove(e, t, fee, txid), Stop(e, t, fee);
    && (r.Panic? <==> s.Node? && Find(Chain(s), fee, txid) == |Chain(s)|)
    && (r.Done? ==> Within(r.value, lo, hi) && Agree(e, Listing(r.value), Delete(Listing(t), fee, txid)))
  }

  lemma RemoveStepLeft(e: Edits, t: Tree, fee: uint64, txid: bytes, lo: int, hi: int)
    requires t.Node? && Within(t, lo, hi) && fee < t.key
    requires RemovalCorrect(e, t.left, fee, txid, lo, t.key)
    ensures RemovalCorrect(e, t, fee, txid, lo, hi)
  {
    var l := Remove(e, t.left, fee, txid);
    if l.Done? {
      RemoveLeft(e, t, l.value, fee, txid, lo, hi);
      RebalanceListing(Fix(t.(left := l.value)), lo, hi);
    }
  }

  lemma RemoveStepRight(e: Edits, t: Tree, fee: uint64, txid: bytes, lo: int, hi: int)
    requires t.Node? && Within(t, lo, hi) && e.descend && fee > t.key
    requires RemovalCorrect(e, t.right, fee, txid, t.key, hi)
    ensures RemovalCorrect(e, t, fee, txid, lo, hi)
  {
    var r := Remove(e, t.right, fee, txid);
    if r.Done? {
      RemoveRight(e, t, r.value, fee, txid, lo, hi);
      RebalanceListing(Fix(t.(right := r.value)), lo, hi);
    }
  }

  lemma RemoveStepChain(e: Edits, t: Tree, fee: uint64, txid: bytes, lo: int, hi: int)
    requires t.Node? && Within(t, lo, hi) && fee >= t.key && (e.descend ==> fee == t.key)
    requires !Matches(t.head, fee, txid) || |t.same| > 0
    ensures RemovalCorrect(e, t, fee, txid, lo, hi)
  {
    if Matches(t.head, fee, txid) {
      RemovePromote(t, if e.height then t.height else 1, fee, txid, lo, hi);
    } else {
      FindConcat([t.head], t.same, fee, txid);
      assert Find([t.head], fee, txid) == 1;
      if Find(t.same, fee, txid) < |t.same| {
        assert Chain(t)[1 + Find(t.same, fee, txid)].fee == t.key;
        RemoveInChain(t, fee, txid, lo, hi);
      }
    }
  }

  lemma RemoveStepLast(e: Edits, t: Tree, fee: uint64, txid: bytes, lo: int, hi: int)
    requires t.Node? && Within(t, lo, hi) && fee == t.key
    requires Matches(t.head, fee, txid) && t.same == [] && (t.left.Leaf? || t.right.Leaf?)
    ensures RemovalCorrect(e, t, fee, txid, lo, hi)
  {
    RemoveOneChild(t, fee, txid, lo, hi);
    var child := if t.left.Leaf? then t.right else t.left;
    if child.Node? {
      RebalanceListing(Fix(child), lo, hi);
    }
  }

  lemma RemoveStepSuccessor(e: Edits, t: Tree, fee: uint64, txid: bytes, lo: int, hi: int)
    requires t.Node? && Within(t, lo, hi) && fee == t.key
    requires Matches(t.head, fee, txid) && t.same == [] && t.left.Node? && t.right.Node?
    requires var x := Smallest(t.right).head; RemovalCorrect(e, Shed(t.right), x.fee, x.txid, t.key, hi)
    ensures RemovalCorrect(e, t, fee, txid, lo, hi)
  {
    var x := Smallest(t.right).head;
    StopAtSmallest(e, t.right, t.key, hi);
    var u := TakeOver(e, t, Remove(e, Shed(t.right), x.fee, x.txid).value);
    RemoveTakeOver(e, t, u, fee, txid, lo, hi);
    RebalanceListing(Fix(u), lo, hi);
  }

  /**
   Removal deletes the one record, for every reading of the source, whenever it does not panic; and it panics
   exactly when the descent ends at a node whose chain lacks the record.
   */
  lemma {:induction false} RemoveListing(e: Edits, t: Tree, fee: uint64, txid: bytes, lo: int, hi: int)
    requires Within(t, lo, hi)
    ensures RemovalCorrect(e, t, fee, txid, lo, hi)
    decreases Nodes(t)
  {
    if t.Leaf? {
    } else if fee < t.key {
      hide RemovalCorrect;
      RemoveListing(e, t.left, fee, txid, lo, t.key);
      RemoveStepLeft(e, t, fee, txid, lo, hi);
    } else if e.descend && fee > t.key {
      hide RemovalCorrect;
      RemoveListing(e, t.right, fee, txid, t.key, hi);
      RemoveStepRight(e, t, fee, txid, lo, hi);
    } else if !Matches(t.head, fee, txid) || |t.same| > 0 {
      RemoveStepChain(e, t, fee, txid, lo, hi);
    } else {
      hide RemovalCorrect;
      assert Chain(t)[0] == t.head;
      if t.left.Leaf? || t.right.Leaf? {
        RemoveStepLast(e, t, fee, txid, lo, hi);
      } else {
        ShedListing(t.right, t.key, hi);
        var x := Smallest(t.right).head;
        RemoveListing(e, Shed(t.right), x.fee, x.txid, t.key, hi);
        RemoveStepSuccessor(e, t, fee, txid, lo, hi);
      }
    }
  }
}
