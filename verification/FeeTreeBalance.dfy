/** Balance of the fee tree: what each reading of the four lines keeps, and exactly when the code as written does. */
module FeeTreeBalance {
  import opened Bytes
  import opened FeeTree
  import opened FeeTreeOrder

  /** Stored heights are real heights and every balance factor is in -1..1. */
  predicate Avl(t: Tree) {
    t.Node? ==>
      && t.height == 1 + Max(Height(t.left), Height(t.right))
      && -1 <= BalanceFactor(t) <= 1
      && Avl(t.left)
      && Avl(t.right)
  }

  /** The height by its own definition, not as stored. */
  function Depth(t: Tree): nat {
    if t.Leaf? then 0 else 1 + Max(Depth(t.left), Depth(t.right))
  }

  lemma {:induction false} AvlDepth(t: Tree)
    requires Avl(t)
    ensures Height(t) == Depth(t)
  {
    if t.Node? {
      AvlDepth(t.left);
      AvlDepth(t.right);
    }
  }

  /** A node whose subtrees are balanced and whose height has just been set. */
  predicate Settled(t: Tree) {
    t.Node? && Avl(t.left) && Avl(t.right) && t == Fix(t)
  }

  lemma SettledHeights(t: Tree)
    requires Avl(t)
    ensures Height(t) >= 0 && (Height(t) == 0 <==> t.Leaf?)
  {
    AvlDepth(t);
  }

  lemma RotateRightAvl(t: Tree)
    requires Settled(t) && t.left.Node? && BalanceFactor(t) == 2 && BalanceFactor(t.left) >= 0
    ensures RightRotate(t).Done? && Avl(RightRotate(t).value)
    ensures Height(RightRotate(t).value) == if BalanceFactor(t.left) == 0 then t.height else t.height - 1
  {
  }

  lemma RotateLeftAvl(t: Tree)
    requires Settled(t) && t.right.Node? && BalanceFactor(t) == -2 && BalanceFactor(t.right) <= 0
    ensures LeftRotate(t).Done? && Avl(LeftRotate(t).value)
    ensures Height(LeftRotate(t).value) == if BalanceFactor(t.right) == 0 then t.height else t.height - 1
  {
  }

  lemma LeftRightAvl(t: Tree)
    requires Settled(t) && t.left.Node? && BalanceFactor(t) == 2 && BalanceFactor(t.left) == -1
    ensures LeftRight(t).Done? && Avl(LeftRight(t).value) && Height(LeftRight(t).value) == t.height - 1
  {
    SettledHeights(t.left.left);
    SettledHeights(t.left.right);
  }

  lemma RightLeftAvl(t: Tree)
    requires Settled(t) && t.right.Node? && BalanceFactor(t) == -2 && BalanceFactor(t.right) == 1
    ensures RightLeft(t).Done? && Avl(RightLeft(t).value) && Height(RightLeft(t).value) == t.height - 1
  {
    SettledHeights(t.right.left);
    SettledHeights(t.right.right);
  }

  /** The new fee went into the deeper side of the deeper child. */
  predicate GrewTowards(t: Tree, fee: uint64) {
    && Settled(t)
    && -2 <= BalanceFactor(t) <= 2
    && (BalanceFactor(t) == 2 ==> t.left.Node? && BalanceFactor(t.left) == if fee < t.left.key then 1 else -1)
    && (BalanceFactor(t) == -2 ==>
          t.right.Node? && fee != t.right.key && BalanceFactor(t.right) == if fee < t.right.key then 1 else -1)
  }

  /**
   The rebalancing step of an insertion restores balance exactly when the right side is not the deep one or the
   two bodies of lines 145-151 are exchanged.
   */
  lemma AfterInsertAvl(e: Edits, t: Tree, fee: uint64)
    requires GrewTowards(t, fee)
    ensures var r := AfterInsert(e, t, fee); r.Done? && Avl(r.value) <==> e.rotate || BalanceFactor(t) != -2
    ensures var r := AfterInsert(e, t, fee);
            e.rotate || BalanceFactor(t) != -2 ==>
              Height(r.value) == if -1 <= BalanceFactor(t) <= 1 then t.height else t.height - 1
  {
    if BalanceFactor(t) == 2 {
      if fee < t.left.key { RotateRightAvl(t); } else { LeftRightAvl(t); }
    } else if BalanceFactor(t) == -2 {
      if e.rotate {
        if fee > t.right.key { RotateLeftAvl(t); } else { RightLeftAvl(t); }
      } else if fee < t.right.key {
        WrongSingle(t);
      } else {
        WrongDouble(t);
      }
    }
  }

  lemma WrongSingle(t: Tree)
    requires Settled(t) && t.right.Node? && BalanceFactor(t) == -2 && BalanceFactor(t.right) == 1
    ensures LeftRotate(t).Done? && !Avl(LeftRotate(t).value)
  {
  }

  lemma WrongDouble(t: Tree)
    requires Settled(t) && t.right.Node? && BalanceFactor(t) == -2 && BalanceFactor(t.right) == -1
    ensures RightLeft(t).Panic? || !Avl(RightLeft(t).value)
  {
    SettledHeights(t.left);
    var m := t.right.left;
    if m.Node? {
      assert Avl(m) && Avl(m.left) && Avl(m.right);
      SettledHeights(m.left);
      SettledHeights(m.right);
    }
  }

  /** r is t after an insertion of the fee: balanced, and deeper by at most one, on the side of the fee. */
  predicate Grew(t: Tree, r: Tree, fee: uint64) {
    && r.Node? && Avl(r)
    && Height(t) <= Height(r) <= Height(t) + 1
    && (t.Node? && Height(r) == Height(t) + 1 ==>
          r.key == t.key != fee && BalanceFactor(r) == if fee < t.key then 1 else -1)
  }

  lemma InsertStepAvl(e: Edits, t: Tree, l: Tree, r: Tree, fee: uint64)
    requires t.Node? && Avl(t) && fee != t.key
    requires e.rotate || Height(l) - Height(r) != -2
    requires if fee < t.key then r == t.right && Grew(t.left, l, fee) else l == t.left && Grew(t.right, r, fee)
    ensures var u := AfterInsert(e, Fix(t.(left := l, right := r)), fee); u.Done? && Grew(t, u.value, fee)
  {
    SettledHeights(t.left);
    SettledHeights(t.right);
    AfterInsertAvl(e, Fix(t.(left := l, right := r)), fee);
  }

  /** Insertion as the comments describe it never panics on a balanced tree and keeps it balanced. */
  lemma {:induction false} InsertAvl(e: Edits, t: Tree, x: Entry)
    requires e.rotate && Avl(t)
    ensures Insert(e, t, x).Done? && Grew(t, Insert(e, t, x).value, x.fee)
  {
    if t.Node? && x.fee < t.key {
      InsertAvl(e, t.left, x);
      InsertStepAvl(e, t, Insert(e, t.left, x).value, t.right, x.fee);
    } else if t.Node? && x.fee > t.key {
      InsertAvl(e, t.right, x);
      InsertStepAvl(e, t, t.left, Insert(e, t.right, x).value, x.fee);
    }
  }

  /** Some node on the search path of the fee gets a right side deeper by two. */
  predicate RightHeavy(t: Tree, x: Entry) {
    t.Node? && x.fee != t.key &&
    if x.fee < t.key then RightHeavy(t.left, x)
    else
      var r := Insert(AS_COMMENTED, t.right, x);
      RightHeavy(t.right, x) || (r.Done? && Height(r.value) > Height(t.left) + 1)
  }

  /** The intended insertion repairs a right-heavy node on the spot: the height does not change. */
  lemma {:induction false} HeavyKeepsHeight(t: Tree, x: Entry)
    requires Avl(t) && RightHeavy(t, x)
    ensures var r := Insert(AS_COMMENTED, t, x);
            r.Done? && r.value.Node? && Height(r.value) == Height(t)
  {
    InsertAvl(AS_COMMENTED, t, x);
    SettledHeights(t.left);
    SettledHeights(t.right);
    if x.fee < t.key {
      HeavyKeepsHeight(t.left, x);
    } else {
      InsertAvl(AS_COMMENTED, t.right, x);
      var r := Insert(AS_COMMENTED, t.right, x).value;
      if RightHeavy(t.right, x) {
        HeavyKeepsHeight(t.right, x);
      } else {
        AfterInsertAvl(AS_COMMENTED, Fix(t.(right := r)), x.fee);
      }
    }
  }

  /** A rotation puts another key at the root. */
  lemma RotationChangesKey(e: Edits, t: Tree, fee: uint64, lo: int, hi: int)
    requires t.Node? && Within(t, lo, hi)
    ensures var r := AfterInsert(e, t, fee); r.Done? && r.value != t ==> r.value.Node? && r.value.key != t.key
  {
    if t.left.Node? {
      assert Within(t.left.right, t.left.key, t.key);
    }
    if t.right.Node? {
      assert Within(t.right.left, t.key, t.right.key);
    }
  }

  /** A subtree that came out differently is still different one level up. */
  lemma DifferAbove(t: Tree, u: Tree, v: Tree, fee: uint64, lo: int, hi: int)
    requires t.Node? && u.Node? && v.Node? && u != v && u.key == v.key
    requires Within(Fix(u), lo, hi) && Settled(v) && -1 <= BalanceFactor(v) <= 1
    requires u.left != v.left || u.right != v.right
    ensures AfterInsert(AS_WRITTEN, Fix(u), fee) != AfterInsert(AS_COMMENTED, v, fee)
  {
    RotationChangesKey(AS_WRITTEN, Fix(u), fee, lo, hi);
  }

  /**
   On a balanced tree the insertion as written does what its comments say exactly when no node on the path becomes
   right-heavy; then, in particular, it keeps the tree balanced.
   */
  lemma {:induction false} InsertAsWritten(t: Tree, x: Entry, lo: int, hi: int)
    requires Avl(t) && Within(t, lo, hi) && lo < x.fee < hi
    ensures Insert(AS_WRITTEN, t, x) == Insert(AS_COMMENTED, t, x) <==> !RightHeavy(t, x)
    ensures !RightHeavy(t, x) ==> Insert(AS_WRITTEN, t, x).Done? && Avl(Insert(AS_WRITTEN, t, x).value)
  {
    InsertAvl(AS_COMMENTED, t, x);
    if t.Node? && x.fee < t.key {
      InsertAsWritten(t.left, x, lo, t.key);
      InsertAvl(AS_COMMENTED, t.left, x);
      InsertListing(AS_WRITTEN, t.left, x, lo, t.key);
      var l, l' := Insert(AS_WRITTEN, t.left, x), Insert(AS_COMMENTED, t.left, x).value;
      AboveLeft(t, l, l', x, lo, hi);
    } else if t.Node? && x.fee > t.key {
      InsertAsWritten(t.right, x, t.key, hi);
      InsertAvl(AS_COMMENTED, t.right, x);
      InsertListing(AS_WRITTEN, t.right, x, t.key, hi);
      var r, r' := Insert(AS_WRITTEN, t.right, x), Insert(AS_COMMENTED, t.right, x).value;
      AboveRight(t, r, r', x, lo, hi);
    }
  }

  lemma AboveLeft(t: Tree, l: Outcome<Tree>, l': Tree, x: Entry, lo: int, hi: int)
    requires t.Node? && Avl(t) && Within(t, lo, hi) && x.fee < t.key
    requires l == Insert(AS_WRITTEN, t.left, x) && Insert(AS_COMMENTED, t.left, x) == Done(l')
               && Grew(t.left, l', x.fee)
    requires l == Done(l') <==> !RightHeavy(t.left, x)
    requires l.Done? ==> Within(l.value, lo, t.key)
    ensures Insert(AS_WRITTEN, t, x) == Insert(AS_COMMENTED, t, x) <==> !RightHeavy(t, x)
  {
    if RightHeavy(t.left, x) {
      HeavyKeepsHeight(t.left, x);
      if l.Done? {
        HeightPositive(t, l.value, lo, hi);
        DifferAbove(t, t.(left := l.value), Fix(t.(left := l')), x.fee, lo, hi);
      }
    } else {
      SettledHeights(t.left);
      SettledHeights(t.right);
    }
  }

  lemma AboveRight(t: Tree, r: Outcome<Tree>, r': Tree, x: Entry, lo: int, hi: int)
    requires t.Node? && Avl(t) && Within(t, lo, hi) && x.fee > t.key
    requires r == Insert(AS_WRITTEN, t.right, x) && Insert(AS_COMMENTED, t.right, x) == Done(r')
               && Grew(t.right, r', x.fee)
    requires r == Done(r') <==> !RightHeavy(t.right, x)
    requires r.Done? ==> Within(r.value, t.key, hi)
    ensures Insert(AS_WRITTEN, t, x) == Insert(AS_COMMENTED, t, x) <==> !RightHeavy(t, x)
  {
    SettledHeights(t.left);
    SettledHeights(t.right);
    if RightHeavy(t.right, x) {
      HeavyKeepsHeight(t.right, x);
      if r.Done? {
        HeightPositive(t, r.value, lo, hi);
        DifferAbove(t, t.(right := r.value), Fix(t.(right := r')), x.fee, lo, hi);
      }
    } else if Height(r') > Height(t.left) + 1 {
      AfterInsertAvl(AS_WRITTEN, Fix(t.(right := r')), x.fee);
      AfterInsertAvl(AS_COMMENTED, Fix(t.(right := r')), x.fee);
    }
  }

  /** Three fees in rising order make the insertion as written dereference nil; low, high, middle unbalance it. */
  lemma InsertAsWrittenCounterexamples(a: Entry, b: Entry, c: Entry)
    requires a.fee < b.fee < c.fee
    ensures var t := Node(a.fee, a, [], Leaf, Single(b), 2);
            Insert(AS_WRITTEN, Single(a), b) == Done(t) && Insert(AS_WRITTEN, t, c).Panic?
    ensures var t := Node(a.fee, a, [], Leaf, Single(c), 2);
            && Insert(AS_WRITTEN, Single(a), c) == Done(t)
            && Insert(AS_WRITTEN, t, b).Done? && !Avl(Insert(AS_WRITTEN, t, b).value)
  {
    assert Insert(AS_WRITTEN, Leaf, b) == Done(Single(b)) && Insert(AS_WRITTEN, Leaf, c) == Done(Single(c));
    var bc := Node(b.fee, b, [], Leaf, Single(c), 2);
    assert Insert(AS_WRITTEN, Single(b), c) == Done(bc);
    var cb := Node(c.fee, c, [], Single(b), Leaf, 2);
    assert Insert(AS_WRITTEN, Single(c), b) == Done(cb);
    var ab := Node(a.fee, a, [], Leaf, Single(b), 2);
    assert Insert(AS_WRITTEN, Node(a.fee, a, [], Leaf, Single(c), 2), b) == Done(Node(c.fee, c, [], ab, Leaf, 3));
  }

  // ---- removal

  /** The descent ends at the head of a chain, with subtrees below: the promoted node forgets its height. */
  predicate Stale(e: Edits, t: Tree, fee: uint64, txid: bytes) {
    var s := Stop(e, t, fee);
    !e.height && s.Node? && Matches(s.head, fee, txid) && |s.same| > 0 && s.height > 1
  }

  /** r is t after a removal: no deeper, and balanced unless stale. */
  predicate Shrunk(t: Tree, r: Tree, stale: bool) {
    && (Avl(r) <==> !stale)
    && Height(r) <= Height(t)
    && (!stale ==> Height(t) - 1 <= Height(r))
    && (stale ==> Height(r) >= 1)
  }

  lemma RebalanceAvl(t: Tree)
    requires Settled(t) && -2 <= BalanceFactor(t) <= 2
    ensures var r := Rebalance(t); r.Done? && Avl(r.value) && t.height - 1 <= Height(r.value) <= t.height
    ensures -1 <= BalanceFactor(t) <= 1 ==> Rebalance(t).value == t
  {
    SettledHeights(t.left);
    SettledHeights(t.right);
    if BalanceFactor(t) == 2 {
      if BalanceFactor(t.left) >= 0 { RotateRightAvl(t); } else { LeftRightAvl(t); }
    } else if BalanceFactor(t) == -2 {
      if BalanceFactor(t.right) <= 0 { RotateLeftAvl(t); } else { RightLeftAvl(t); }
    }
  }

  lemma RemoveStepAvl(t: Tree, l: Tree, r: Tree)
    requires t.Node? && Avl(t)
    requires (r == t.right && Shrunk(t.left, l, false)) || (l == t.left && Shrunk(t.right, r, false))
    ensures var u := Rebalance(Fix(t.(left := l, right := r))); u.Done? && Shrunk(t, u.value, false)
  {
    SettledHeights(t.left);
    SettledHeights(t.right);
    RebalanceAvl(Fix(t.(left := l, right := r)));
  }

  /** No rotation above repairs a forgotten height: it only ever touches the other side. */
  lemma RemoveStepStaleLeft(t: Tree, l: Tree)
    requires t.Node? && Avl(t) && Shrunk(t.left, l, true)
    ensures var u := Rebalance(Fix(t.(left := l))); u.Done? && Shrunk(t, u.value, true)
  {
    SettledHeights(t.right);
    var v := Fix(t.(left := l));
    if BalanceFactor(v) < -1 && BalanceFactor(t.right) > 0 {
      SettledHeights(t.right.left);
      SettledHeights(t.right.right);
      assert RightLeft(v).value.left.left == l;
    } else if BalanceFactor(v) < -1 {
      assert LeftRotate(v).value.left.left == l;
    }
  }

  lemma RemoveStepStaleRight(t: Tree, r: Tree)
    requires t.Node? && Avl(t) && Shrunk(t.right, r, true)
    ensures var u := Rebalance(Fix(t.(right := r))); u.Done? && Shrunk(t, u.value, true)
  {
    SettledHeights(t.left);
    var v := Fix(t.(right := r));
    if BalanceFactor(v) > 1 && BalanceFactor(t.left) < 0 {
      SettledHeights(t.left.left);
      SettledHeights(t.left.right);
      assert LeftRight(v).value.right.right == r;
    } else if BalanceFactor(v) > 1 {
      assert RightRotate(v).value.right.right == r;
    }
  }

  lemma {:induction false} ShedAvl(t: Tree)
    requires t.Node? && Avl(t)
    ensures Avl(Shed(t)) && Height(Shed(t)) == Height(t)
  {
    if t.left.Node? {
      ShedAvl(t.left);
    }
  }

  /**
   A removal that does not panic leaves a balanced tree exactly when it does not promote a chain member over
   subtrees while forgetting the height (lines 217-223).
   */
  lemma {:induction false} RemoveAvl(e: Edits, t: Tree, fee: uint64, txid: bytes, lo: int, hi: int)
    requires Avl(t) && Within(t, lo, hi) && Remove(e, t, fee, txid).Done?
    ensures Shrunk(t, Remove(e, t, fee, txid).value, Stale(e, t, fee, txid))
    decreases Nodes(t)
  {
    if t.Leaf? {
    } else if fee < t.key {
      RemoveAvl(e, t.left, fee, txid, lo, t.key);
      var l := Remove(e, t.left, fee, txid).value;
      if Stale(e, t, fee, txid) { RemoveStepStaleLeft(t, l); } else { RemoveStepAvl(t, l, t.right); }
    } else if e.descend && fee > t.key {
      RemoveAvl(e, t.right, fee, txid, t.key, hi);
      var r := Remove(e, t.right, fee, txid).value;
      if Stale(e, t, fee, txid) { RemoveStepStaleRight(t, r); } else { RemoveStepAvl(t, t.left, r); }
    } else if !Matches(t.head, fee, txid) || |t.same| > 0 {
    } else if t.left.Leaf? || t.right.Leaf? {
      RemoveLastAvl(t);
    } else {
      ShedListing(t.right, t.key, hi);
      ShedAvl(t.right);
      StopAtSmallest(e, t.right, t.key, hi);
      var x := Smallest(t.right).head;
      ShedStop(e, t.right, x, t.key, hi);
      RemoveAvl(e, Shed(t.right), x.fee, x.txid, t.key, hi);
      var r := Remove(e, Shed(t.right), x.fee, x.txid).value;
      RemoveSuccessorAvl(e, t, r);
    }
  }

  lemma RemoveLastAvl(t: Tree)
    requires t.Node? && Avl(t) && (t.left.Leaf? || t.right.Leaf?)
    ensures var child := if t.left.Leaf? then t.right else t.left;
            && Shrunk(t, child, false)
            && (child.Node? ==> Fix(child) == child && Rebalance(child) == Done(child))
  {
    SettledHeights(t.left);
    SettledHeights(t.right);
  }

  lemma RemoveSuccessorAvl(e: Edits, t: Tree, r: Tree)
    requires t.Node? && Avl(t) && t.right.Node? && Shrunk(t.right, r, false)
    ensures var u := Rebalance(Fix(TakeOver(e, t, r))); u.Done? && Shrunk(t, u.value, false)
  {
    var s := Smallest(t.right);
    var t' := TakeOver(e, t, t.right);
    RemoveStepAvl(t', t.left, r);
  }

  lemma {:induction false} ShedStop(e: Edits, t: Tree, x: Entry, lo: int, hi: int)
    requires t.Node? && Within(t, lo, hi) && x == Smallest(t).head
    ensures Stop(e, Shed(t), x.fee).Node? && Stop(e, Shed(t), x.fee).same == []
  {
    SmallestBounds(t, lo, hi);
    if t.left.Node? {
      SmallestBounds(t.left, lo, t.key);
      ShedStop(e, t.left, x, lo, t.key);
    }
  }

  predicate OnLeftSpine(t: Tree, fee: uint64) {
    t.Node? && (fee == t.key || (fee < t.key && OnLeftSpine(t.left, fee)))
  }

  /**
   A record that is in the tree is removed when the descent goes right as commented; as written, exactly when its
   fee is on the left spine, and otherwise the removal panics.
   */
  lemma RemovePresent(e: Edits, t: Tree, fee: uint64, txid: bytes)
    requires Ordered(t) && Find(Listing(t), fee, txid) < |Listing(t)|
    ensures Remove(e, t, fee, txid).Done? <==> e.descend || OnLeftSpine(t, fee)
  {
    RemoveListing(e, t, fee, txid, -1, TWO_64);
    StopHolds(e, t, fee, txid, -1, TWO_64);
  }

  lemma {:induction false} StopHolds(e: Edits, t: Tree, fee: uint64, txid: bytes, lo: int, hi: int)
    requires Within(t, lo, hi) && Find(Listing(t), fee, txid) < |Listing(t)|
    ensures var s := Stop(e, t, fee);
            s.Node? && (Find(Chain(s), fee, txid) < |Chain(s)| <==> e.descend || OnLeftSpine(t, fee))
  {
    var c := Chain(t) + Listing(t.left);
    FindConcat(Listing(t.right), c, fee, txid);
    FindConcat(Chain(t), Listing(t.left), fee, txid);
    ListingBounds(t.left, lo, t.key);
    ListingBounds(t.right, t.key, hi);
    hide Find;
    if fee < t.key {
      FindAbsent(Listing(t.right), fee, txid);
      FindAbsent(Chain(t), fee, txid);
      StopHolds(e, t.left, fee, txid, lo, t.key);
    } else if fee > t.key {
      FindAbsent(Chain(t), fee, txid);
      FindAbsent(Listing(t.left), fee, txid);
      if e.descend {
        StopHolds(e, t.right, fee, txid, t.key, hi);
      }
    } else {
      FindAbsent(Listing(t.right), fee, txid);
      FindAbsent(Listing(t.left), fee, txid);
    }
  }

  /** Insert a fee and a higher one, then remove the higher, as written: the descent misses it and panics. */
  lemma DescendCounterexample(a: Entry, b: Entry)
    requires a.fee < b.fee
    ensures var t := Insert(AS_WRITTEN, Single(a), b); t.Done? && Remove(AS_WRITTEN, t.value, b.fee, b.txid).Panic?
  {
    assert Insert(AS_WRITTEN, Leaf, b) == Done(Single(b));
    assert Insert(AS_WRITTEN, Single(a), b) == Done(Node(a.fee, a, [], Leaf, Single(b), 2));
  }

  /** Insert a fee, a lower one and the first fee again, then remove the first: the promoted node forgets its height. */
  lemma StaleCounterexample(a: Entry, b: Entry, c: Entry)
    requires a.fee < b.fee == c.fee
    ensures var t1 := Insert(AS_WRITTEN, Single(b), a);
            t1.Done? &&
            var t2 := Insert(AS_WRITTEN, t1.value, c);
            t2.Done? && Avl(t2.value) &&
            var r := Remove(AS_WRITTEN, t2.value, b.fee, b.txid);
            r.Done? && !Avl(r.value)
  {
    var t1 := Node(b.fee, b, [], Single(a), Leaf, 2);
    assert Insert(AS_WRITTEN, Leaf, a) == Done(Single(a)) && Insert(AS_WRITTEN, Single(b), a) == Done(t1);
    assert [] + [c] == [c];
    assert Insert(AS_WRITTEN, t1, c) == Done(Node(b.fee, b, [c], Single(a), Leaf, 2));
    assert [c][1..] == [];
    var t2 := Node(b.fee, b, [c], Single(a), Leaf, 2);
    assert Remove(AS_WRITTEN, t2, b.fee, b.txid) == Done(Node(b.fee, c, [], Single(a), Leaf, 1));
  }

  // ---- size

  function Fib(n: nat): nat {
    if n < 2 then n else Fib(n - 2) + Fib(n - 1)
  }

  lemma {:induction false} FibMonotone(m: nat, n: nat)
    requires m <= n
    ensures Fib(m) <= Fib(n)
    decreases n - m
  {
    if m < n {
      FibMonotone(m + 1, n);
      assert Fib(m) <= Fib(m + 1);
    }
  }

  /** A balanced tree of depth h holds at least fib(h+2)-1 nodes: depth is logarithmic in their number. */
  lemma {:induction false} DepthBound(t: Tree)
    requires Avl(t)
    ensures Nodes(t) + 1 >= Fib(Depth(t) + 2)
  {
    if t.Node? {
      AvlDepth(t);
      AvlDepth(t.left);
      AvlDepth(t.right);
      DepthBound(t.left);
      DepthBound(t.right);
      var h := Depth(t);
      FibMonotone(h, Depth(t.left) + 2);
      FibMonotone(h, Depth(t.right) + 2);
    }
  }

  /** The distinct fees of the tree. */
  function Keys(t: Tree): set<uint64> {
    if t.Leaf? then {} else Keys(t.left) + {t.key} + Keys(t.right)
  }

  lemma {:induction false} KeysCount(t: Tree, lo: int, hi: int)
    requires Within(t, lo, hi)
    ensures |Keys(t)| == Nodes(t) && forall k :: k in Keys(t) ==> lo < k < hi
  {
    if t.Node? {
      KeysCount(t.left, lo, t.key);
      KeysCount(t.right, t.key, hi);
      assert Keys(t.left) !! {t.key} && Keys(t.left) + {t.key} !! Keys(t.right);
    }
  }

  /** How deep insertAtNode and removeAtNode call themselves, the call on nil included. */
  function InsertCalls(t: Tree, fee: uint64): (n: nat)
    ensures n <= Depth(t) + 1
  {
    if t.Leaf? || fee == t.key then 1 else 1 + InsertCalls(if fee < t.key then t.left else t.right, fee)
  }

  lemma {:induction false} ShedDepth(t: Tree)
    requires t.Node?
    ensures Depth(Shed(t)) == Depth(t)
  {
    if t.left.Node? {
      ShedDepth(t.left);
    }
  }

  function RemoveCalls(e: Edits, t: Tree, fee: uint64, txid: bytes): (n: nat)
    ensures n <= Depth(t) + 1
    decreases Nodes(t)
  {
    match t
    case Leaf => 1
    case Node(key, head, same, left, right, _) =>
      if fee < key then 1 + RemoveCalls(e, left, fee, txid)
      else if e.descend && fee > key then 1 + RemoveCalls(e, right, fee, txid)
      else if !Matches(head, fee, txid) || |same| > 0 || left.Leaf? || right.Leaf? then 1
      else
        ShedDepth(right);
        var x := Smallest(right).head;
        1 + RemoveCalls(e, Shed(right), x.fee, x.txid)
  }

  /** In a balanced tree the recursion of both is logarithmic in the number of distinct fees. */
  lemma RecursionBound(e: Edits, t: Tree, fee: uint64, txid: bytes)
    requires Avl(t) && Ordered(t)
    ensures Fib(InsertCalls(t, fee) + 1) <= |Keys(t)| + 1
    ensures Fib(RemoveCalls(e, t, fee, txid) + 1) <= |Keys(t)| + 1
  {
    hide Fib, InsertCalls, RemoveCalls;
    DepthBound(t);
    KeysCount(t, -1, TWO_64);
    FibMonotone(InsertCalls(t, fee) + 1, Depth(t) + 2);
    FibMonotone(RemoveCalls(e, t, fee, txid) + 1, Depth(t) + 2);
  }
}
