/**
 core/mempool.go, lines 103-157, as written: exactly which insertions into a balanced tree spoil its balance, and
 which dereference nil, read off the tree before the call.
 */
module FeeTreeAsWritten {
  import opened Bytes
  import opened FeeTree
  import opened FeeTreeOrder
  import opened FeeTreeBalance

  /** The subtree in which the search for the fee goes on. */
  function Toward(t: Tree, fee: uint64): (c: Tree)
    requires t.Node?
    ensures c == t.left || c == t.right
  {
    if fee < t.key then t.left else t.right
  }

  /** The search ends without meeting the fee. */
  predicate Absent(t: Tree, fee: uint64) {
    t.Node? ==> fee != t.key && Absent(Toward(t, fee), fee)
  }

  /** The lowest node on the path that is not even, if there is one. */
  function Pivot(t: Tree, fee: uint64): (v: Tree)
    ensures v.Node? ==> BalanceFactor(v) != 0
  {
    if t.Leaf? then Leaf
    else
      var v := Pivot(Toward(t, fee), fee);
      if v.Node? || BalanceFactor(t) == 0 then v else t
  }

  /** The node above the pivot, if there is one. */
  function Above(t: Tree, fee: uint64): Tree {
    if t.Leaf? || Pivot(Toward(t, fee), fee).Leaf? then Leaf
    else
      var p := Above(Toward(t, fee), fee);
      if p.Node? then p else t
  }

  /** The pivot is right-heavy and the fee goes to its right: the branch of lines 144-152 is taken there. */
  predicate HeavyPivot(t: Tree, fee: uint64) {
    var v := Pivot(t, fee);
    Absent(t, fee) && v.Node? && BalanceFactor(v) == -1 && fee > v.key
  }

  /** The fee goes to the left of the pivot's right child, so that the wrong body is a single rotation. */
  predicate SingleTurn(t: Tree, fee: uint64) {
    var v := Pivot(t, fee);
    v.Node? && v.right.Node? && fee < v.right.key
  }

  /** The single rotation is undone by the next one: the pivot is the left child of a left-heavy node. */
  predicate Mended(t: Tree, fee: uint64) {
    var p := Above(t, fee);
    SingleTurn(t, fee) && p.Node? && fee < p.key && BalanceFactor(p) == 1
  }

  /** The insertion as written loses the balance. */
  predicate Spoils(t: Tree, fee: uint64) {
    HeavyPivot(t, fee) && !Mended(t, fee)
  }

  /** The insertion as written dereferences nil. */
  predicate Crashes(t: Tree, fee: uint64) {
    var v := Pivot(t, fee);
    HeavyPivot(t, fee) && v.right.Node? && fee > v.right.key && v.left.Leaf?
  }

  // ---- what a spoiled subtree looks like on the way up

  /** Only the root is out of balance, to the left, where the fee is. */
  predicate TopHeavy(u: Tree, fee: uint64, k: int) {
    u.Node? && u == Fix(u) && Avl(u.left) && Avl(u.right) && fee < u.key && BalanceFactor(u) == k
  }

  /** The fee is on the left, and so is something out of balance. */
  predicate LeftBroken(u: Tree, fee: uint64) {
    u.Node? && fee < u.key && !Avl(u.left)
  }

  /** The fee is on the right, and so is something out of balance that no double rotation above can mend. */
  predicate RightBroken(u: Tree, fee: uint64) {
    && u.Node? && fee > u.key && !Avl(u.right) && u.right == Fix(u.right)
    && u.left.Node? && u.left == Fix(u.left) && Height(u.left) <= Height(u) - 2 && Height(u.right) == Height(u) - 1
    && (!Avl(u.right.left) || !Avl(u.right.right)
        || Height(u.left) - Height(u.right.left) >= 2 || Height(u.right.right) <= Height(u) - 4)
  }

  /** Out of balance, as high as before or one higher in one of the three ways. */
  predicate Spoiled(h: int, u: Tree, fee: uint64) {
    && u.Node? && u == Fix(u) && !Avl(u) && Height(u) >= 3
    && (Height(u) == h || (Height(u) == h + 1 && Rising(u, fee)))
  }

  predicate Rising(u: Tree, fee: uint64) {
    (BalanceFactor(u) > 2 && TopHeavy(u, fee, BalanceFactor(u))) || LeftBroken(u, fee) || RightBroken(u, fee)
  }

  predicate Broken(t: Tree, u: Tree, fee: uint64) {
    if SingleTurn(t, fee) && Above(t, fee).Leaf? then
      TopHeavy(u, fee, 2) && Height(u) == Height(t) + 1 && Height(u) >= 3
    else Spoiled(Height(t), u, fee)
  }

  lemma AvlParts(t: Tree)
    requires t.Node? && Avl(t)
    ensures t == Fix(t) && -1 <= BalanceFactor(t) <= 1 && Avl(t.left) && Avl(t.right)
  {
  }

  lemma AvlFixed(t: Tree)
    requires t.Node?
    ensures Avl(Fix(t)) <==> -1 <= BalanceFactor(t) <= 1 && Avl(t.left) && Avl(t.right)
  {
  }

  /** The pivot itself: the wrong body is carried out, or panics. */
  lemma AtPivot(e: Edits, t: Tree, r: Tree, fee: uint64, lo: int, hi: int)
    requires !e.rotate && t.Node? && Avl(t) && Within(t, lo, hi) && HeavyPivot(t, fee) && fee > t.key
    requires Pivot(t.right, fee).Leaf? && Grew(t.right, r, fee) && Height(r) == Height(t.right) + 1
    requires Within(r, t.key, hi)
    ensures var u := AfterInsert(e, Fix(t.(right := r)), fee);
            && (u.Panic? <==> Crashes(t, fee))
            && (u.Done? ==> Broken(t, u.value, fee))
  {
    assert Pivot(t, fee) == t && Above(t, fee) == Leaf;
    SettledHeights(t.left);
    SettledHeights(t.right);
    if fee < r.key {
      SingleAtPivot(t, r, fee);
    } else {
      DoubleAtPivot(t, r, fee, hi);
    }
    hide Spoiled, TopHeavy, LeftRotate, RightLeft;
  }

  lemma SingleAtPivot(t: Tree, r: Tree, fee: uint64)
    requires t.Node? && Avl(t) && BalanceFactor(t) == -1
    requires Grew(t.right, r, fee) && Height(r) == Height(t.right) + 1 && fee < r.key
    ensures var u := LeftRotate(Fix(t.(right := r)));
            u.Done? && TopHeavy(u.value, fee, 2) && Height(u.value) == Height(t) + 1 >= 3
  {
    hide Avl, TopHeavy, LeftRotate;
    AvlParts(t);
    AvlParts(r);
    SettledHeights(t.left);
    SettledHeights(r.right);
    WrongSingleTopHeavy(t, r, fee, Height(t.left));
  }

  lemma WrongSingleTopHeavy(t: Tree, r: Tree, fee: uint64, a: nat)
    requires t.Node? && r.Node? && fee < r.key && Avl(t.left) && Avl(r.left) && Avl(r.right)
    requires Height(t.left) == a && Height(r.left) == a + 1 && Height(r.right) == a
    ensures var u := LeftRotate(Fix(t.(right := r))); u.Done? && TopHeavy(u.value, fee, 2) && Height(u.value) == a + 3
  {
    AvlFixed(t.(right := r.left));
    hide Avl;
  }

  lemma DoubleAtPivot(t: Tree, r: Tree, fee: uint64, hi: int)
    requires t.Node? && Avl(t) && BalanceFactor(t) == -1 && Within(r, t.key, hi)
    requires Grew(t.right, r, fee) && Height(r) == Height(t.right) + 1 && fee > r.key
    ensures var u := RightLeft(Fix(t.(right := r)));
            (u.Panic? <==> t.left.Leaf?) && (u.Done? ==> Spoiled(Height(t), u.value, fee))
  {
    SettledHeights(t.left);
    SettledHeights(r.left);
    if r.left.Node? {
      SettledHeights(r.left.left);
      SettledHeights(r.left.right);
    }
  }

  predicate Balanced(t: Tree, h: int) {
    t.Node? && Avl(t) && Height(t) == h
  }

  lemma AboveTopHeavyLeft(e: Edits, t: Tree, l: Tree, fee: uint64, k: int)
    requires !e.rotate && t.Node? && Avl(t) && fee < t.key
    requires k >= 2 && TopHeavy(l, fee, k) && Height(l) == Height(t.left) + 1 >= 3
    ensures var u := AfterInsert(e, Fix(t.(left := l)), fee);
            u.Done? && if k == 2 && BalanceFactor(t) == 1 then Balanced(u.value, Height(t))
                       else Spoiled(Height(t), u.value, fee)
  {
    hide Avl, Spoiled, Balanced, RightRotate;
    AvlParts(t);
    SettledHeights(t.right);
    if BalanceFactor(t) == 1 {
      MendTopHeavy(t, l, fee, k);
    } else {
      KeepTopHeavyLeft(t, l, fee, k);
    }
  }

  lemma KeepTopHeavyLeft(t: Tree, l: Tree, fee: uint64, k: int)
    requires t.Node? && Avl(t) && fee < t.key && BalanceFactor(t) != 1
    requires k >= 2 && TopHeavy(l, fee, k) && Height(l) == Height(t.left) + 1 >= 3
    ensures Spoiled(Height(t), Fix(t.(left := l)), fee)
  {
    AvlFixed(l);
    AvlFixed(t.(left := l));
  }

  /** The next single rotation mends an excess of two, and no other. */
  lemma MendTopHeavy(t: Tree, l: Tree, fee: uint64, k: int)
    requires t.Node? && Avl(t) && fee < t.key && BalanceFactor(t) == 1
    requires k >= 2 && TopHeavy(l, fee, k) && Height(l) == Height(t.left) + 1 >= 3
    ensures var u := RightRotate(Fix(t.(left := l)));
            u.Done? && if k == 2 then Balanced(u.value, Height(t)) else Spoiled(Height(t), u.value, fee)
  {
    SettledHeights(t.right);
    SettledHeights(l.right);
    AvlParts(t);
    hide Avl;
    var q := Fix(t.(left := l.right));
    var u := Fix(l.(right := q));
    assert RightRotate(Fix(t.(left := l))) == Done(u);
    AvlFixed(t.(left := l.right));
    AvlFixed(l.(right := q));
  }

  lemma AboveTopHeavyRight(e: Edits, t: Tree, r: Tree, fee: uint64, k: int)
    requires !e.rotate && t.Node? && Avl(t) && fee > t.key
    requires k >= 2 && TopHeavy(r, fee, k) && Height(r) == Height(t.right) + 1 >= 3
    ensures var u := AfterInsert(e, Fix(t.(right := r)), fee); u.Done? && Spoiled(Height(t), u.value, fee)
  {
    hide Avl, Spoiled, LeftRotate;
    AvlParts(t);
    SettledHeights(t.left);
    if BalanceFactor(t) == -1 {
      RaiseTopHeavy(t, r, fee, k);
      TopHeavySpoiled(Height(t), LeftRotate(Fix(t.(right := r))).value, fee, k + 1);
    } else {
      KeepTopHeavyRight(t, r, fee, k);
    }
  }

  /** The wrong single rotation one level up makes the excess worse. */
  lemma RaiseTopHeavy(t: Tree, r: Tree, fee: uint64, k: int)
    requires t.Node? && Avl(t) && BalanceFactor(t) == -1
    requires k >= 2 && TopHeavy(r, fee, k) && Height(r) == Height(t.right) + 1
    ensures var u := LeftRotate(Fix(t.(right := r)));
            u.Done? && TopHeavy(u.value, fee, k + 1) && Height(u.value) == Height(t) + 1
  {
    AvlParts(t);
    hide Avl;
    AvlFixed(t.(right := r.left));
  }

  lemma TopHeavySpoiled(h: int, u: Tree, fee: uint64, k: int)
    requires k > 2 && TopHeavy(u, fee, k) && Height(u) == h + 1 >= 3
    ensures Spoiled(h, u, fee)
  {
    AvlFixed(u);
    hide Avl, LeftBroken, RightBroken;
  }

  lemma KeepTopHeavyRight(t: Tree, r: Tree, fee: uint64, k: int)
    requires t.Node? && Avl(t) && fee > t.key && BalanceFactor(t) != -1
    requires k >= 2 && TopHeavy(r, fee, k) && Height(r) == Height(t.right) + 1 >= 3
    ensures Spoiled(Height(t), Fix(t.(right := r)), fee)
  {
    SettledHeights(t.left);
    AvlFixed(r);
    AvlFixed(t.(right := r));
  }

  lemma AboveSpoiledLeft(e: Edits, t: Tree, l: Tree, fee: uint64)
    requires !e.rotate && t.Node? && Avl(t) && fee < t.key && Spoiled(Height(t.left), l, fee)
    ensures var u := AfterInsert(e, Fix(t.(left := l)), fee); u.Done? && Spoiled(Height(t), u.value, fee)
  {
    SettledHeights(t.right);
    if Height(l) == Height(t.left) {
    } else if LeftBroken(l, fee) {
      AboveLeftBrokenLeft(e, t, l, fee);
    } else if RightBroken(l, fee) {
      AboveRightBrokenLeft(e, t, l, fee);
    } else {
      AboveTopHeavyLeft(e, t, l, fee, BalanceFactor(l));
    }
  }

  lemma AboveLeftBrokenLeft(e: Edits, t: Tree, l: Tree, fee: uint64)
    requires !e.rotate && t.Node? && Avl(t) && fee < t.key
    requires LeftBroken(l, fee) && l == Fix(l) && Height(l) == Height(t.left) + 1 >= 3
    ensures var u := AfterInsert(e, Fix(t.(left := l)), fee); u.Done? && Spoiled(Height(t), u.value, fee)
  {
    SettledHeights(t.right);
  }

  lemma AboveRightBrokenLeft(e: Edits, t: Tree, l: Tree, fee: uint64)
    requires !e.rotate && t.Node? && Avl(t) && fee < t.key
    requires RightBroken(l, fee) && l == Fix(l) && Height(l) == Height(t.left) + 1 >= 3
    ensures var u := AfterInsert(e, Fix(t.(left := l)), fee); u.Done? && Spoiled(Height(t), u.value, fee)
  {
    SettledHeights(t.right);
  }

  lemma AboveSpoiledRight(e: Edits, t: Tree, r: Tree, fee: uint64, hi: int)
    requires !e.rotate && t.Node? && Avl(t) && fee > t.key && Spoiled(Height(t.right), r, fee) && Within(r, t.key, hi)
    ensures var u := AfterInsert(e, Fix(t.(right := r)), fee); u.Done? && Spoiled(Height(t), u.value, fee)
  {
    SettledHeights(t.left);
    if Height(r) == Height(t.right) {
    } else if LeftBroken(r, fee) {
      AboveLeftBrokenRight(e, t, r, fee);
    } else if RightBroken(r, fee) {
      AboveRightBrokenRight(e, t, r, fee, hi);
    } else {
      AboveTopHeavyRight(e, t, r, fee, BalanceFactor(r));
    }
  }

  lemma AboveLeftBrokenRight(e: Edits, t: Tree, r: Tree, fee: uint64)
    requires !e.rotate && t.Node? && Avl(t) && fee > t.key
    requires LeftBroken(r, fee) && r == Fix(r) && Height(r) == Height(t.right) + 1 >= 3
    ensures var u := AfterInsert(e, Fix(t.(right := r)), fee); u.Done? && Spoiled(Height(t), u.value, fee)
  {
    SettledHeights(t.left);
  }

  lemma AboveRightBrokenRight(e: Edits, t: Tree, r: Tree, fee: uint64, hi: int)
    requires !e.rotate && t.Node? && Avl(t) && fee > t.key && Within(r, t.key, hi)
    requires RightBroken(r, fee) && r == Fix(r) && Height(r) == Height(t.right) + 1 >= 3
    ensures var u := AfterInsert(e, Fix(t.(right := r)), fee); u.Done? && Spoiled(Height(t), u.value, fee)
  {
    SettledHeights(t.left);
  }

  /** A spoiled left subtree stays spoiled one level up, unless it is mended there. */
  lemma BrokenLeft(e: Edits, t: Tree, l: Tree, fee: uint64)
    requires !e.rotate && t.Node? && Avl(t) && fee < t.key && HeavyPivot(t.left, fee) && Broken(t.left, l, fee)
    ensures var u := AfterInsert(e, Fix(t.(left := l)), fee);
            u.Done? && if Above(t.left, fee).Leaf? && Mended(t, fee) then Balanced(u.value, Height(t))
                       else Broken(t, u.value, fee)
  {
    hide AfterInsert, Spoiled, TopHeavy, Avl;
    if SingleTurn(t.left, fee) && Above(t.left, fee).Leaf? {
      AboveTopHeavyLeft(e, t, l, fee, 2);
    } else {
      AboveSpoiledLeft(e, t, l, fee);
    }
  }

  lemma BrokenRight(e: Edits, t: Tree, r: Tree, fee: uint64, hi: int)
    requires !e.rotate && t.Node? && Avl(t) && fee > t.key && HeavyPivot(t.right, fee) && Broken(t.right, r, fee)
    requires Within(r, t.key, hi)
    ensures var u := AfterInsert(e, Fix(t.(right := r)), fee); u.Done? && Broken(t, u.value, fee)
  {
    hide AfterInsert, Spoiled, TopHeavy, Avl;
    if SingleTurn(t.right, fee) && Above(t.right, fee).Leaf? {
      AboveTopHeavyRight(e, t, r, fee, 2);
    } else {
      AboveSpoiledRight(e, t, r, fee, hi);
    }
  }

  /** The insertion as written, in full: it panics, or it leaves a spoiled tree, or a balanced one. */
  predicate Ends(e: Edits, t: Tree, x: Entry) {
    var r, fee := Insert(e, t, x), x.fee;
    && (r.Panic? <==> Crashes(t, fee))
    && (Crashes(t, fee) ==> Spoils(t, fee))
    && (r.Done? && Spoils(t, fee) ==> Broken(t, r.value, fee))
    && (r.Done? && !Spoils(t, fee) ==>
          Grew(t, r.value, fee) && (Height(r.value) == Height(t) + 1 <==> Absent(t, fee) && Pivot(t, fee).Leaf?))
  }

  lemma {:induction false} InsertOutcome(e: Edits, t: Tree, x: Entry, lo: int, hi: int)
    requires !e.rotate && Avl(t) && Within(t, lo, hi) && lo < x.fee < hi
    ensures Ends(e, t, x)
  {
    if t.Node? && x.fee < t.key {
      InsertOutcome(e, t.left, x, lo, t.key);
      InsertListing(e, t.left, x, lo, t.key);
      OutcomeLeft(e, t, x, lo, hi);
    } else if t.Node? && x.fee > t.key {
      InsertOutcome(e, t.right, x, t.key, hi);
      InsertListing(e, t.right, x, t.key, hi);
      OutcomeRight(e, t, x, lo, hi);
    }
  }

  /** A balanced step passes growth on exactly when the node was even. */
  lemma GrowsWhenEven(e: Edits, t: Tree, l: Tree, r: Tree, fee: uint64)
    requires t.Node? && Avl(t) && fee != t.key && (e.rotate || Height(l) - Height(r) != -2)
    requires if fee < t.key then r == t.right && Grew(t.left, l, fee) else l == t.left && Grew(t.right, r, fee)
    ensures var u := AfterInsert(e, Fix(t.(left := l, right := r)), fee);
            var c, d := Toward(t, fee), if fee < t.key then l else r;
            u.Done? && (Height(u.value) == Height(t) + 1 <==> Height(d) == Height(c) + 1 && BalanceFactor(t) == 0)
  {
    SettledHeights(t.left);
    SettledHeights(t.right);
    AfterInsertAvl(e, Fix(t.(left := l, right := r)), fee);
  }

  lemma OutcomeLeft(e: Edits, t: Tree, x: Entry, lo: int, hi: int)
    requires !e.rotate && t.Node? && Avl(t) && Within(t, lo, hi) && x.fee < t.key && Ends(e, t.left, x)
    requires Insert(e, t.left, x).Done? ==> Within(Insert(e, t.left, x).value, lo, t.key)
    ensures Ends(e, t, x)
  {
    hide Within, Broken, AfterInsert;
    var fee := x.fee;
    if Insert(e, t.left, x).Done? {
      var l := Insert(e, t.left, x).value;
      if Spoils(t.left, fee) {
        BrokenLeft(e, t, l, fee);
      } else {
        SettledHeights(t.left);
        SettledHeights(t.right);
        InsertStepAvl(e, t, l, t.right, fee);
        GrowsWhenEven(e, t, l, t.right, fee);
      }
    }
  }

  lemma OutcomeRight(e: Edits, t: Tree, x: Entry, lo: int, hi: int)
    requires !e.rotate && t.Node? && Avl(t) && Within(t, lo, hi) && x.fee > t.key && Ends(e, t.right, x)
    requires Insert(e, t.right, x).Done? ==> Within(Insert(e, t.right, x).value, t.key, hi)
    ensures Ends(e, t, x)
  {
    hide Within, Broken, AfterInsert;
    var fee := x.fee;
    if Insert(e, t.right, x).Done? {
      var r := Insert(e, t.right, x).value;
      SettledHeights(t.left);
      SettledHeights(t.right);
      if Spoils(t.right, fee) {
        BrokenRight(e, t, r, fee, hi);
      } else if Height(r) == Height(t.right) + 1 && BalanceFactor(t) == -1 {
        AtPivot(e, t, r, fee, lo, hi);
      } else {
        InsertStepAvl(e, t, t.left, r, fee);
        GrowsWhenEven(e, t, t.left, r, fee);
      }
    }
  }

  /**
   On a balanced tree the insertion as written panics if and only if the lowest uneven node on the path is
   right-heavy, has no left child, and the fee goes to the right of its right child.
   */
  lemma PanicsExactly(e: Edits, t: Tree, x: Entry)
    requires Avl(t) && Ordered(t)
    ensures Insert(e, t, x).Panic? <==> !e.rotate && Crashes(t, x.fee)
  {
    if e.rotate {
      InsertAvl(e, t, x);
    } else {
      InsertOutcome(e, t, x, -1, TWO_64);
    }
  }

  /**
   It leaves a balanced tree if and only if the lowest uneven node on the path is not right-heavy on the side of the
   fee, or it is, the fee goes to the left of its right child, and it is the left child of a left-heavy node.
   */
  lemma BalancedExactly(e: Edits, t: Tree, x: Entry)
    requires Avl(t) && Ordered(t)
    ensures Insert(e, t, x).Done? && Avl(Insert(e, t, x).value) <==> e.rotate || !Spoils(t, x.fee)
  {
    if e.rotate {
      InsertAvl(e, t, x);
    } else {
      InsertOutcome(e, t, x, -1, TWO_64);
    }
  }
}
