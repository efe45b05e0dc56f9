/** core/mempool.go: the shapes that rotations and rebalancing make, subtree by subtree. */
module FeeTreeShapes {
  import opened Bytes
  import opened FeeTree

  /** A node without its subtrees and height. */
  datatype Site = Site(key: uint64, head: Entry, same: seq<Entry>)

  /** A node over these subtrees, with the height they give it. */
  function Over(s: Site, l: Tree, r: Tree): (t: Tree)
    ensures t.Node?
  {
    Node(s.key, s.head, s.same, l, r, 1 + if Height(l) > Height(r) then Height(l) else Height(r))
  }

  lemma OverParts(s: Site, l: Tree, r: Tree)
    ensures var t := Over(s, l, r);
            t.Node? && t.left == l && t.right == r && t.key == s.key && BalanceFactor(t) == Height(l) - Height(r)
  {
  }

  lemma SingleShapes(a: Site, b: Site, p: Tree, q: Tree, w: Tree)
    ensures RightRotate(Over(a, Over(b, p, q), w)) == Done(Over(b, p, Over(a, q, w)))
    ensures LeftRotate(Over(a, p, Over(b, q, w))) == Done(Over(b, Over(a, p, q), w))
  {
  }

  lemma LeftRightShape(a: Site, b: Site, c: Site, p: Tree, q: Tree, v: Tree, w: Tree)
    ensures LeftRight(Over(a, Over(b, p, Over(c, q, v)), w)) == Done(Over(c, Over(b, p, q), Over(a, v, w)))
  {
    SingleShapes(b, c, p, q, v);
    var l := Over(c, Over(b, p, q), v);
    var t := Over(a, Over(b, p, Over(c, q, v)), w);
    OverParts(a, Over(b, p, Over(c, q, v)), w);
    assert RightRotate(t.(left := l)) == Done(Over(c, Over(b, p, q), Over(a, v, w)));
    hide LeftRotate, RightRotate;
  }

  lemma RightLeftShape(a: Site, b: Site, c: Site, p: Tree, q: Tree, v: Tree, w: Tree)
    ensures RightLeft(Over(a, p, Over(b, Over(c, q, v), w))) == Done(Over(c, Over(a, p, q), Over(b, v, w)))
  {
    SingleShapes(b, c, q, v, w);
    var r := Over(c, q, Over(b, v, w));
    var t := Over(a, p, Over(b, Over(c, q, v), w));
    OverParts(a, p, Over(b, Over(c, q, v), w));
    assert LeftRotate(t.(right := r)) == Done(Over(c, Over(a, p, q), Over(b, v, w)));
    hide LeftRotate, RightRotate;
  }

  /** Lines 268-292, heavy on the left: which subtree goes where.  Subtrees p to w stand in the order of their fees. */
  lemma RebalanceShapeLeft(a: Site, b: Site, c: Site, p: Tree, q: Tree, v: Tree, w: Tree)
    ensures var l := Over(b, p, q);
            Height(l) - Height(w) > 1 && Height(p) >= Height(q) ==>
              Rebalance(Over(a, l, w)) == Done(Over(b, p, Over(a, q, w)))
    ensures var l := Over(b, p, Over(c, q, v));
            Height(l) - Height(w) > 1 && Height(p) < Height(Over(c, q, v)) ==>
              Rebalance(Over(a, l, w)) == Done(Over(c, Over(b, p, q), Over(a, v, w)))
  {
    OverParts(b, p, q);
    OverParts(a, Over(b, p, q), w);
    OverParts(b, p, Over(c, q, v));
    OverParts(a, Over(b, p, Over(c, q, v)), w);
    SingleShapes(a, b, p, q, w);
    LeftRightShape(a, b, c, p, q, v, w);
    hide Over, BalanceFactor, RightRotate, LeftRotate, LeftRight, RightLeft, Height;
  }

  /** The same, heavy on the right or not at all. */
  lemma RebalanceShapeRight(a: Site, b: Site, c: Site, p: Tree, q: Tree, v: Tree, w: Tree)
    ensures var r := Over(b, v, w);
            Height(p) - Height(r) < -1 && Height(v) <= Height(w) ==>
              Rebalance(Over(a, p, r)) == Done(Over(b, Over(a, p, v), w))
    ensures var r := Over(b, Over(c, q, v), w);
            Height(p) - Height(r) < -1 && Height(Over(c, q, v)) > Height(w) ==>
              Rebalance(Over(a, p, r)) == Done(Over(c, Over(a, p, q), Over(b, v, w)))
    ensures -1 <= Height(p) - Height(w) <= 1 ==> Rebalance(Over(a, p, w)) == Done(Over(a, p, w))
  {
    OverParts(b, v, w);
    OverParts(a, p, Over(b, v, w));
    OverParts(b, Over(c, q, v), w);
    OverParts(a, p, Over(b, Over(c, q, v), w));
    OverParts(a, p, w);
    SingleShapes(a, b, p, v, w);
    RightLeftShape(a, b, c, p, q, v, w);
    hide Over, BalanceFactor, RightRotate, LeftRotate, LeftRight, RightLeft, Height;
  }

  /** Lines 134-156: for insertions the new fee chooses. */
  lemma AfterInsertShapeLeft(e: Edits, fee: uint64, a: Site, b: Site, c: Site, p: Tree, q: Tree, v: Tree, w: Tree)
    ensures var l := Over(b, p, q);
            Height(l) - Height(w) > 1 && fee < b.key ==>
              AfterInsert(e, Over(a, l, w), fee) == Done(Over(b, p, Over(a, q, w)))
    ensures var l := Over(b, p, Over(c, q, v));
            Height(l) - Height(w) > 1 && fee >= b.key ==>
              AfterInsert(e, Over(a, l, w), fee) == Done(Over(c, Over(b, p, q), Over(a, v, w)))
  {
    OverParts(b, p, q);
    OverParts(a, Over(b, p, q), w);
    OverParts(b, p, Over(c, q, v));
    OverParts(a, Over(b, p, Over(c, q, v)), w);
    SingleShapes(a, b, p, q, w);
    LeftRightShape(a, b, c, p, q, v, w);
    hide Over, BalanceFactor, RightRotate, LeftRotate, LeftRight, RightLeft, Height;
  }

  /** On the right the bodies are exchanged as written. */
  lemma AfterInsertShapeRight(e: Edits, fee: uint64, a: Site, b: Site, c: Site, p: Tree, q: Tree, v: Tree, w: Tree)
    ensures var r := Over(b, v, w);
            Height(p) - Height(r) < -1 && (if e.rotate then fee > b.key else fee <= b.key) ==>
              AfterInsert(e, Over(a, p, r), fee) == Done(Over(b, Over(a, p, v), w))
    ensures var r := Over(b, Over(c, q, v), w);
            Height(p) - Height(r) < -1 && (if e.rotate then fee <= b.key else fee > b.key) ==>
              AfterInsert(e, Over(a, p, r), fee) == Done(Over(c, Over(a, p, q), Over(b, v, w)))
    ensures -1 <= Height(p) - Height(w) <= 1 ==> AfterInsert(e, Over(a, p, w), fee) == Done(Over(a, p, w))
  {
    OverParts(b, v, w);
    OverParts(a, p, Over(b, v, w));
    OverParts(b, Over(c, q, v), w);
    OverParts(a, p, Over(b, Over(c, q, v), w));
    OverParts(a, p, w);
    SingleShapes(a, b, p, v, w);
    RightLeftShape(a, b, c, p, q, v, w);
    hide Over, BalanceFactor, RightRotate, LeftRotate, LeftRight, RightLeft, Height;
  }
}
