/**
 core/mempool.go: the fee tree in the heap.  Nodes are linked by left, right and same and rewritten in place; each
 method is proved to compute what FeeTree says on values.
 */
module MemTrees {
  import opened Bytes
  import opened Transactions
  import opened FeeTree
  import opened FeeTreeOrder
  import opened FeeTreeBalance
  import opened FeeTreeAsWritten
  import opened FeeTreeRecords

  datatype TxRecord = TxRecord(fee: uint64, txid: bytes)

  class MemTreeNode {
    var key: uint64
    var txRec: TxRecord
    var tx: Tx
    var left: MemTreeNode?
    var right: MemTreeNode?
    var same: MemTreeNode?
    var height: int

    ghost var Tail: seq<MemTreeNode>   // the later members of the chain that starts here
    ghost var Same: seq<Entry>         // what they hold
    ghost var Repr: set<MemTreeNode>   // every node of this subtree, chains included
    ghost var Model: Tree              // the subtree as a value

    constructor (tx: Tx)
      ensures Valid() && Repr == {this} && Model == Single(EntryFor(tx))
      ensures this.tx == tx && key == txRec.fee == Fees(tx) && txRec.txid == tx.txid
      ensures left == right == same == null && height == 1
    {
      key, txRec, this.tx := Fees(tx), TxRecord(Fees(tx), tx.txid), tx;
      left, right, same, height := null, null, null, 1;
      Tail, Same, Repr, Model := [], [], {this}, Single(EntryFor(tx));
    }

    function EntryOf(): Entry
      reads this`txRec, this`tx
    {
      Entry(txRec.fee, txRec.txid, tx)
    }

    /** What this node needs of its chain and its children, inside a footprint. */
    ghost predicate Sound(repr: set<MemTreeNode>)
      reads this, Tail, left, right, ReprOf(left), ReprOf(right)
      decreases repr, 0
    {
      && this in repr
      && this !in Tail && (forall n :: n in Tail ==> n in repr)
      && Chained(this, Tail, Same)
      && (left != null ==> left in repr && left.Repr <= repr - {this} && Apart(Tail, left.Repr) && left.Valid())
      && (right != null ==> right in repr && right.Repr <= repr - {this} && Apart(Tail, right.Repr) && right.Valid())
      && (left != null && right != null ==> left.Repr !! right.Repr)
    }

    ghost predicate Valid()
      reads this, Repr
      ensures Valid() ==> this in Repr && Model.Node? && Model.height == height && Model.key == key
      decreases Repr, 1
    {
      && this in Repr
      && (forall n :: n in Tail ==> n in Repr)
      && (left != null ==> left in Repr && left.Repr <= Repr)
      && (right != null ==> right in Repr && right.Repr <= Repr)
      && Sound(Repr)
      && Model == Node(key, EntryOf(), Same, ModelOf(left), ModelOf(right), height)
    }

    /** Ghost upkeep after an assignment to a field of this node. */
    ghost method Refresh(repr: set<MemTreeNode>)
      requires Sound(repr)
      modifies this`Repr, this`Model
      ensures Valid() && Repr == repr
      ensures Model == Node(key, EntryOf(), Same, ModelOf(left), ModelOf(right), height)
    {
      Repr, Model := repr, Node(key, EntryOf(), Same, ModelOf(left), ModelOf(right), height);
    }
  }

  /**
   The chain is linked through `same` and ends in nil; its later members are as createMemTreeNode left them, under
   the key of the chain, and hold these entries.
   */
  ghost predicate Chained(head: MemTreeNode, tail: seq<MemTreeNode>, entries: seq<Entry>)
    reads head`same, head`key, tail`same, tail`key, tail`height, tail`txRec, tail`tx
  {
    && head.same == (if |tail| == 0 then null else tail[0])
    && (forall i {:trigger tail[i].same} :: 0 <= i < |tail| ==> tail[i].same == Next(tail, i))
    && Distinct(tail)
    && Members(head.key, tail, entries)
  }

  ghost predicate Members(key: uint64, tail: seq<MemTreeNode>, entries: seq<Entry>)
    reads tail`key, tail`height, tail`txRec, tail`tx
  {
    && |entries| == |tail|
    && forall i :: 0 <= i < |tail| ==> tail[i].key == key && tail[i].height == 1 && tail[i].EntryOf() == entries[i]
  }

  ghost function Next(tail: seq<MemTreeNode>, i: nat): MemTreeNode? {
    if i + 1 < |tail| then tail[i + 1] else null
  }

  ghost predicate Apart(tail: seq<MemTreeNode>, s: set<MemTreeNode>) {
    forall n :: n in tail ==> n !in s
  }

  ghost function ModelOf(n: MemTreeNode?): Tree
    reads n
  {
    if n == null then Leaf else n.Model
  }

  ghost function ReprOf(n: MemTreeNode?): set<MemTreeNode>
    reads n
  {
    if n == null then {} else n.Repr
  }

  function NodeHeight(n: MemTreeNode?): int
    reads n
  {
    if n == null then 0 else n.height
  }

  function NodeBalanceFactor(n: MemTreeNode?): int
    reads n, if n == null then {} else {n.left, n.right}
  {
    if n == null then 0 else NodeHeight(n.left) - NodeHeight(n.right)
  }

  lemma Parts(n: MemTreeNode)
    requires n.Valid()
    ensures n.Sound(n.Repr)
    ensures n.Model == Node(n.key, n.EntryOf(), n.Same, ModelOf(n.left), ModelOf(n.right), n.height)
  {
  }

  /** Lines 71-82; the result is null where the source dereferences nil. */
  method RightRotate(node: MemTreeNode) returns (x: MemTreeNode?)
    requires node.Valid()
    modifies node.Repr
    ensures x == null <==> FeeTree.RightRotate(old(node.Model)).Panic?
    ensures x != null ==> x.Valid() && x.Repr == old(node.Repr) && Done(x.Model) == FeeTree.RightRotate(old(node.Model))
  {
    hide Chained, Fix, MemTreeNode.Valid;
    Parts(node);
    x := node.left;
    if x == null {
      return;
    }
    Parts(x);
    var x_r := x.right;
    ghost var below, m, mx := x.Repr, node.Model, x.Model;
    assert m.left == mx && mx.right == ModelOf(x_r) && m.right == ModelOf(node.right) && mx.left == ModelOf(x.left);

    x.right := node;
    node.left := x_r;

    SetHeight(node, node.Repr - below + ReprOf(x_r));
    assert node.Model == Fix(m.(left := mx.right));
    SetHeight(x, old(node.Repr));
    assert x.Model == Fix(mx.(right := node.Model));
  }

  /** Lines 84-95. */
  method LeftRotate(node: MemTreeNode) returns (y: MemTreeNode?)
    requires node.Valid()
    modifies node.Repr
    ensures y == null <==> FeeTree.LeftRotate(old(node.Model)).Panic?
    ensures y != null ==> y.Valid() && y.Repr == old(node.Repr) && Done(y.Model) == FeeTree.LeftRotate(old(node.Model))
  {
    hide Chained, Fix, MemTreeNode.Valid;
    Parts(node);
    y := node.right;
    if y == null {
      return;
    }
    Parts(y);
    var y_l := y.left;
    ghost var below, m, my := y.Repr, node.Model, y.Model;
    assert m.right == my && my.left == ModelOf(y_l) && m.left == ModelOf(node.left) && my.right == ModelOf(y.right);

    y.left := node;
    node.right := y_l;

    SetHeight(node, node.Repr - below + ReprOf(y_l));
    assert node.Model == Fix(m.(right := my.left));
    SetHeight(y, old(node.Repr));
    assert y.Model == Fix(my.(left := node.Model));
  }

  /** `node.left = leftRotate(node.left)`, then a right rotation: lines 140-141 and 277-278. */
  method LeftRight(node: MemTreeNode) returns (x: MemTreeNode?)
    requires node.Valid() && node.left != null
    modifies node.Repr
    ensures x == null <==> FeeTree.LeftRight(old(node.Model)).Panic?
    ensures x != null ==> x.Valid() && x.Repr == old(node.Repr) && Done(x.Model) == FeeTree.LeftRight(old(node.Model))
  {
    hide Chained, MemTreeNode.Valid;
    Parts(node);
    ghost var m := node.Model;
    x := LeftRotate(node.left);
    if x != null {
      node.left := x;
      node.Refresh(node.Repr);
      assert node.Model == m.(left := x.Model);
      x := RightRotate(node);
    }
  }

  /** `node.right = rightRotate(node.right)`, then a left rotation: lines 146-147 and 286-287. */
  method RightLeft(node: MemTreeNode) returns (y: MemTreeNode?)
    requires node.Valid() && node.right != null
    modifies node.Repr
    ensures y == null <==> FeeTree.RightLeft(old(node.Model)).Panic?
    ensures y != null ==> y.Valid() && y.Repr == old(node.Repr) && Done(y.Model) == FeeTree.RightLeft(old(node.Model))
  {
    hide Chained, MemTreeNode.Valid;
    Parts(node);
    ghost var m := node.Model;
    y := RightRotate(node.right);
    if y != null {
      node.right := y;
      node.Refresh(node.Repr);
      assert node.Model == m.(right := y.Model);
      y := LeftRotate(node);
    }
  }

  /** The height assignment. */
  method SetHeight(node: MemTreeNode, ghost repr: set<MemTreeNode>)
    requires node.Sound(repr)
    modifies node
    ensures node.Valid() && node.Repr == repr && node.key == old(node.key)
    ensures node.Model == Fix(Node(node.key, old(node.EntryOf()), old(node.Same), old(ModelOf(node.left)),
                                   old(ModelOf(node.right)), old(node.height)))
  {
    hide Chained;
    node.height := 1 + Max(NodeHeight(node.left), NodeHeight(node.right));
    node.Refresh(repr);
  }

  /** Lines 130-156. */
  method AfterInsert(e: Edits, node: MemTreeNode, fee: uint64) returns (r: MemTreeNode?)
    requires node.Valid()
    modifies node.Repr
    ensures r == null <==> FeeTree.AfterInsert(e, old(node.Model), fee).Panic?
    ensures r != null ==>
              r.Valid() && r.Repr == old(node.Repr) && Done(r.Model) == FeeTree.AfterInsert(e, old(node.Model), fee)
  {
    hide Chained;
    var balance := NodeBalanceFactor(node);
    if balance > 1 {
      if node.left == null {
        return null;
      } else if fee < node.left.key {
        r := RightRotate(node);
      } else {
        r := LeftRight(node);
      }
    } else if balance < -1 {
      if node.right == null {
        return null;
      } else if (fee > node.right.key) == e.rotate {
        r := LeftRotate(node);
      } else {
        r := RightLeft(node);
      }
    } else {
      r := node;
    }
  }

  /** The walk of lines 112-115 to the end of the chain. */
  method LastOfChain(node: MemTreeNode) returns (tmp: MemTreeNode)
    requires node.Valid()
    ensures tmp == if |node.Tail| == 0 then node else node.Tail[|node.Tail| - 1]
  {
    tmp := node;
    ghost var i, tail := 0, node.Tail;
    while tmp.same != null
      invariant 0 <= i <= |tail| && tmp == if i == 0 then node else tail[i - 1]
      invariant Chained(node, tail, node.Same)
      decreases |tail| - i
    {
      assert i > 0 ==> tail[i - 1].same == Next(tail, i - 1);
      tmp := tmp.same;
      i := i + 1;
    }
    assert i > 0 ==> tail[i - 1].same == Next(tail, i - 1);
  }

  /** Lines 112-117. */
  method AppendToChain(node: MemTreeNode, newNode: MemTreeNode)
    requires node.Valid() && newNode !in node.Repr
    requires newNode.same == null && newNode.key == node.key && newNode.height == 1
    modifies node.Repr
    ensures node.Valid() && node.Repr == old(node.Repr) + {newNode}
    ensures node.Model == old(node.Model).(same := old(node.Model).same + [newNode.EntryOf()])
  {
    hide Chained, MemTreeNode.Valid;
    Parts(node);
    var tmp := LastOfChain(node);
    LinkLast(node, tmp, newNode, node.Tail, node.Same);
    node.Tail, node.Same := node.Tail + [newNode], node.Same + [newNode.EntryOf()];
    node.Refresh(node.Repr + {newNode});
  }

  /** `tmp.same = newNode`, at the end of a chain. */
  method LinkLast(node: MemTreeNode, tmp: MemTreeNode, newNode: MemTreeNode, ghost tail: seq<MemTreeNode>,
                  ghost same: seq<Entry>)
    requires Chained(node, tail, same) && node !in tail && newNode !in tail && newNode != node
    requires tmp == if |tail| == 0 then node else tail[|tail| - 1]
    requires newNode.same == null && newNode.key == node.key && newNode.height == 1
    modifies tmp`same
    ensures Chained(node, tail + [newNode], same + [newNode.EntryOf()])
  {
    assert forall j :: 0 <= j < |tail| - 1 ==> tail[j] != tmp;
    tmp.same := newNode;
    ghost var longer := tail + [newNode];
    forall j | 0 <= j < |longer| ensures longer[j].same == Next(longer, j) {
      if j + 1 < |tail| {
        assert tail[j].same == Next(tail, j);
      }
    }
  }

  /** `node.left = insertAtNode(node.left, newNode)` and the height assignment; false where the source panics. */
  method InsertLeft(e: Edits, node: MemTreeNode, newNode: MemTreeNode) returns (ok: bool)
    requires node.Valid() && newNode !in node.Repr
    requires newNode.Valid() && newNode.Repr == {newNode} && newNode.Model == Single(newNode.EntryOf())
    modifies node.Repr, newNode
    ensures ok <==> Insert(e, old(node.Model).left, old(newNode.EntryOf())).Done?
    ensures ok ==> node.Valid() && node.Repr == old(node.Repr) + {newNode} && node.key == old(node.key)
    ensures ok ==>
              var m := old(node.Model); node.Model == Fix(m.(left := Insert(e, m.left, old(newNode.EntryOf())).value))
    decreases node.Repr, 0
  {
    hide Chained, Insert, Fix, MemTreeNode.Valid;
    Parts(node);
    Parts(newNode);
    ghost var m := node.Model;
    assert m.left == ModelOf(node.left) && m.right == ModelOf(node.right);
    var l := InsertAtNode(e, node.left, newNode);
    ok := l != null;
    if ok {
      node.left := l;
      assert Chained(node, node.Tail, node.Same) && Apart(node.Tail, l.Repr) && node !in l.Repr;
      SetHeight(node, node.Repr + {newNode});
      assert node.Model == Fix(m.(left := l.Model));
    }
  }

  method InsertRight(e: Edits, node: MemTreeNode, newNode: MemTreeNode) returns (ok: bool)
    requires node.Valid() && newNode !in node.Repr
    requires newNode.Valid() && newNode.Repr == {newNode} && newNode.Model == Single(newNode.EntryOf())
    modifies node.Repr, newNode
    ensures ok <==> Insert(e, old(node.Model).right, old(newNode.EntryOf())).Done?
    ensures ok ==> node.Valid() && node.Repr == old(node.Repr) + {newNode} && node.key == old(node.key)
    ensures ok ==>
              var m := old(node.Model); node.Model == Fix(m.(right := Insert(e, m.right, old(newNode.EntryOf())).value))
    decreases node.Repr, 0
  {
    hide Chained, Insert, Fix, MemTreeNode.Valid;
    Parts(node);
    Parts(newNode);
    ghost var m := node.Model;
    assert m.left == ModelOf(node.left) && m.right == ModelOf(node.right);
    var r := InsertAtNode(e, node.right, newNode);
    ok := r != null;
    if ok {
      node.right := r;
      assert Chained(node, node.Tail, node.Same) && Apart(node.Tail, r.Repr) && node !in r.Repr;
      SetHeight(node, node.Repr + {newNode});
      assert node.Model == Fix(m.(right := r.Model));
    }
  }

  /** Lines 103-157; null where the source panics. */
  method InsertAtNode(e: Edits, node: MemTreeNode?, newNode: MemTreeNode) returns (r: MemTreeNode?)
    requires node != null ==> node.Valid() && newNode !in node.Repr
    requires newNode.Valid() && newNode.Repr == {newNode} && newNode.Model == Single(newNode.EntryOf())
    modifies ReprOf(node), newNode
    ensures r == null <==> Insert(e, old(ModelOf(node)), old(newNode.EntryOf())).Panic?
    ensures r != null ==> r.Valid() && r.Repr == old(ReprOf(node)) + {newNode}
    ensures r != null ==> Done(r.Model) == Insert(e, old(ModelOf(node)), old(newNode.EntryOf()))
    decreases ReprOf(node), 1
  {
    assert newNode.same == null && newNode.height == 1;
    hide Chained;
    if node == null {
      return newNode;
    }
    var key := newNode.key;
    if key == node.key {
      AppendToChain(node, newNode);
      return node;
    }
    var ok;
    if key < node.key {
      ok := InsertLeft(e, node, newNode);
    } else {
      ok := InsertRight(e, node, newNode);
    }
    if !ok {
      return null;
    }
    r := AfterInsert(e, node, key);
  }

  // ---- removal

  lemma BalanceOf(n: MemTreeNode?)
    requires n != null ==> n.Valid()
    ensures NodeBalanceFactor(n) == BalanceFactor(ModelOf(n))
  {
    if n != null {
      assert n.left != null ==> n.left.Valid();
      assert n.right != null ==> n.right.Valid();
    }
  }

  /** Lines 268-292. */
  method Rebalance(node: MemTreeNode) returns (r: MemTreeNode?)
    requires node.Valid()
    modifies node.Repr
    ensures r == null <==> FeeTree.Rebalance(old(node.Model)).Panic?
    ensures r != null ==> r.Valid() && r.Repr == old(node.Repr) && Done(r.Model) == FeeTree.Rebalance(old(node.Model))
  {
    hide Chained;
    BalanceOf(node.left);
    BalanceOf(node.right);
    var balance := NodeBalanceFactor(node);
    if balance > 1 {
      if NodeBalanceFactor(node.left) >= 0 {
        r := RightRotate(node);
      } else if node.left == null {
        r := null;
      } else {
        r := LeftRight(node);
      }
    } else if balance < -1 {
      if NodeBalanceFactor(node.right) <= 0 {
        r := LeftRotate(node);
      } else if node.right == null {
        r := null;
      } else {
        r := RightLeft(node);
      }
    } else {
      r := node;
    }
  }

  /** Lines 196-213: find the record behind the head of the chain and unlink it; false is ErrTxRecNotFound. */
  method RemoveFromChain(node: MemTreeNode, rec: TxRecord) returns (found: bool)
    requires node.Valid()
    modifies node.Repr
    ensures found <==> Find(old(node.Model).same, rec.fee, rec.txid) < |old(node.Model).same|
    ensures found ==> node.Valid() && node.Repr == old(node.Repr)
    ensures found ==> node.Model == old(node.Model).(same := Delete(old(node.Model).same, rec.fee, rec.txid))
  {
    if node.same == null {
      return false;
    }
    var tmp := node;
    ghost var i, tail, same := 0, node.Tail, node.Same;
    while true
      invariant 0 <= i < |tail| && tmp == (if i == 0 then node else tail[i - 1]) && tmp.same == tail[i]
      invariant Chained(node, tail, same) && node.Valid() && tail == node.Tail
                  && same == node.Same == old(node.Model).same
      invariant forall j :: 0 <= j < i ==> !Matches(same[j], rec.fee, rec.txid)
      decreases |tail| - i
    {
      assert tail[i].EntryOf() == same[i] && tail[i].same == Next(tail, i);
      if tmp.same.txRec == rec {
        Unlink(node, tmp, i);
        return true;
      }
      tmp := tmp.same;
      i := i + 1;
      if tmp.same == null {
        break;
      }
    }
    found := false;
  }

  /** `tmp.same = tmp.same.same`, where the member after tmp is number i of the tail. */
  method SkipNext(node: MemTreeNode, tmp: MemTreeNode, ghost tail: seq<MemTreeNode>, ghost same: seq<Entry>,
                  ghost i: nat)
    requires Chained(node, tail, same) && i < |tail| && node !in tail
    requires tmp == (if i == 0 then node else tail[i - 1]) && tmp.same == tail[i]
    modifies tmp`same
    ensures Chained(node, Cut(tail, i), Cut(same, i))
  {
    assert tail[i].same == Next(tail, i);
    assert forall j :: 0 <= j < |tail| && j != i - 1 ==> tail[j] != tmp;
    tmp.same := tmp.same.same;
    CutMembers(node.key, tail, same, i);
    hide Members, Distinct;
    ghost var cut := Cut(tail, i);
    forall j | 0 <= j < |cut| ensures cut[j].same == Next(cut, j) {
      if j >= i {
        assert tail[j + 1].same == Next(tail, j + 1);
      } else if j + 1 < i {
        assert tail[j].same == Next(tail, j);
      }
    }
  }

  lemma CutMembers(key: uint64, tail: seq<MemTreeNode>, same: seq<Entry>, i: nat)
    requires Distinct(tail) && Members(key, tail, same) && i < |tail|
    ensures Distinct(Cut(tail, i)) && Members(key, Cut(tail, i), Cut(same, i))
  {
  }

  method Unlink(node: MemTreeNode, tmp: MemTreeNode, ghost i: nat)
    requires node.Valid() && i < |node.Tail| == |node.Same|
    requires tmp == (if i == 0 then node else node.Tail[i - 1]) && tmp.same == node.Tail[i]
    modifies node.Repr
    ensures node.Valid() && node.Repr == old(node.Repr)
    ensures node.Model == old(node.Model).(same := Cut(old(node.Same), i))
  {
    hide Chained, MemTreeNode.Valid;
    Parts(node);
    SkipNext(node, tmp, node.Tail, node.Same, i);
    node.Tail, node.Same := Cut(node.Tail, i), Cut(node.Same, i);
    node.Refresh(node.Repr);
  }

  /** Lines 217-223: the next in the chain takes the place of the head. */
  method Promote(e: Edits, node: MemTreeNode) returns (tmp: MemTreeNode)
    requires node.Valid() && node.same != null
    modifies node.Repr
    ensures tmp.Valid() && tmp.Repr <= old(node.Repr)
    ensures var m := old(node.Model);
            && |m.same| > 0
            && tmp.Model == m.(head := m.same[0], same := m.same[1..], height := if e.height then m.height else 1)
  {
    hide Chained, MemTreeNode.Valid;
    Parts(node);
    tmp := node.same;
    ghost var m, tail, same := node.Model, node.Tail, node.Same;
    NextInChain(node, tail, same);
    tmp.left := node.left;
    tmp.right := node.right;
    if e.height {
      tmp.height := node.height;
    }
    tmp.Tail, tmp.Same := tail[1..], same[1..];
    tmp.Refresh(node.Repr - {node});
  }

  lemma NextInChain(node: MemTreeNode, tail: seq<MemTreeNode>, same: seq<Entry>)
    requires Chained(node, tail, same) && node.same != null
    ensures |tail| == |same| > 0 && node.same == tail[0] && tail[0] !in tail[1..]
              && Chained(tail[0], tail[1..], same[1..])
    ensures tail[0].EntryOf() == same[0] && tail[0].key == node.key && tail[0].height == 1
  {
    var rest := tail[1..];
    assert tail[0].same == Next(tail, 0);
    forall j | 0 <= j < |rest| ensures rest[j].same == Next(rest, j) {
      assert tail[j + 1].same == Next(tail, j + 1);
    }
  }

  /** A chain hangs as well under another head with the same first link and key. */
  lemma ChainUnder(head: MemTreeNode, other: MemTreeNode, tail: seq<MemTreeNode>, entries: seq<Entry>)
    requires Chained(head, tail, entries) && other.same == head.same && other.key == head.key
    ensures Chained(other, tail, entries)
  {
  }

  /** Line 242, `*node = *tmp`, for the only child of node. */
  method CopyChild(node: MemTreeNode, tmp: MemTreeNode, ghost repr: set<MemTreeNode>)
    requires node !in tmp.Repr && tmp.Valid() && repr == tmp.Repr - {tmp} + {node}
    modifies node
    ensures node.Sound(repr)
    ensures Node(node.key, node.EntryOf(), node.Same, ModelOf(node.left), ModelOf(node.right), node.height)
         == old(tmp.Model)
  {
    hide Chained, MemTreeNode.Valid;
    Parts(tmp);
    node.key, node.txRec, node.tx, node.height := tmp.key, tmp.txRec, tmp.tx, tmp.height;
    node.left, node.right, node.same := tmp.left, tmp.right, tmp.same;
    node.Tail, node.Same := tmp.Tail, tmp.Same;
    assert Chained(tmp, tmp.Tail, tmp.Same);
    ChainUnder(tmp, node, node.Tail, node.Same);
  }

  ghost function SmallestOf(n: MemTreeNode): (s: MemTreeNode)
    requires n.Valid()
    reads n, n.Repr
    ensures s in n.Repr && s.Valid() && s.Repr <= n.Repr && s.Model == Smallest(n.Model)
    decreases n.Repr
  {
    assert n.Sound(n.Repr);
    if n.left == null then n else SmallestOf(n.left)
  }

  /** Lines 159-167. */
  method GetSmallestNode(subRoot: MemTreeNode?) returns (s: MemTreeNode?)
    requires subRoot != null ==> subRoot.Valid()
    ensures s == null <==> subRoot == null
    ensures s != null ==> s == SmallestOf(subRoot) && Chained(s, s.Tail, s.Same) && s !in s.Tail
    ensures s != null ==>
              var m := Smallest(subRoot.Model); s.EntryOf() == m.head && s.Same == m.same && s.key == m.key
  {
    if subRoot == null {
      return null;
    }
    var n: MemTreeNode := subRoot;
    while n.left != null
      invariant n.Valid() && SmallestOf(n) == SmallestOf(subRoot)
      decreases n.Repr
    {
      n := n.left;
    }
    assert n.Sound(n.Repr);
    s := n;
  }

  /**
   Line 254, `tmp.same = nil`.  The source writes the field through its pointer; here the method descends to the
   same node so that the ghost fields of the nodes above it follow.
   */
  method DetachChain(n: MemTreeNode, ghost tail: seq<MemTreeNode>)
    requires n.Valid() && tail == SmallestOf(n).Tail
    modifies n.Repr - Owned(tail)
    ensures n.Valid() && n.Repr == old(n.Repr) - Owned(tail) && n.Model == Shed(old(n.Model))
    decreases n.Repr
  {
    ghost var m := n.Model;
    if n.left == null {
      n.same := null;
      n.Tail, n.Same := [], [];
    } else {
      assert m.left == ModelOf(n.left);
      DetachChain(n.left, tail);
    }
    n.Refresh(n.Repr - Owned(tail));
  }

  ghost function Owned(tail: seq<MemTreeNode>): set<MemTreeNode> {
    set n | n in tail
  }

  /** `node.left = removeAtNode(node.left, txrec)` and the height assignment. */
  method RemoveLeft(e: Edits, node: MemTreeNode, rec: TxRecord) returns (ok: bool)
    requires node.Valid()
    modifies node.Repr
    ensures ok <==> Remove(e, old(node.Model).left, rec.fee, rec.txid).Done?
    ensures ok ==> node.Valid() && node.Repr == old(node.Repr)
    ensures ok ==>
              node.Model == Fix(old(node.Model).(left := Remove(e, old(node.Model).left, rec.fee, rec.txid).value))
    decreases Nodes(node.Model), 0
  {
    hide Chained, Remove, Fix, MemTreeNode.Valid;
    Parts(node);
    ghost var m := node.Model;
    assert m.left == ModelOf(node.left) && m.right == ModelOf(node.right);
    var l := RemoveAtNode(e, node.left, rec);
    ok := l.Done?;
    if ok {
      node.left := l.value;
      SetHeight(node, node.Repr);
      assert node.Model == Fix(m.(left := ModelOf(l.value)));
    }
  }

  method RemoveRight(e: Edits, node: MemTreeNode, rec: TxRecord) returns (ok: bool)
    requires node.Valid()
    modifies node.Repr
    ensures ok <==> Remove(e, old(node.Model).right, rec.fee, rec.txid).Done?
    ensures ok ==> node.Valid() && node.Repr == old(node.Repr)
    ensures ok ==>
              node.Model == Fix(old(node.Model).(right := Remove(e, old(node.Model).right, rec.fee, rec.txid).value))
    decreases Nodes(node.Model), 0
  {
    hide Chained, Remove, Fix, MemTreeNode.Valid;
    Parts(node);
    ghost var m := node.Model;
    assert m.left == ModelOf(node.left) && m.right == ModelOf(node.right);
    var r := RemoveAtNode(e, node.right, rec);
    ok := r.Done?;
    if ok {
      node.right := r.value;
      SetHeight(node, node.Repr);
      assert node.Model == Fix(m.(right := ModelOf(r.value)));
    }
  }

  /** Lines 249-251, and the fourth edit. */
  method CopySuccessor(e: Edits, node: MemTreeNode, tmp: MemTreeNode)
    requires node != tmp && node !in tmp.Tail && Chained(tmp, tmp.Tail, tmp.Same)
    modifies node
    ensures Chained(node, tmp.Tail, tmp.Same) && node.Tail == tmp.Tail && node.Same == tmp.Same
    ensures node.key == tmp.key
              && node.EntryOf() == (if e.tx then tmp.EntryOf() else tmp.EntryOf().(tx := old(node.tx)))
    ensures node.left == old(node.left) && node.right == old(node.right) && node.height == old(node.height)
    ensures node.Repr == old(node.Repr)
  {
    hide Chained;
    node.key := tmp.key;
    node.txRec := tmp.txRec;
    node.same := tmp.same;
    if e.tx {
      node.tx := tmp.tx;
    }
    node.Tail, node.Same := tmp.Tail, tmp.Same;
    ChainUnder(tmp, node, node.Tail, node.Same);
  }

  /** Lines 246-254: take over key, record and chain of the smallest node on the right, and cut its chain off. */
  method TakeSuccessor(e: Edits, node: MemTreeNode) returns (rec: TxRecord)
    requires node.Valid() && node.right != null && node.Model.right.Node?
    modifies node.Repr
    ensures node.Valid() && node.Repr == old(node.Repr)
    ensures node.Model == TakeOver(e, old(node.Model), Shed(old(node.Model).right))
    ensures var x := Smallest(old(node.Model).right).head; rec == TxRecord(x.fee, x.txid)
  {
    hide Chained, Smallest, Shed, MemTreeNode.Valid;
    Parts(node);
    ghost var m := node.Model;
    var right := node.right;
    assert right.Valid() && m.right == right.Model && m.left == ModelOf(node.left) && m.head == node.EntryOf();
    var tmp := GetSmallestNode(node.right);
    Parts(tmp);
    ghost var tail := tmp.Tail;
    rec := tmp.txRec;
    CopySuccessor(e, node, tmp);
    assert right.Valid() && tail == SmallestOf(right).Tail;
    DetachChain(right, tail);
    assert Chained(node, tail, node.Same);
    node.Refresh(node.Repr);
  }

  lemma NilFields(node: MemTreeNode)
    requires node.Valid()
    ensures node.same == null <==> node.Model.same == []
    ensures (node.left == null <==> node.Model.left.Leaf?) && (node.right == null <==> node.Model.right.Leaf?)
  {
    assert node.Sound(node.Repr);
  }

  /** Lines 226-266, for a record that is alone under its fee; null where there is no node left. */
  method RemoveHead(e: Edits, node: MemTreeNode) returns (r: Outcome<MemTreeNode?>)
    requires node.Valid() && node.same == null
    modifies node.Repr
    ensures r.Done? && r.value != null ==> r.value.Valid() && r.value.Repr <= old(node.Repr)
    ensures var m := old(node.Model);
            if m.left.Leaf? || m.right.Leaf? then
              var child := if m.left.Leaf? then m.right else m.left;
              r.Done? && ModelOf(r.value) == if child.Leaf? then Leaf else Fix(child)
            else
              var x := Smallest(m.right).head;
              var rest := Remove(e, Shed(m.right), x.fee, x.txid);
              (r.Done? <==> rest.Done?) && (r.Done? ==> ModelOf(r.value) == Fix(TakeOver(e, m, rest.value)))
    decreases Nodes(node.Model), 1
  {
    hide Chained;
    NilFields(node);
    ghost var m := node.Model;
    if node.left == null || node.right == null {
      var tmp := if node.left == null then node.right else node.left;
      if tmp == null {
        return Done(null);
      }
      ghost var repr := tmp.Repr - {tmp} + {node};
      CopyChild(node, tmp, repr);
      SetHeight(node, repr);
      return Done(node);
    }
    assert m.right.Node?;
    var succ := TakeSuccessor(e, node);
    var ok := RemoveRight(e, node, succ);
    if !ok {
      return Panic;
    }
    assert node.Model == Fix(TakeOver(e, m, Remove(e, Shed(m.right), succ.fee, succ.txid).value));
    return Done(node);
  }

  /** Lines 173-293; Panic is ErrTxRecNotFound or a nil dereference. */
  method RemoveAtNode(e: Edits, node: MemTreeNode?, rec: TxRecord) returns (r: Outcome<MemTreeNode?>)
    requires node != null ==> node.Valid()
    modifies ReprOf(node)
    ensures r.Panic? <==> Remove(e, old(ModelOf(node)), rec.fee, rec.txid).Panic?
    ensures r.Done? && r.value != null ==> r.value.Valid() && r.value.Repr <= old(ReprOf(node))
    ensures r.Done? ==> Done(ModelOf(r.value)) == Remove(e, old(ModelOf(node)), rec.fee, rec.txid)
    decreases Nodes(ModelOf(node)), 2
  {
    hide Chained;
    if node == null {
      return Done(null);
    }
    NilFields(node);
    if rec.fee < node.key {
      var ok := RemoveLeft(e, node, rec);
      r := if ok then Done(node) else Panic;
    } else if e.descend && rec.fee > node.key {
      var ok := RemoveRight(e, node, rec);
      r := if ok then Done(node) else Panic;
    } else if rec != node.txRec {
      var ok := RemoveFromChain(node, rec);
      return if ok then Done(node) else Panic;
    } else if node.same != null {
      var promoted := Promote(e, node);
      return Done(promoted);
    } else {
      r := RemoveHead(e, node);
    }
    if r.Panic? || r.value == null {
      return;
    }
    var balanced := Rebalance(r.value);
    r := if balanced == null then Panic else Done(balanced);
  }

  // ---- reading the best

  function TxsOf(s: seq<Entry>): (r: seq<Tx>)
    ensures |r| == |s| && forall i :: 0 <= i < |s| ==> r[i] == s[i].tx
  {
    if |s| == 0 then [] else [s[0].tx] + TxsOf(s[1..])
  }

  /** The listing without the later members of every chain. */
  function Heads(t: Tree): seq<Entry> {
    if t.Leaf? then [] else Heads(t.right) + ([t.head] + Heads(t.left))
  }

  /** What a request for k transactions gets: the first k, or every head of a chain when k is negative. */
  function Emission(t: Tree, k: int): (r: seq<Entry>)
    ensures k >= 0 ==> |r| == if k < |Listing(t)| then k else |Listing(t)|
  {
    if k < 0 then Heads(t) else if k < |Listing(t)| then Listing(t)[..k] else Listing(t)
  }

  /** x is the first of its fee in s. */
  predicate IsFirst(s: seq<Entry>, x: Entry) {
    exists n :: 0 <= n < |s| && s[n] == x && forall j :: 0 <= j < n ==> s[j].fee != x.fee
  }

  lemma IsFirstAfter(a: seq<Entry>, b: seq<Entry>, x: Entry)
    requires IsFirst(b, x) && forall j :: 0 <= j < |a| ==> a[j].fee != x.fee
    ensures IsFirst(a + b, x)
  {
    var n :| 0 <= n < |b| && b[n] == x && forall j :: 0 <= j < n ==> b[j].fee != x.fee;
    assert (a + b)[|a| + n] == x;
  }

  lemma IsFirstBefore(a: seq<Entry>, b: seq<Entry>, x: Entry)
    requires IsFirst(a, x)
    ensures IsFirst(a + b, x)
  {
    var n :| 0 <= n < |a| && a[n] == x && forall j :: 0 <= j < n ==> a[j].fee != x.fee;
    assert (a + b)[n] == x;
  }

  /** h picks the first entry of every fee of s, best fee first. */
  predicate Firsts(s: seq<Entry>, h: seq<Entry>) {
    && (forall i, j :: 0 <= i < j < |h| ==> h[i].fee > h[j].fee)
    && (forall i :: 0 <= i < |h| ==> IsFirst(s, h[i]))
    && (forall x :: x in s ==> exists i :: 0 <= i < |h| && h[i].fee == x.fee)
  }

  lemma FirstsEmpty()
    ensures Firsts([], [])
  {
  }

  lemma FirstsOne(c: seq<Entry>, fee: uint64)
    requires |c| > 0 && OneFee(c, fee)
    ensures Firsts(c, [c[0]])
  {
    assert IsFirst(c, c[0]);
    assert [c[0]][0].fee == fee;
  }

  /** Firsts of two parts, the first part paying more throughout. */
  lemma FirstsJoin(a: seq<Entry>, b: seq<Entry>, g: seq<Entry>, h: seq<Entry>, fee: int)
    requires Firsts(a, g) && Firsts(b, h) && AtLeast(a, fee + 1) && AtMost(b, fee)
    ensures Firsts(a + b, g + h)
  {
    forall i | 0 <= i < |g| ensures IsFirst(a + b, g[i]) && g[i].fee > fee {
      FirstIn(a, g[i]);
      IsFirstBefore(a, b, g[i]);
    }
    forall i | 0 <= i < |h| ensures IsFirst(a + b, h[i]) && h[i].fee <= fee {
      FirstIn(b, h[i]);
      IsFirstAfter(a, b, h[i]);
    }
    hide IsFirst;
    var k := g + h;
    forall x | x in a + b ensures exists i :: 0 <= i < |k| && k[i].fee == x.fee {
      if x in a {
        var i :| 0 <= i < |g| && g[i].fee == x.fee;
        assert k[i].fee == x.fee;
      } else {
        var i :| 0 <= i < |h| && h[i].fee == x.fee;
        assert k[|g| + i].fee == x.fee;
      }
    }
  }

  lemma FirstIn(s: seq<Entry>, x: Entry)
    requires IsFirst(s, x)
    ensures exists n :: 0 <= n < |s| && s[n] == x
  {
  }

  /** A negative count yields the earliest record of every fee, best fee first. */
  lemma {:induction false} NegativeEmission(t: Tree, k: int, lo: int, hi: int)
    requires Within(t, lo, hi) && k < 0
    ensures Firsts(Listing(t), Emission(t, k))
  {
    if t.Leaf? {
      FirstsEmpty();
    } else {
      NegativeEmission(t.left, k, lo, t.key);
      NegativeEmission(t.right, k, t.key, hi);
      ListingBounds(t.right, t.key, hi);
      ListingBounds(t.left, lo, t.key);
      HeadsNode(t, k);
      FirstsOne(Chain(t), t.key);
      hide Firsts, Emission, Listing;
      FirstsJoin(Chain(t), Listing(t.left), [t.head], Emission(t.left, k), t.key - 1);
      var g, h := Emission(t.right, k), [t.head] + Emission(t.left, k);
      FirstsJoin(Listing(t.right), Chain(t) + Listing(t.left), g, h, t.key);
    }
  }

  lemma HeadsNode(t: Tree, k: int)
    requires t.Node? && k < 0
    ensures Emission(t, k) == Emission(t.right, k) + ([t.head] + Emission(t.left, k))
    ensures Listing(t) == Listing(t.right) + (Chain(t) + Listing(t.left))
  {
  }

  lemma TxsConcat(a: seq<Entry>, b: seq<Entry>)
    ensures TxsOf(a + b) == TxsOf(a) + TxsOf(b)
  {
  }

  lemma TxsThree(out: seq<Tx>, a: seq<Entry>, b: seq<Entry>, c: seq<Entry>)
    ensures ((out + TxsOf(a)) + TxsOf(b)) + TxsOf(c) == out + TxsOf(a + (b + c))
  {
    TxsConcat(a, b + c);
    TxsConcat(b, c);
    ConcatFour(out, TxsOf(a), TxsOf(b), TxsOf(c));
  }

  lemma ConcatFour<T>(a: seq<T>, b: seq<T>, c: seq<T>, d: seq<T>)
    ensures ((a + b) + c) + d == a + (b + (c + d))
  {
  }

  /** What one node contributes when k more are wanted. */
  function Share(t: Tree, k: int): seq<Entry>
    requires t.Node?
  {
    if k < 0 then [t.head] else if k < |Chain(t)| then Chain(t)[..k] else Chain(t)
  }

  /** How an emission splits at a node. */
  lemma EmissionSplit(t: Tree, k: int)
    requires t.Node?
    ensures var r := Emission(t.right, k);
            var rem := k - |r|;
            var c := Share(t, rem);
            Emission(t, k) == if rem == 0 then r else r + (c + Emission(t.left, rem - |c|))
  {
    if k >= 0 {
      var r, c, l := Listing(t.right), Chain(t), Listing(t.left);
      if |r| < k <= |r| + |c| {
        assert (r + (c + l))[..k] == r + c[..k - |r|];
        assert l[..0] == [] && c[..k - |r|] + [] == c[..k - |r|];
      } else if |r| + |c| < k {
        assert k < |r + (c + l)| ==> (r + (c + l))[..k] == r + (c + l[..k - |r| - |c|]);
      }
    }
  }

  /** Lines 295-320, the channel being a sequence. */
  method GetMaxElements(node: MemTreeNode?, out: seq<Tx>, remaining: int) returns (out': seq<Tx>, rem: int)
    requires node != null ==> node.Valid()
    ensures out' == out + TxsOf(Emission(ModelOf(node), remaining))
    ensures rem == remaining - |Emission(ModelOf(node), remaining)|
    decreases ReprOf(node)
  {
    hide Chained, Emission, TxsOf, Share;
    if node == null {
      NoEmission(remaining);
      return out, remaining;
    }
    ghost var t := node.Model;
    NodeParts(node);
    EmissionSplit(t, remaining);
    out', rem := GetMaxElements(node.right, out, remaining);
    if rem == 0 {
      return;
    }
    ghost var r, c := Emission(t.right, remaining), Share(t, rem);
    out', rem := EmitChain(node, out', rem);
    TxsThree(out, r, c, Emission(t.left, rem));
    out', rem := GetMaxElements(node.left, out', rem);
  }

  lemma NoEmission(k: int)
    ensures Emission(Leaf, k) == [] && TxsOf([]) == []
  {
  }

  lemma NodeParts(node: MemTreeNode)
    requires node.Valid()
    ensures node.Model.Node? && node.Model.left == ModelOf(node.left) && node.Model.right == ModelOf(node.right)
    ensures node.left != null ==> node.left.Valid() && node.left.Repr < node.Repr
    ensures node.right != null ==> node.right.Valid() && node.right.Repr < node.Repr
  {
    assert node.Sound(node.Repr);
  }

  /** Walking `same` from a node walks its tail, and finds the later transactions of the chain. */
  lemma ChainParts(node: MemTreeNode)
    requires node.Valid()
    ensures var chain, tail := Chain(node.Model), node.Tail;
            && |chain| == |tail| + 1 && chain[0].tx == node.tx
            && node.same == (if |tail| == 0 then null else tail[0])
            && forall i {:trigger tail[i]} :: 0 <= i < |tail| ==>
                 tail[i].same == Next(tail, i) && tail[i].tx == chain[i + 1].tx
  {
    assert node.Sound(node.Repr) && Chained(node, node.Tail, node.Same) && node.Model.same == node.Same;
    forall i | 0 <= i < |node.Tail| ensures node.Tail[i].tx == Chain(node.Model)[i + 1].tx {
      assert node.Tail[i].EntryOf() == node.Same[i];
    }
  }

  lemma TxsOfPrefix(s: seq<Entry>, n: nat)
    requires n <= |s|
    ensures TxsOf(s[..n]) == TxsOf(s)[..n]
  {
  }

  /** Lines 310-318. */
  method EmitChain(node: MemTreeNode, out: seq<Tx>, remaining: int) returns (out': seq<Tx>, rem: int)
    requires node.Valid() && remaining != 0
    ensures var c := Share(node.Model, remaining); out' == out + TxsOf(c) && rem == remaining - |c|
  {
    hide MemTreeNode.Valid, MemTreeNode.Sound, Chained, TxsOf, Share, Chain;
    ChainParts(node);
    ghost var chain, tail := Chain(node.Model), node.Tail;
    ghost var txs := TxsOf(chain);
    out' := out + [node.tx];
    rem := remaining - 1;
    var tmp := node;
    ghost var i := 0;
    while rem > 0 && tmp.same != null
      invariant 0 <= i <= |tail| && tmp == (if i == 0 then node else tail[i - 1])
      invariant tmp.same == if i < |tail| then tail[i] else null
      invariant rem == remaining - 1 - i && (i > 0 ==> rem >= 0)
      invariant out' == out + txs[..i + 1]
      decreases |tail| - i
    {
      tmp := tmp.same;
      i := i + 1;
      out' := out' + [tmp.tx];
      rem := rem - 1;
    }
    TxsOfPrefix(chain, i + 1);
    ShareIs(node.Model, remaining, i + 1);
  }

  lemma ShareIs(t: Tree, k: int, n: nat)
    requires t.Node? && n <= |Chain(t)|
    requires if k < 0 then n == 1 else n == k || (n == |Chain(t)| && n <= k)
    ensures Share(t, k) == Chain(t)[..n]
  {
  }

  // ---- the tree object

  class MemTree {
    const edits: Edits
    var root: MemTreeNode?

    constructor (edits: Edits)
      ensures Valid() && this.edits == edits && Contents() == [] && fresh(Repr())
    {
      this.edits, root := edits, null;
    }

    ghost function Repr(): set<object>
      reads this, root
    {
      {this} + (set n: MemTreeNode | n in ReprOf(root))
    }

    ghost function Model(): Tree
      reads this, root
    {
      ModelOf(root)
    }

    /** Every record in the order in which a request for the best sees it. */
    ghost function Contents(): seq<Entry>
      reads this, root
    {
      Listing(Model())
    }

    /** Ordered always; balanced when the rotations and the heights follow their comments. */
    ghost predicate Valid()
      reads this, root, ReprOf(root)
    {
      && (root != null ==> root.Valid())
      && Ordered(Model())
      && (edits.rotate && edits.height ==> Avl(Model()))
    }

    /**
     Lines 97-101; false is a nil dereference.  From a balanced tree the rotations as commented never reach it, and as
     written they do exactly when the insertion crashes; the tree stays balanced exactly when it is not spoiled.
     */
    method Insert(tx: Tx) returns (ok: bool)
      requires Valid()
      modifies this, ReprOf(root)
      ensures ok <==> FeeTree.Insert(edits, old(Model()), EntryFor(tx)).Done?
      ensures Avl(old(Model())) ==> (ok <==> edits.rotate || !Crashes(old(Model()), Fees(tx)))
      ensures Avl(old(Model())) ==> (ok && Avl(Model()) <==> edits.rotate || !Spoils(old(Model()), Fees(tx)))
      ensures ok ==> Valid() && Contents() == InsertDesc(old(Contents()), Entry(Fees(tx), tx.txid, tx))
      ensures ok && Consistent(old(Model())) ==> Consistent(Model())
      ensures ok ==> fresh(Repr() - old(Repr()))
    {
      hide Ordered, InsertDesc, Consistent, Crashes, Spoils, Avl, FeeTree.Insert;
      ghost var m, x := Model(), EntryFor(tx);
      var newNode := new MemTreeNode(tx);
      var r := InsertAtNode(edits, root, newNode);
      InsertFacts(edits, m, tx);
      ok := r != null;
      if ok {
        root := r;
      }
    }

    /**
     Lines 169-171; false is ErrTxRecNotFound, where the descent ends at a node without the record.  A record that is
     there is found if the descent goes right as commented, and otherwise exactly when its fee is on the left spine.
     */
    method RemoveRecord(rec: TxRecord) returns (ok: bool)
      requires Valid()
      modifies this, ReprOf(root)
      ensures !ok <==> Misses(edits, old(Model()), rec.fee, rec.txid)
      ensures Find(old(Contents()), rec.fee, rec.txid) < |old(Contents())| ==>
                (ok <==> edits.descend || OnLeftSpine(old(Model()), rec.fee))
      ensures ok ==> Valid() && Agree(edits, Contents(), Delete(old(Contents()), rec.fee, rec.txid))
      ensures ok && Consistent(old(Model())) ==>
                (Contents() == Delete(old(Contents()), rec.fee, rec.txid)
                 <==> edits.tx || !Displaces(edits, old(Model()), rec.fee, rec.txid))
      ensures ok && Consistent(old(Model())) ==>
                (Consistent(Model()) <==> edits.tx || !Displaces(edits, old(Model()), rec.fee, rec.txid))
      ensures ok && Avl(old(Model())) ==> (Avl(Model()) <==> !Stale(edits, old(Model()), rec.fee, rec.txid))
      ensures ok ==> Done(Model()) == Remove(edits, old(Model()), rec.fee, rec.txid)
      ensures ok ==> ReprOf(root) <= old(ReprOf(root))
    {
      hide Ordered, Agree, Delete, Find, Consistent, Displaces, Misses, OnLeftSpine, Avl, Stale, Remove;
      ghost var m := Model();
      var r := RemoveAtNode(edits, root, rec);
      RemoveFacts(edits, m, rec.fee, rec.txid);
      ok := r.Done?;
      if ok {
        root := r.value;
      }
    }
  }

  /** The descent of a removal ends at a node that does not hold the record. */
  predicate Misses(e: Edits, t: Tree, fee: uint64, txid: bytes) {
    var s := Stop(e, t, fee);
    s.Node? && Find(Chain(s), fee, txid) == |Chain(s)|
  }

  lemma InsertFacts(e: Edits, t: Tree, tx: Tx)
    requires Ordered(t)
    ensures Avl(t) ==> (FeeTree.Insert(e, t, EntryFor(tx)).Done? <==> e.rotate || !Crashes(t, Fees(tx)))
    ensures var r := FeeTree.Insert(e, t, EntryFor(tx));
            && (Avl(t) ==> (r.Done? && Avl(r.value) <==> e.rotate || !Spoils(t, Fees(tx))))
            && (r.Done? ==> Ordered(r.value) && Listing(r.value) == InsertDesc(Listing(t), EntryFor(tx)))
            && (r.Done? && Consistent(t) ==> Consistent(r.value))
  {
    hide FeeTree.Insert, Consistent, Crashes, Spoils, Avl, InsertDesc, Fees;
    var x := EntryFor(tx);
    InsertListing(e, t, x, -1, TWO_64);
    if Avl(t) {
      PanicsExactly(e, t, x);
      BalancedExactly(e, t, x);
    }
    if FeeTree.Insert(e, t, x).Done? && Consistent(t) {
      InsertConsistent(e, t, x);
    }
  }

  lemma RemoveFacts(e: Edits, t: Tree, fee: uint64, txid: bytes)
    requires Ordered(t)
    ensures var r := Remove(e, t, fee, txid);
            && (r.Panic? <==> Misses(e, t, fee, txid))
            && (Find(Listing(t), fee, txid) < |Listing(t)| ==> (r.Done? <==> e.descend || OnLeftSpine(t, fee)))
            && (r.Done? ==> Ordered(r.value) && Agree(e, Listing(r.value), Delete(Listing(t), fee, txid)))
            && (r.Done? && Consistent(t) ==>
                  (Listing(r.value) == Delete(Listing(t), fee, txid) <==> e.tx || !Displaces(e, t, fee, txid)))
            && (r.Done? && Consistent(t) ==> (Consistent(r.value) <==> e.tx || !Displaces(e, t, fee, txid)))
            && (r.Done? && Avl(t) ==> (Avl(r.value) <==> !Stale(e, t, fee, txid)))
            && (e.height ==> !Stale(e, t, fee, txid))
  {
    hide Remove, Consistent, Displaces, Avl, Agree, Delete, Find, OnLeftSpine;
    RemoveListing(e, t, fee, txid, -1, TWO_64);
    if Find(Listing(t), fee, txid) < |Listing(t)| {
      RemovePresent(e, t, fee, txid);
    }
    if Remove(e, t, fee, txid).Done? && Consistent(t) {
      RemoveListingExact(e, t, fee, txid, -1, TWO_64);
      RemoveConsistent(e, t, fee, txid, -1, TWO_64);
    }
    if Remove(e, t, fee, txid).Done? && Avl(t) {
      RemoveAvl(e, t, fee, txid, -1, TWO_64);
    }
  }
}
