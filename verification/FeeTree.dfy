/**
 The fee-keyed tree of core/mempool.go, on values: what insertAtNode, removeAtNode and their rotations
 compute.  A node carries the chain of the transactions that pay its fee, head first.
 */
module FeeTree {
  import opened Bytes
  import opened Transactions

  /** A record and the transaction beside it, as one tree or chain node holds them. */
  datatype Entry = Entry(fee: uint64, txid: bytes, tx: Tx)

  /** What createMemTreeNode makes of a transaction. */
  function EntryFor(tx: Tx): Entry {
    Entry(Fees(tx), tx.txid, tx)
  }

  datatype Tree = Leaf | Node(key: uint64, head: Entry, same: seq<Entry>, left: Tree, right: Tree, height: int)

  /** A value, or the run-time panic of the source (a nil dereference or ErrTxRecNotFound). */
  datatype Outcome<+T> = Done(value: T) | Panic {
    predicate IsFailure() {
      Panic?
    }

    function PropagateFailure<U>(): Outcome<U>
      requires Panic?
    {
      Panic
    }

    function Extract(): T
      requires Done?
    {
      value
    }
  }

  /**
   Four places of core/mempool.go do not do what their comments say.  Each flag reads one of them as its
   comment does; with all four false this is the code as written.
   - rotate: lines 145-151, the "right left" and "right right" bodies
   - descend: line 182, the test for going right
   - height: lines 219-223, the promoted chain node keeps the height of the node it replaces
   - tx: lines 249-251, the transaction moves together with its record
   */
  datatype Edits = Edits(rotate: bool, descend: bool, height: bool, tx: bool)

  const AS_WRITTEN := Edits(false, false, false, false)
  const AS_COMMENTED := Edits(true, true, true, true)

  function Max(a: int, b: int): int {
    if a > b then a else b
  }

  function Height(t: Tree): int {
    if t.Leaf? then 0 else t.height
  }

  function BalanceFactor(t: Tree): int {
    if t.Leaf? then 0 else Height(t.left) - Height(t.right)
  }

  /** The height assignment of lines 78, 128 and 266. */
  function Fix(t: Tree): Tree
    requires t.Node?
  {
    t.(height := 1 + Max(Height(t.left), Height(t.right)))
  }

  function RightRotate(t: Tree): Outcome<Tree>
    requires t.Node?
  {
    if t.left.Leaf? then Panic else
      var node := Fix(t.(left := t.left.right));
      Done(Fix(t.left.(right := node)))
  }

  function LeftRotate(t: Tree): Outcome<Tree>
    requires t.Node?
  {
    if t.right.Leaf? then Panic else
      var node := Fix(t.(right := t.right.left));
      Done(Fix(t.right.(left := node)))
  }

  /** Left-rotate the left child, then right-rotate. */
  function LeftRight(t: Tree): Outcome<Tree>
    requires t.Node?
  {
    if t.left.Leaf? then Panic else
      var l :- LeftRotate(t.left);
      RightRotate(t.(left := l))
  }

  /** Right-rotate the right child, then left-rotate. */
  function RightLeft(t: Tree): Outcome<Tree>
    requires t.Node?
  {
    if t.right.Leaf? then Panic else
      var r :- RightRotate(t.right);
      LeftRotate(t.(right := r))
  }

  function Single(x: Entry): Tree {
    Node(x.fee, x, [], Leaf, Leaf, 1)
  }

  /** Lines 134-156. */
  function AfterInsert(e: Edits, t: Tree, fee: uint64): Outcome<Tree>
    requires t.Node?
  {
    if BalanceFactor(t) > 1 then
      if t.left.Leaf? then Panic
      else if fee < t.left.key then RightRotate(t) else LeftRight(t)
    else if BalanceFactor(t) < -1 then
      if t.right.Leaf? then Panic
      else if (fee > t.right.key) == e.rotate then LeftRotate(t) else RightLeft(t)
    else Done(t)
  }

  function Insert(e: Edits, t: Tree, x: Entry): Outcome<Tree> {
    match t
    case Leaf => Done(Single(x))
    case Node(key, head, same, left, right, _) =>
      if x.fee == key then Done(t.(same := same + [x]))
      else if x.fee < key then
        var l :- Insert(e, left, x);
        AfterInsert(e, Fix(t.(left := l)), x.fee)
      else
        var r :- Insert(e, right, x);
        AfterInsert(e, Fix(t.(right := r)), x.fee)
  }

  /** Lines 265-292. */
  function Rebalance(t: Tree): Outcome<Tree>
    requires t.Node?
  {
    if BalanceFactor(t) > 1 then
      if BalanceFactor(t.left) >= 0 then RightRotate(t) else LeftRight(t)
    else if BalanceFactor(t) < -1 then
      if BalanceFactor(t.right) <= 0 then LeftRotate(t) else RightLeft(t)
    else Done(t)
  }

  predicate Matches(x: Entry, fee: uint64, txid: bytes) {
    x.fee == fee && x.txid == txid
  }

  /** The position of the first matching entry, or |s|. */
  function Find(s: seq<Entry>, fee: uint64, txid: bytes): (i: nat)
    ensures i <= |s|
    ensures i < |s| ==> Matches(s[i], fee, txid)
    ensures forall j :: 0 <= j < i ==> !Matches(s[j], fee, txid)
  {
    if |s| == 0 || Matches(s[0], fee, txid) then 0 else 1 + Find(s[1..], fee, txid)
  }

  function Delete(s: seq<Entry>, fee: uint64, txid: bytes): seq<Entry> {
    var i := Find(s, fee, txid);
    if i < |s| then Cut(s, i) else s
  }

  /** s without element i. */
  function Cut<T>(s: seq<T>, i: nat): (r: seq<T>)
    requires i < |s|
    ensures |r| == |s| - 1 && forall j :: 0 <= j < |r| ==> r[j] == if j < i then s[j] else s[j + 1]
  {
    s[..i] + s[i + 1..]
  }

  function Nodes(t: Tree): nat {
    if t.Leaf? then 0 else Nodes(t.left) + 1 + Nodes(t.right)
  }

  /** getSmallestNode. */
  function Smallest(t: Tree): (s: Tree)
    requires t.Node?
    ensures s.Node? && s.left.Leaf?
  {
    if t.left.Leaf? then t else Smallest(t.left)
  }

  /** The tree after `tmp.same = nil` (line 254) at its smallest node. */
  function Shed(t: Tree): (s: Tree)
    requires t.Node?
    ensures s.Node? && Nodes(s) == Nodes(t) && Height(s) == Height(t)
  {
    if t.left.Leaf? then t.(same := []) else t.(left := Shed(t.left))
  }

  /** Lines 245-256: the node takes over its successor's key, record and chain, and a new right subtree. */
  function TakeOver(e: Edits, t: Tree, r: Tree): (s: Tree)
    requires t.Node? && t.right.Node?
    ensures s.Node? && s.left == t.left && s.right == r
  {
    var succ := Smallest(t.right);
    Node(succ.key, if e.tx then succ.head else succ.head.(tx := t.head.tx), succ.same, t.left, r, t.height)
  }

  function Remove(e: Edits, t: Tree, fee: uint64, txid: bytes): Outcome<Tree>
    decreases Nodes(t)
  {
    match t
    case Leaf => Done(Leaf)
    case Node(key, head, same, left, right, _) =>
      if fee < key then
        var l :- Remove(e, left, fee, txid);
        Rebalance(Fix(t.(left := l)))
      else if e.descend && fee > key then
        var r :- Remove(e, right, fee, txid);
        Rebalance(Fix(t.(right := r)))
      else if !Matches(head, fee, txid) then
        if Find(same, fee, txid) < |same| then Done(t.(same := Delete(same, fee, txid))) else Panic
      else if |same| > 0 then
        Done(t.(head := same[0], same := same[1..], height := if e.height then t.height else 1))
      else if left.Leaf? || right.Leaf? then
        var child := if left.Leaf? then right else left;
        if child.Leaf? then Done(Leaf) else Rebalance(Fix(child))
      else
        var succ := Smallest(right).head;
        var r :- Remove(e, Shed(right), succ.fee, succ.txid);
        Rebalance(Fix(TakeOver(e, t, r)))
  }

  /** The transactions of one node, in the order of their arrival. */
  function Chain(t: Tree): seq<Entry>
    requires t.Node?
  {
    [t.head] + t.same
  }

  /** Reverse in-order: the order in which getMaxElements visits the records. */
  function Listing(t: Tree): seq<Entry> {
    if t.Leaf? then [] else Listing(t.right) + (Chain(t) + Listing(t.left))
  }
}
